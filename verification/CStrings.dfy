/** C strings in character buffers. */
module CStrings {
  ghost predicate IsText(s: seq<char>, n: int) {
    0 <= n <= |s| && '\0' !in s[..n] && (n < |s| ==> s[n] == '\0')
  }

  lemma TextExists(s: seq<char>)
    ensures exists n :: IsText(s, n)
  {
    var n := 0;
    while n < |s| && s[n] != '\0'
      invariant n <= |s| && '\0' !in s[..n]
    {
      n := n + 1;
    }
    assert IsText(s, n);
  }

  /** The text up to the first NUL. */
  ghost function CStr(s: seq<char>): (t: string)
    ensures |t| <= |s| && t == s[..|t|] && '\0' !in t
    ensures |t| < |s| ==> s[|t|] == '\0'
  {
    TextExists(s);
    var n :| IsText(s, n);
    s[..n]
  }

  /** CStr is determined by where the first NUL is. */
  lemma CStrIs(s: seq<char>, t: string)
    requires '\0' !in t && t <= s && (|t| < |s| ==> s[|t|] == '\0')
    ensures CStr(s) == t
  {
    assert forall i :: 0 <= i < |t| ==> s[i] == t[i] && t[i] in t;
    assert forall i :: 0 <= i < |CStr(s)| ==> s[i] == CStr(s)[i] && CStr(s)[i] in CStr(s);
  }

  lemma ShorterThanBuffer(s: seq<char>)
    requires Terminated(s)
    ensures |CStr(s)| < |s|
  {
    assert '\0' !in CStr(s);
  }

  predicate Terminated(s: seq<char>) {
    '\0' in s
  }

  /** strlen of the text in a buffer. */
  method StrLen(buf: array<char>) returns (n: nat)
    requires Terminated(buf[..])
    ensures n == |CStr(buf[..])| < buf.Length
  {
    n := 0;
    ghost var t := CStr(buf[..]);
    ShorterThanBuffer(buf[..]);
    while buf[n] != '\0'
      invariant n <= |t|
      decreases buf.Length - n
    {
      n := n + 1;
    }
    assert forall j :: 0 <= j < |t| ==> t[j] in t;
  }

  /** strncat: appends at most n characters of `src`, stopping at a NUL, and a terminator. */
  method StrNCat(buf: array<char>, src: seq<char>, n: nat)
    requires Terminated(buf[..]) && n <= |src|
    requires |CStr(buf[..])| + |CStr(src[..n])| < buf.Length
    modifies buf
    ensures CStr(buf[..]) == old(CStr(buf[..])) + CStr(src[..n]) && Terminated(buf[..])
    ensures forall i :: |CStr(buf[..])| < i < buf.Length ==> buf[i] == old(buf[i])
  {
    ghost var before, added := CStr(buf[..]), CStr(src[..n]);
    var end := StrLen(buf);
    var i := 0;
    while i < n && src[i] != '\0'
      invariant 0 <= i <= |added| && end == |before|
      invariant buf[..end + i] == before + added[..i]
      invariant forall j :: end + i <= j < buf.Length ==> buf[j] == old(buf[j])
    {
      assert i < |added|;
      assert added[i] == src[i];
      buf[end + i] := src[i];
      i := i + 1;
      assert added[..i] == added[..i - 1] + [src[i - 1]];
    }
    assert forall j :: 0 <= j < |added| ==> added[j] in added;
    buf[end + i] := '\0';
    assert buf[..][end + i] == '\0';
    assert buf[..][..end + i] == before + added;
    CStrIs(buf[..], before + added);
  }
}
