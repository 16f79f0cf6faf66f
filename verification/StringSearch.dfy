/** Substring search: the C library's strstr as a specification, and the agent's own bounded search. */
module StringSearch {
  import opened Wrappers

  predicate OccursAt(s: string, t: string, i: int) {
    0 <= i && i + |t| <= |s| && s[i..i + |t|] == t
  }

  predicate NoneBefore(s: string, t: string, n: int) {
    forall i {:trigger OccursAt(s, t, i)} :: 0 <= i < n ==> !OccursAt(s, t, i)
  }

  predicate Leftmost(s: string, t: string, k: int) {
    OccursAt(s, t, k) && NoneBefore(s, t, k)
  }

  /** The leftmost occurrence of `t` in `s`. */
  ghost function Find(s: string, t: string): Option<nat> {
    if k: nat :| Leftmost(s, t, k) then Some(k) else None
  }

  lemma FindIs(s: string, t: string, k: nat)
    requires Leftmost(s, t, k)
    ensures Find(s, t) == Some(k)
  {
    var k' := Find(s, t).value;
    assert Leftmost(s, t, k');
    assert OccursAt(s, t, k) && OccursAt(s, t, k');
  }

  lemma FindNone(s: string, t: string)
    requires NoneBefore(s, t, |s| + 1)
    ensures Find(s, t) == None
  {
    forall k: nat ensures !Leftmost(s, t, k) {
      assert OccursAt(s, t, k) ==> k < |s| + 1;
    }
  }

  /** A search that finds nothing means there is nothing. */
  lemma FindMeans(s: string, t: string)
    ensures Find(s, t).Some? ==> Leftmost(s, t, Find(s, t).value)
    ensures Find(s, t).None? ==> NoneBefore(s, t, |s| + 1)
  {
    if Find(s, t).None? { NoLeftmost(s, t, |s| + 1); }
  }

  lemma {:induction false} NoLeftmost(s: string, t: string, n: nat)
    requires forall k: nat :: !Leftmost(s, t, k)
    ensures NoneBefore(s, t, n)
  {
    if n > 0 {
      NoLeftmost(s, t, n - 1);
      assert !Leftmost(s, t, n - 1);
    }
  }

  /** strstr. */
  method StrStr(s: string, t: string) returns (r: Option<nat>)
    ensures r == Find(s, t)
  {
    var i := 0;
    while i + |t| <= |s|
      invariant 0 <= i <= |s| + 1 && NoneBefore(s, t, i)
    {
      if s[i..i + |t|] == t {
        FindIs(s, t, i);
        return Some(i);
      }
      i := i + 1;
    }
    FindNone(s, t);
    return None;
  }

  /** An occurrence that lies wholly within the first `n` characters. */
  predicate OccursWithin(s: string, t: string, n: nat, i: int) {
    OccursAt(s, t, i) && i + |t| <= n
  }

  /** strnstr: two nested loops that advance the pointer and use up `slen`. */
  method StrNStr(s: string, text: string, slen: nat) returns (r: Option<nat>)
    requires '\0' !in s && '\0' !in text
    ensures text == "" ==> r == Some(0)
    ensures text != "" && r.Some? ==> OccursWithin(s, text, slen, r.value)
    ensures text != "" && r.Some? ==> forall i :: i < r.value ==> !OccursAt(s, text, i)
    ensures text != "" && r.None? ==> forall i :: !OccursWithin(s, text, slen, i)
  {
    if text == "" { return Some(0); }
    var c, rest := text[0], text[1..];
    var len := |rest|;
    var p, left := 0, slen;
    while true
      invariant 0 <= p <= |s| && left == slen - p
      invariant forall i :: i < p ==> !OccursAt(s, text, i)
      decreases |s| - p
    {
      while true
        invariant 0 <= p <= |s| && left == slen - p
        invariant forall i :: i < p ==> !OccursAt(s, text, i)
        decreases |s| - p
      {
        if p == |s| || left < 1 { return None; }
        var sc := s[p];
        p := p + 1;
        left := left - 1;
        OccursAtHead(s, text, p - 1);
        if sc == c { break; }
      }
      if len > left { return None; }
      if p + len <= |s| && s[p..p + len] == rest { return Some(p - 1); }
    }
  }

  lemma OccursAtHead(s: string, t: string, i: nat)
    requires t != "" && i < |s|
    ensures OccursAt(s, t, i) <==> s[i] == t[0] && OccursAt(s, t[1..], i + 1)
  {
    assert i + |t| <= |s| ==> s[i..i + |t|] == [s[i]] + s[i + 1..i + |t|];
    assert t == [t[0]] + t[1..];
  }

  // ---------- which topics carry commands ----------

  const REQUEST_TOPIC := "/oneM2M/req_msg/"
  const RESPONSE_TOPIC := "/oneM2M/resp/"

  /** IsCMD: "req" lies within the first twelve characters. */
  method IsCmd(topic: string) returns (r: Option<nat>)
    requires '\0' !in topic
    ensures r.Some? <==> exists i :: OccursWithin(topic, "req", 12, i)
  {
    r := StrNStr(topic, "req", 12);
  }

  /** Whatever the sender and the client id, a request topic is a command and a response topic is not. */
  lemma CommandTopics(rest: string)
    ensures OccursWithin(REQUEST_TOPIC + rest, "req", 12, 8)
    ensures forall i :: !OccursWithin(RESPONSE_TOPIC + rest, "req", 12, i)
  {
    var req, resp := REQUEST_TOPIC + rest, RESPONSE_TOPIC + rest;
    assert req[8] == 'r' && req[9] == 'e' && req[10] == 'q';
    assert req[8..11] == ['r', 'e', 'q'];
    assert resp[..12] == RESPONSE_TOPIC[..12];
    assert forall j :: 0 <= j < 12 ==> RESPONSE_TOPIC[j] != 'q';
    forall i | OccursWithin(resp, "req", 12, i) ensures false {
      CharOccurs(resp, "req", 12, i, 2);
    }
  }

  lemma CharOccurs(s: string, t: string, n: nat, i: int, k: nat)
    requires OccursWithin(s, t, n, i) && k < |t| && n <= |s|
    ensures t[k] in s[..n]
  {
    assert s[i..i + |t|][k] == s[..n][i + k];
  }
}
