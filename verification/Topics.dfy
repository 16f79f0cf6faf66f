/** Topic filters and topic names: the matching loop of the MQTT client, against level lists. */
module Topics {

  /** The levels of a topic: the pieces between separators. */
  function Levels(s: string): (ls: seq<string>)
    ensures |ls| > 0
  {
    if s == "" then [""]
    else
      var rest := Levels(s[1..]);
      if s[0] == '/' then [""] + rest else [[s[0]] + rest[0]] + rest[1..]
  }

  /** Puts the separators back. */
  function Join(ls: seq<string>): string
    requires |ls| > 0
  {
    if |ls| == 1 then ls[0] else ls[0] + "/" + Join(ls[1..])
  }

  /** `Levels` cuts at every separator and nowhere else. */
  lemma {:induction false} LevelsOfTopic(s: string)
    ensures Join(Levels(s)) == s
    ensures forall l :: l in Levels(s) ==> '/' !in l
  {
    if s != "" {
      LevelsOfTopic(s[1..]);
      var rest := Levels(s[1..]);
      if s[0] == '/' {
        assert Levels(s)[1..] == rest;
      } else {
        assert Levels(s)[1..] == rest[1..];
        assert s == [s[0]] + s[1..];
      }
    }
  }

  /** "`#` can only be at end, `+` and `#` can only be next to separator". */
  predicate WellFormed(fs: seq<string>) {
    forall i :: 0 <= i < |fs| ==>
      fs[i] == "+" || (fs[i] == "#" && i == |fs| - 1) || ('+' !in fs[i] && '#' !in fs[i])
  }

  predicate EndsInHash(fs: seq<string>) {
    |fs| > 0 && fs[|fs| - 1] == "#"
  }

  /** One filter level takes one name level. */
  predicate Takes(f: string, n: string) {
    if f == "+" then n != "" else n == f
  }

  predicate AllTake(fs: seq<string>, ns: seq<string>, k: nat) {
    k <= |fs| && k <= |ns| && forall i :: 0 <= i < k ==> Takes(fs[i], ns[i])
  }

  /** What the loop decides: a final `#` takes one or more levels, the first of them not empty. */
  predicate Matches(fs: seq<string>, ns: seq<string>) {
    if EndsInHash(fs) then
      |ns| >= |fs| && ns[|fs| - 1] != "" && AllTake(fs, ns, |fs| - 1)
    else
      |ns| == |fs| && AllTake(fs, ns, |fs|)
  }

  lemma LevelsEmpty(s: string)
    ensures Levels(s) == [""] <==> s == ""
  {
    if s != "" && s[0] != '/' {
      assert Levels(s)[0] != "";
    }
  }

  /** Removing one level on both sides. */
  lemma MatchesTail(fs: seq<string>, ns: seq<string>)
    requires |fs| > 0 && |ns| > 0 && fs[0] != "#"
    ensures |fs| > 1 ==> (Matches(fs, ns) <==> Takes(fs[0], ns[0]) && Matches(fs[1..], ns[1..]))
    ensures |fs| == 1 ==> (Matches(fs, ns) <==> Takes(fs[0], ns[0]) && |ns| == 1)
  {
    if |fs| > 1 {
      assert EndsInHash(fs) == EndsInHash(fs[1..]);
      var k := if EndsInHash(fs) then |fs| - 1 else |fs|;
      if Matches(fs, ns) {
        assert forall i :: 0 <= i < k - 1 ==> fs[1..][i] == fs[i + 1] && ns[1..][i] == ns[i + 1];
      }
      if Takes(fs[0], ns[0]) && Matches(fs[1..], ns[1..]) {
        forall i | 0 <= i < k ensures Takes(fs[i], ns[i]) {
          if i > 0 { assert Takes(fs[1..][i - 1], ns[1..][i - 1]); }
        }
      }
    }
  }

  /** Removing the same literal character from both first levels. */
  lemma MatchesSkipChar(f: string, n: string)
    requires f != "" && n != "" && f[0] == n[0] && f[0] != '+' && f[0] != '#'
    requires WellFormed(Levels(f))
    ensures WellFormed(Levels(f[1..]))
    ensures Matches(Levels(f), Levels(n)) <==> Matches(Levels(f[1..]), Levels(n[1..]))
  {
    var fs, ns, gs, ms := Levels(f), Levels(n), Levels(f[1..]), Levels(n[1..]);
    if f[0] == '/' {
      assert fs[1..] == gs && ns[1..] == ms;
      forall i | 0 <= i < |gs|
        ensures gs[i] == "+" || (gs[i] == "#" && i == |gs| - 1) || ('+' !in gs[i] && '#' !in gs[i])
      {
        assert gs[i] == fs[i + 1];
      }
      MatchesTail(fs, ns);
    } else {
      assert fs[0] == [f[0]] + gs[0] && ns[0] == [n[0]] + ms[0];
      assert fs[1..] == gs[1..] && ns[1..] == ms[1..];
      assert fs[0][0] == f[0];
      assert fs[0] != "+" && fs[0] != "#";
      assert '+' !in fs[0] && '#' !in fs[0];
      forall i | 0 <= i < |gs|
        ensures gs[i] == "+" || (gs[i] == "#" && i == |gs| - 1) || ('+' !in gs[i] && '#' !in gs[i])
      {
        if i > 0 { assert gs[i] == fs[i]; } else { assert forall c :: c in gs[0] ==> c in fs[0]; }
      }
      assert forall c :: c in gs[0] ==> c in fs[0];
      assert '+' in "+" && '#' in "#";
      assert Takes(fs[0], ns[0]) <==> Takes(gs[0], ms[0]) by {
        assert fs[0][1..] == gs[0] && ns[0][1..] == ms[0];
      }
      MatchesTail(fs, ns);
      MatchesTail(gs, ms);
    }
  }

  /** Different first characters, neither a wildcard: no match. */
  lemma MismatchedChar(f: string, n: string)
    requires f != "" && n != "" && WellFormed(Levels(f)) && f[0] != n[0]
    requires n[0] == '/' || (f[0] != '+' && f[0] != '#')
    ensures !Matches(Levels(f), Levels(n))
  {
    var fs, ns := Levels(f), Levels(n);
    if f[0] == '/' {
      assert fs[0] == "" && ns[0] != "";
    } else {
      assert fs[0][0] == f[0];
      if n[0] == '/' {
        assert ns[0] == "";
      } else {
        assert ns[0][0] == n[0];
      }
    }
    if fs[0] == "#" { assert |fs| == 1; } else { MatchesTail(fs, ns); }
  }

  /** The first level of a name, cut where the inner loop stops. */
  lemma {:induction false} LevelsSkip(n: string, k: nat)
    requires 0 < k <= |n| && forall i :: 0 <= i < k ==> n[i] != '/'
    requires k < |n| ==> n[k] == '/'
    ensures Levels(n)[0] == n[..k]
    ensures Levels(n)[1..] == Levels(n[k..])[1..]
    ensures Levels(n[k..])[0] == ""
  {
    if k > 1 {
      LevelsSkip(n[1..], k - 1);
      assert n[1..][k - 1..] == n[k..];
      assert n[..k] == [n[0]] + n[1..][..k - 1];
    } else {
      assert n[..1] == [n[0]] + "";
    }
  }

  /** `+` takes the level that the inner loop skips. */
  lemma MatchesPlus(f: string, n: string, k: nat)
    requires f != "" && f[0] == '+' && WellFormed(Levels(f))
    requires 0 < k <= |n| && forall i :: 0 <= i < k ==> n[i] != '/'
    requires k < |n| ==> n[k] == '/'
    ensures WellFormed(Levels(f[1..]))
    ensures Matches(Levels(f), Levels(n)) <==> Matches(Levels(f[1..]), Levels(n[k..]))
  {
    var fs, ns, gs, ms := Levels(f), Levels(n), Levels(f[1..]), Levels(n[k..]);
    assert fs[0] == ['+'] + gs[0];
    assert fs[0][0] == '+';
    assert fs[0] == "+";
    assert gs[0] == fs[0][1..] == "";
    assert fs[1..] == gs[1..];
    forall i | 0 <= i < |gs|
      ensures gs[i] == "+" || (gs[i] == "#" && i == |gs| - 1) || ('+' !in gs[i] && '#' !in gs[i])
    {
      if i > 0 { assert gs[i] == fs[i]; }
    }
    LevelsSkip(n, k);
    MatchesTail(fs, ns);
    MatchesTail(gs, ms);
  }

  /** `#` takes everything that is left. */
  lemma MatchesHash(f: string, n: string)
    requires f != "" && f[0] == '#' && WellFormed(Levels(f)) && n != "" && n[0] != '/'
    ensures f[1..] == "" && Matches(Levels(f), Levels(n))
  {
    var fs := Levels(f);
    assert fs[0][0] == '#';
    assert fs[0] == "#" && |fs| == 1;
    assert Levels(f[1..])[0] == fs[0][1..] == "";
    LevelsEmpty(f[1..]);
    assert Levels(n)[0][0] == n[0];
  }

  /** With one side used up, only two empty rests match. */
  lemma ExhaustedMatch(f: string, n: string)
    requires WellFormed(Levels(f))
    requires f == "" || n == ""
    ensures Matches(Levels(f), Levels(n)) <==> f == "" && n == ""
  {
    LevelsEmpty(f);
    LevelsEmpty(n);
    if n == "" && Matches(Levels(f), Levels(n)) {
      assert Levels(f)[0] == "";
    }
  }

  /** The rests at two cursors. */
  ghost predicate MatchesFrom(f: string, i: nat, n: string, j: nat)
    requires i <= |f| && j <= |n|
  {
    WellFormed(Levels(f[i..])) && Matches(Levels(f[i..]), Levels(n[j..]))
  }

  ghost predicate WellFormedFrom(f: string, i: nat)
    requires i <= |f|
  {
    WellFormed(Levels(f[i..]))
  }

  lemma StepChar(f: string, i: nat, n: string, j: nat)
    requires i < |f| && j < |n| && WellFormedFrom(f, i)
    requires f[i] == n[j] && f[i] != '+' && f[i] != '#'
    ensures WellFormedFrom(f, i + 1)
    ensures MatchesFrom(f, i, n, j) <==> MatchesFrom(f, i + 1, n, j + 1)
  {
    MatchesSkipChar(f[i..], n[j..]);
    assert f[i..][1..] == f[i + 1..] && n[j..][1..] == n[j + 1..];
  }

  lemma StepPlus(f: string, i: nat, n: string, j: nat, last: nat)
    requires i < |f| && j <= last < |n| && WellFormedFrom(f, i) && f[i] == '+'
    requires forall k :: j <= k <= last ==> n[k] != '/'
    requires last + 1 < |n| ==> n[last + 1] == '/'
    ensures WellFormedFrom(f, i + 1)
    ensures MatchesFrom(f, i, n, j) <==> MatchesFrom(f, i + 1, n, last + 1)
  {
    MatchesPlus(f[i..], n[j..], last + 1 - j);
    assert f[i..][1..] == f[i + 1..] && n[j..][last + 1 - j..] == n[last + 1..];
  }

  lemma StepHash(f: string, i: nat, n: string, j: nat)
    requires i < |f| && j < |n| && WellFormedFrom(f, i) && f[i] == '#' && n[j] != '/'
    ensures i + 1 == |f| && WellFormedFrom(f, i + 1)
    ensures MatchesFrom(f, i, n, j) && MatchesFrom(f, i + 1, n, |n|)
  {
    MatchesHash(f[i..], n[j..]);
    assert f[i..][1..] == f[i + 1..];
    ExhaustedMatch("", "");
  }

  lemma StepMismatch(f: string, i: nat, n: string, j: nat)
    requires i < |f| && j < |n| && WellFormedFrom(f, i) && f[i] != n[j]
    requires n[j] == '/' || (f[i] != '+' && f[i] != '#')
    ensures !MatchesFrom(f, i, n, j)
  {
    MismatchedChar(f[i..], n[j..]);
  }

  lemma StepExhausted(f: string, i: nat, n: string, j: nat)
    requires i <= |f| && j <= |n| && WellFormedFrom(f, i) && (i == |f| || j == |n|)
    ensures MatchesFrom(f, i, n, j) <==> i == |f| && j == |n|
  {
    ExhaustedMatch(f[i..], n[j..]);
  }

  /** isTopicMatched: two cursors over the filter and the name. */
  method IsTopicMatched(topicFilter: string, topicName: string) returns (matched: bool)
    requires WellFormed(Levels(topicFilter))
    ensures matched <==> Matches(Levels(topicFilter), Levels(topicName))
  {
    var curf, curn := 0, 0;
    assert topicFilter[0..] == topicFilter && topicName[0..] == topicName;
    ghost var goal := MatchesFrom(topicFilter, 0, topicName, 0);
    while curf < |topicFilter| && curn < |topicName|
      invariant 0 <= curf <= |topicFilter| && 0 <= curn <= |topicName|
      invariant WellFormedFrom(topicFilter, curf)
      invariant MatchesFrom(topicFilter, curf, topicName, curn) == goal
    {
      if topicName[curn] == '/' && topicFilter[curf] != '/' {
        StepMismatch(topicFilter, curf, topicName, curn);
        break;
      }
      if topicFilter[curf] != '+' && topicFilter[curf] != '#' && topicFilter[curf] != topicName[curn] {
        StepMismatch(topicFilter, curf, topicName, curn);
        break;
      }
      if topicFilter[curf] == '+' {
        ghost var start := curn;
        var nextpos := curn + 1;
        while nextpos < |topicName| && topicName[nextpos] != '/'
          invariant start <= curn < |topicName| && nextpos == curn + 1
          invariant forall i :: start <= i <= curn ==> topicName[i] != '/'
        {
          curn := curn + 1;
          nextpos := curn + 1;
        }
        StepPlus(topicFilter, curf, topicName, start, curn);
      } else if topicFilter[curf] == '#' {
        StepHash(topicFilter, curf, topicName, curn);
        curn := |topicName| - 1;
      } else {
        StepChar(topicFilter, curf, topicName, curn);
      }
      curf := curf + 1;
      curn := curn + 1;
    }
    if curf == |topicFilter| || curn == |topicName| { StepExhausted(topicFilter, curf, topicName, curn); }
    matched := curn == |topicName| && curf == |topicFilter|;
  }

  /** The equality test tried before the loop adds nothing to it. */
  lemma EqualTopicsMatch(f: string)
    requires WellFormed(Levels(f))
    ensures Matches(Levels(f), Levels(f))
  {
  }

  // ---------- section 4.7.1 of MQTT 3.1.1 ----------

  predicate StandardTakes(f: string, n: string) {
    f == "+" || n == f
  }

  /** The standard's rule: `+` is any one level, `#` the parent and any number of levels. */
  predicate StandardMatches(fs: seq<string>, ns: seq<string>) {
    var k := if EndsInHash(fs) then |fs| - 1 else |fs|;
    (if EndsInHash(fs) then |ns| >= k else |ns| == k) &&
    forall i :: 0 <= i < k ==> StandardTakes(fs[i], ns[i])
  }

  /** A wildcard facing nothing: an empty level, or for `#` the end of the name. */
  predicate WildcardFacesNothing(fs: seq<string>, ns: seq<string>) {
    (EndsInHash(fs) && |ns| < |fs|) ||
    exists i :: 0 <= i < |fs| && i < |ns| && (fs[i] == "+" || fs[i] == "#") && ns[i] == ""
  }

  /** The loop accepts what the standard accepts, except where a wildcard faces nothing. */
  lemma MatchesIsStandardMinusEmpty(fs: seq<string>, ns: seq<string>)
    requires WellFormed(fs)
    ensures Matches(fs, ns) <==> StandardMatches(fs, ns) && !WildcardFacesNothing(fs, ns)
  {
    var k := if EndsInHash(fs) then |fs| - 1 else |fs|;
    if Matches(fs, ns) {
      forall i | 0 <= i < k ensures StandardTakes(fs[i], ns[i]) {
        assert Takes(fs[i], ns[i]);
      }
      forall i | 0 <= i < |fs| && i < |ns| && (fs[i] == "+" || fs[i] == "#") ensures ns[i] != "" {
        if i < k { assert Takes(fs[i], ns[i]); }
      }
    }
    if StandardMatches(fs, ns) && !WildcardFacesNothing(fs, ns) {
      forall i | 0 <= i < k ensures Takes(fs[i], ns[i]) {
        assert StandardTakes(fs[i], ns[i]);
      }
    }
  }

  /** Two names the standard gives to the filter and the loop does not. */
  lemma StandardGap()
    ensures StandardMatches(Levels("a/#"), Levels("a")) && !Matches(Levels("a/#"), Levels("a"))
    ensures StandardMatches(Levels("a/+"), Levels("a/")) && !Matches(Levels("a/+"), Levels("a/"))
  {
    LevelsOfA();
    assert ["a", "+"][1] == "+" && ["a", ""][1] == "";
  }

  lemma LevelsOfChar(c: char)
    requires c != '/'
    ensures Levels([c]) == [[c]]
  {
    assert [c][1..] == "";
    assert [c] + "" == [c];
  }

  lemma LevelsOfA()
    ensures Levels("a") == ["a"] && Levels("a/") == ["a", ""]
    ensures Levels("a/#") == ["a", "#"] && Levels("a/+") == ["a", "+"]
  {
    assert Levels("") == [""];
    LevelsOfChar('a');
    LevelsOfChar('#');
    LevelsOfChar('+');
    assert "/"[1..] == "" && "/#"[1..] == "#" && "/+"[1..] == "+";
    assert Levels("/") == ["", ""] && Levels("/#") == ["", "#"] && Levels("/+") == ["", "+"];
    assert "a/"[1..] == "/" && "a/#"[1..] == "/#" && "a/+"[1..] == "/+";
  }

  /** A name a publisher may use: not empty, and free of wildcards. */
  predicate LegalName(n: string) {
    n != "" && '+' !in n && '#' !in n
  }

  predicate AgreesWithStandard(f: string, n: string) {
    Matches(Levels(f), Levels(n)) <==> StandardMatches(Levels(f), Levels(n))
  }

  /** A filter agrees with the standard on every legal name exactly when it has no wildcard level or
      is the single level `+`. */
  lemma StandardOnEveryName(f: string)
    requires WellFormed(Levels(f))
    ensures (forall n :: LegalName(n) ==> AgreesWithStandard(f, n)) <==>
      f == "+" || ("+" !in Levels(f) && "#" !in Levels(f))
  {
    var fs := Levels(f);
    if fs == ["+"] {
      LevelsOfTopic(f);
      SinglePlusAgrees();
    } else if EndsInHash(fs) {
      HashDisagrees(f);
    } else if i :| 0 <= i < |fs| && fs[i] == "+" {
      PlusDisagrees(f, i);
    } else {
      forall n | LegalName(n) ensures AgreesWithStandard(f, n) {
        MatchesIsStandardMinusEmpty(fs, Levels(n));
      }
    }
    assert f == "+" ==> fs == ["+"] by { LevelsOfChar('+'); }
  }

  /** Cutting undoes joining. */
  lemma {:induction false} LevelsOfJoin(ls: seq<string>)
    requires |ls| > 0 && forall l :: l in ls ==> '/' !in l
    ensures Levels(Join(ls)) == ls
  {
    if |ls| == 1 {
      LevelsOfLevel(ls[0], "");
      assert ls[0] + "" == ls[0];
      assert Levels("") == [""];
      assert ls == [ls[0]];
    } else {
      LevelsOfJoin(ls[1..]);
      var rest := "/" + Join(ls[1..]);
      assert rest[1..] == Join(ls[1..]);
      assert Levels(rest) == [""] + ls[1..];
      LevelsOfLevel(ls[0], rest);
      assert Join(ls) == ls[0] + rest && ls[0] + "" == ls[0];
      assert ls == [ls[0]] + ls[1..];
    }
  }

  /** A text without separators is put in front of the first level. */
  lemma {:induction false} LevelsOfLevel(l: string, rest: string)
    requires '/' !in l
    ensures Levels(l + rest) == [l + Levels(rest)[0]] + Levels(rest)[1..]
  {
    if l == "" {
      assert l + rest == rest && l + Levels(rest)[0] == Levels(rest)[0];
      assert [Levels(rest)[0]] + Levels(rest)[1..] == Levels(rest);
    } else {
      assert (l + rest)[1..] == l[1..] + rest;
      LevelsOfLevel(l[1..], rest);
      var behind := Levels(l[1..] + rest);
      assert (l + rest)[0] == l[0] && l[0] in l;
      assert Levels(l + rest) == [[l[0]] + behind[0]] + behind[1..];
      assert [l[0]] + (l[1..] + Levels(rest)[0]) == l + Levels(rest)[0];
    }
  }

  lemma {:induction false} JoinIsLegal(ls: seq<string>)
    requires |ls| > 0 && forall l :: l in ls ==> '+' !in l && '#' !in l
    ensures '+' !in Join(ls) && '#' !in Join(ls) && (|ls| > 1 ==> Join(ls) != "")
  {
    if |ls| > 1 { JoinIsLegal(ls[1..]); }
  }

  /** The filter's levels with every `+` filled in. */
  function Filled(fs: seq<string>): (ns: seq<string>)
    ensures |ns| == |fs|
    ensures forall i :: 0 <= i < |fs| ==> ns[i] == if fs[i] == "+" then "a" else fs[i]
  {
    seq(|fs|, i requires 0 <= i < |fs| => if fs[i] == "+" then "a" else fs[i])
  }

  /** Levels that hold neither wildcards nor separators are those of a legal name. */
  lemma NameOfLevels(ns: seq<string>)
    requires |ns| > 1 && forall l :: l in ns ==> '/' !in l && '+' !in l && '#' !in l
    ensures LegalName(Join(ns)) && Levels(Join(ns)) == ns
  {
    LevelsOfJoin(ns);
    JoinIsLegal(ns);
  }

  lemma FilledIsPlain(f: string, k: nat)
    requires WellFormed(Levels(f)) && k <= |Levels(f)|
    requires k < |Levels(f)| || !EndsInHash(Levels(f))
    ensures forall l :: l in Filled(Levels(f)[..k]) ==> '/' !in l && '+' !in l && '#' !in l
  {
    var fs := Levels(f)[..k];
    LevelsOfTopic(f);
    forall l | l in Filled(fs) ensures '/' !in l && '+' !in l && '#' !in l {
      var j :| 0 <= j < k && Filled(fs)[j] == l;
      assert fs[j] == Levels(f)[j] && Levels(f)[j] in Levels(f);
    }
  }

  /** `+` facing an empty level. */
  lemma PlusDisagrees(f: string, i: nat)
    requires WellFormed(Levels(f)) && !EndsInHash(Levels(f)) && |Levels(f)| > 1
    requires i < |Levels(f)| && Levels(f)[i] == "+"
    ensures exists n :: LegalName(n) && !AgreesWithStandard(f, n)
  {
    var fs := Levels(f);
    var ns := Filled(fs)[i := ""];
    FilledIsPlain(f, |fs|);
    assert fs[..|fs|] == fs;
    assert forall l :: l in ns ==> l == "" || l in Filled(fs);
    NameOfLevels(ns);
    EmptyFaced(fs, ns, i);
    assert !AgreesWithStandard(f, Join(ns));
  }

  /** A name that the standard gives to the filter, with a wildcard facing an empty level. */
  lemma EmptyFaced(fs: seq<string>, ns: seq<string>, i: nat)
    requires WellFormed(fs) && i < |fs| && i < |ns| && (fs[i] == "+" || fs[i] == "#") && ns[i] == ""
    requires if EndsInHash(fs) then |ns| >= |fs| else |ns| == |fs|
    requires forall j :: 0 <= j < |fs| && fs[j] != "#" ==> fs[j] == "+" || ns[j] == fs[j]
    ensures StandardMatches(fs, ns) && !Matches(fs, ns)
  {
    MatchesIsStandardMinusEmpty(fs, ns);
  }

  /** `#` facing an empty level. */
  lemma HashDisagrees(f: string)
    requires WellFormed(Levels(f)) && EndsInHash(Levels(f))
    ensures exists n :: LegalName(n) && !AgreesWithStandard(f, n)
  {
    var fs := Levels(f);
    var k := |fs| - 1;
    var ns := Filled(fs[..k]) + ["", ""];
    FilledIsPlain(f, k);
    NameOfLevels(ns);
    EmptyFaced(fs, ns, k);
    assert !AgreesWithStandard(f, Join(ns));
  }

  lemma SinglePlusAgrees()
    ensures Levels("+") == ["+"]
    ensures forall n :: LegalName(n) ==> AgreesWithStandard("+", n)
  {
    LevelsOfChar('+');
    forall n | LegalName(n) ensures AgreesWithStandard("+", n) {
      LevelsEmpty(n);
      MatchesIsStandardMinusEmpty(["+"], Levels(n));
      assert |Levels(n)| == 1 ==> Levels(n) == [Levels(n)[0]];
    }
  }
}
