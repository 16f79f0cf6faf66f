/** The agent's tag-search parser. */
module XmlParser {
  import opened Wrappers
  import opened StringSearch
  import opened XmlItems

  const TAG_BUFFER := 10

  /** What snprintf leaves in a buffer of the given size. */
  function Snprintf(size: nat, s: string): (r: string)
    requires size > 0
    ensures r <= s && |r| < size
  {
    if |s| < size then s else s[..size - 1]
  }

  /** The tag as it fits the parser's ten-byte buffers. */
  function Cut(name: string, closing: bool): string {
    Snprintf(TAG_BUFFER, Tag(name, closing))
  }

  const PC_TAG := "<pc>"

  /** The part of the payload that is searched. */
  ghost function Region(payload: string, isPC: bool): string
    requires isPC ==> Find(payload, PC_TAG).Some?
  {
    if isPC then payload[Find(payload, PC_TAG).value..] else payload
  }

  /** From behind the first opening tag up to the first closing tag. */
  ghost function Between(region: string, name: string): Option<string> {
    var s, e := Find(region, Cut(name, false)), Find(region, Cut(name, true));
    if s.Some? && e.Some? && s.value + |Cut(name, false)| <= e.value
    then Some(region[s.value + |Cut(name, false)|..e.value])
    else None
  }

  /** SimpleXmlParser. Without the closing tag nothing is copied; with it, the opening tag has to be
      there, in front of it, and the value has to fit. Returns the number of characters copied. */
  method SimpleXmlParser(payload: string, name: string, isPC: bool, value: array<char>) returns (copied: nat)
    requires isPC ==> Find(payload, PC_TAG).Some?
    requires Find(Region(payload, isPC), Cut(name, true)).Some? ==>
      Between(Region(payload, isPC), name).Some? && |Between(Region(payload, isPC), name).value| <= value.Length
    modifies value
    ensures Find(Region(payload, isPC), Cut(name, true)).None? ==> copied == 0
    ensures Find(Region(payload, isPC), Cut(name, true)).Some? ==>
      copied <= value.Length && Some(value[..copied]) == Between(Region(payload, isPC), name)
    ensures value[copied..] == old(value[copied..])
  {
    var pl := payload;
    if isPC {
      var pc := StrStr(payload, PC_TAG);
      pl := payload[pc.value..];
    }
    var start, end := Cut(name, false), Cut(name, true);
    var s := StrStr(pl, start);
    var e := StrStr(pl, end);
    copied := 0;
    if e.Some? {
      var from := s.value + |start|;
      while copied < e.value - from
        invariant 0 <= copied <= e.value - from
        invariant forall i :: 0 <= i < copied ==> value[i] == pl[from + i]
        invariant forall i :: copied <= i < value.Length ==> value[i] == old(value[i])
      {
        value[copied] := pl[from + copied];
        copied := copied + 1;
      }
      assert value[..copied] == pl[from..e.value];
    }
  }

  // ---------- searching rendered items ----------

  /** Whether the tag of a name, as the buffer cut it, begins a tag of another name: opening tags keep
      eight characters of a name that is too long for them, closing tags seven. */
  predicate Confused(name: string, other: string, closing: bool) {
    var room := if closing then TAG_BUFFER - 3 else TAG_BUFFER - 2;
    if |name| < room then other == name else name[..room] <= other
  }

  lemma CutStarts(item: Item, name: string, closing: bool)
    requires Plain(item) && TagName(name)
    ensures StartsWith(item, Cut(name, closing)) <==> item.Close? == closing && Confused(name, item.name, closing)
  {
    var room := if closing then TAG_BUFFER - 3 else TAG_BUFFER - 2;
    var t, s := Cut(name, closing), Render(item);
    if |name| < room {
      TagStarts(item, name, closing);
    } else {
      var lead, start := if closing then "</" else "<", name[..room];
      assert t == lead + start;
      if item.Close? == closing {
        var body := if item.Open? then item.text else "";
        assert s == lead + (item.name + ">" + body);
        StartOfName(lead, start, item.name, body);
      } else {
        assert t[1] == (if closing then '/' else name[0]);
        assert s[1] == (if closing then item.name[0] else '/');
      }
    }
  }

  lemma StartOfName(lead: string, start: string, name: string, rest: string)
    requires '>' !in start && '>' !in name
    ensures lead + start <= lead + (name + ">" + rest) <==> start <= name
  {
    var s := name + ">" + rest;
    assert forall i :: 0 <= i < |start| ==> start[i] in start;
    if start <= name { assert s[..|start|] == start; }
    if lead + start <= lead + s {
      assert (lead + s)[|lead|..|lead| + |start|] == start;
      assert s[..|start|] == start;
      assert s[|name|] == '>' && forall i :: 0 <= i < |start| ==> s[i] == start[i];
      assert |start| <= |name|;
      assert s[..|start|] == name[..|start|];
    }
  }

  /** What the search finds in any marked-up text, for any name: all that lies between the first
      opening tag and the first closing tag that begin like the ones looked for. */
  lemma SearchItems(items: seq<Item>, name: string, o: nat, c: nat)
    requires AllPlain(items) && TagName(name)
    requires FirstWith(items, Cut(name, false), o) && FirstWith(items, Cut(name, true), c)
    ensures Between(RenderAll(items), name) ==
      if o < c then Some(RenderAll(items[o..c])[|Cut(name, false)|..]) else None
    ensures o < c ==> Cut(name, false) <= RenderAll(items[o..c])
  {
    if o < c {
      SearchForward(items, name, o, c);
    } else {
      SearchBackward(items, name, o, c);
    }
  }

  lemma SearchForward(items: seq<Item>, name: string, o: nat, c: nat)
    requires AllPlain(items) && TagName(name) && o < c
    requires FirstWith(items, Cut(name, false), o) && FirstWith(items, Cut(name, true), c)
    ensures Cut(name, false) <= RenderAll(items[o..c])
    ensures Between(RenderAll(items), name) == Some(RenderAll(items[o..c])[|Cut(name, false)|..])
  {
    FindCut(items, name, false, o);
    FindCut(items, name, true, c);
    RenderSplit(items, o, c);
    HeadOfSlice(items, o, c, Cut(name, false));
    BetweenFound(RenderAll(items), name, RenderAll(items[..o]), RenderAll(items[o..c]), RenderAll(items[c..]));
  }

  lemma HeadOfSlice(items: seq<Item>, o: nat, c: nat, t: string)
    requires o < c <= |items| && StartsWith(items[o], t)
    ensures t <= RenderAll(items[o..c])
  {
    assert items[o..c][0] == items[o];
    HeadOf(items[o..c], t);
  }

  lemma SearchBackward(items: seq<Item>, name: string, o: nat, c: nat)
    requires AllPlain(items) && TagName(name) && c <= o
    requires FirstWith(items, Cut(name, false), o) && FirstWith(items, Cut(name, true), c)
    ensures Between(RenderAll(items), name) == None
  {
    FindCut(items, name, false, o);
    FindCut(items, name, true, c);
    RenderSplit(items, c, o);
  }

  lemma RenderSplit(items: seq<Item>, i: nat, j: nat)
    requires i <= j <= |items|
    ensures RenderAll(items) == RenderAll(items[..i]) + RenderAll(items[i..j]) + RenderAll(items[j..])
    ensures RenderAll(items[..j]) == RenderAll(items[..i]) + RenderAll(items[i..j])
  {
    SplitAt(items, i, j);
    RenderMiddle(items[..i], items[i..j], items[j..]);
    RenderAppend(items[..i], items[i..j]);
  }

  lemma FindCut(items: seq<Item>, name: string, closing: bool, k: nat)
    requires AllPlain(items) && TagName(name) && FirstWith(items, Cut(name, closing), k)
    ensures Find(RenderAll(items), Cut(name, closing)) == Some(|RenderAll(items[..k])|)
  {
    CutIsTagLike(name, closing);
    FindItem(items, Cut(name, closing), k);
  }

  lemma CutIsTagLike(name: string, closing: bool)
    requires TagName(name)
    ensures TagLike(Cut(name, closing))
  {
    var t := Tag(name, closing);
    assert t[1..] == (if closing then "/" else "") + name + ">";
    assert forall i :: 1 <= i < |t| ==> t[i] == t[1..][i - 1];
  }

  lemma BetweenFound(region: string, name: string, a: string, b: string, c: string)
    requires region == a + b + c && Cut(name, false) <= b
    requires Find(region, Cut(name, false)) == Some(|a|) && Find(region, Cut(name, true)) == Some(|a + b|)
    ensures Between(region, name) == Some(b[|Cut(name, false)|..])
  {
    SliceOfMiddle(a, b, c, |Cut(name, false)|);
  }

  lemma SliceOfMiddle(a: string, b: string, c: string, n: nat)
    requires n <= |b|
    ensures (a + b + c)[|a| + n..|a + b|] == b[n..]
  {
  }

  lemma SplitAt<T>(s: seq<T>, i: nat, j: nat)
    requires i <= j <= |s|
    ensures s == s[..i] + s[i..j] + s[j..] && s[..j] == s[..i] + s[i..j]
  {
  }

  lemma RenderMiddle(a: seq<Item>, b: seq<Item>, c: seq<Item>)
    ensures RenderAll(a + b + c) == RenderAll(a) + RenderAll(b) + RenderAll(c)
  {
    RenderAppend(a + b, c);
    RenderAppend(a, b);
  }

  lemma RenderOne(item: Item)
    ensures RenderAll([item]) == Render(item)
  {
    assert [item][1..] == [];
  }

  /** Item k opens the name, item k + 1 closes it, and no item before opens it. */
  predicate FirstElement(items: seq<Item>, name: string, k: int) {
    0 <= k < |items| - 1 && items[k].Open? && items[k].name == name && items[k + 1] == Close(name) &&
    forall i :: 0 <= i < k && items[i].Open? ==> items[i].name != name
  }

  /** Some item before k closes a name that the closing tag looked for is confused with. */
  predicate ClosedBefore(items: seq<Item>, name: string, k: int) {
    exists i :: 0 <= i < k <= |items| && items[i].Close? && Confused(name, items[i].name, true)
  }

  /** A name of at most seven characters: the value of its first element comes back whole exactly
      when no closing tag before it is confused with the one looked for. Up to six characters that is
      a closing tag of the same name, with seven one of any name that begins with it. */
  lemma ShortNameComesBack(items: seq<Item>, name: string, k: nat)
    requires AllPlain(items) && TagName(name) && |name| <= 7 && FirstElement(items, name, k)
    ensures ClosedBefore(items, name, k) ==> Between(RenderAll(items), name) == None
    ensures !ClosedBefore(items, name, k) ==> Between(RenderAll(items), name) == Some(items[k].text)
  {
    FirstCuts(items, name, k);
    FirstOpening(items, name, k);
    var c := FirstStart(items, Cut(name, true), k + 1);
    SearchItems(items, name, k, c);
    FirstClosing(items, name, k, c);
    if c == k + 1 {
      RenderSlice(items, k);
      assert Render(items[k]) == Cut(name, false) + items[k].text;
    }
  }

  /** Both tags of an element start with the cut tags looked for. */
  lemma FirstCuts(items: seq<Item>, name: string, k: nat)
    requires AllPlain(items) && TagName(name) && FirstElement(items, name, k)
    ensures StartsWith(items[k], Cut(name, false)) && StartsWith(items[k + 1], Cut(name, true))
  {
    assert Plain(items[k]) && Plain(items[k + 1]);
    CutStarts(items[k], name, false);
    CutStarts(items[k + 1], name, true);
  }

  lemma FirstOpening(items: seq<Item>, name: string, k: nat)
    requires AllPlain(items) && TagName(name) && |name| <= 7 && FirstElement(items, name, k)
    ensures FirstWith(items, Cut(name, false), k)
  {
    FirstCuts(items, name, k);
    forall i | 0 <= i < k ensures !StartsWith(items[i], Cut(name, false)) {
      assert Plain(items[i]);
      CutStarts(items[i], name, false);
    }
  }

  lemma FirstClosing(items: seq<Item>, name: string, k: nat, c: nat)
    requires AllPlain(items) && TagName(name) && k + 1 < |items| && items[k].Open? && c <= k + 1
    requires FirstWith(items, Cut(name, true), c)
    ensures if ClosedBefore(items, name, k) then c < k else c == k + 1
  {
    assert forall i :: 0 <= i < |items| ==> Plain(items[i]);
    forall i | 0 <= i <= c
      ensures StartsWith(items[i], Cut(name, true)) <==> items[i].Close? && Confused(name, items[i].name, true)
    {
      CutStarts(items[i], name, true);
    }
    if ClosedBefore(items, name, k) {
      var i :| 0 <= i < k && items[i].Close? && Confused(name, items[i].name, true);
      CutStarts(items[i], name, true);
    }
  }

  /** From eight characters on: whatever is found begins with the rest of a tag that begins like the
      one looked for, so a value without `>` never comes back whole. */
  lemma LongNamesSpoilTheValue(items: seq<Item>, name: string, k: nat) returns (o: nat)
    requires AllPlain(items) && TagName(name) && |name| >= 8 && FirstElement(items, name, k)
    ensures o <= k && items[o].Open? && name[..8] <= items[o].name
    ensures var found := Between(RenderAll(items), name);
      found.Some? ==> items[o].name[8..] + ">" <= found.value && '>' in found.value
    ensures '>' !in items[k].text ==> Between(RenderAll(items), name) != Some(items[k].text)
  {
    FirstCuts(items, name, k);
    o := FirstStart(items, Cut(name, false), k);
    var c := FirstStart(items, Cut(name, true), k + 1);
    SearchItems(items, name, o, c);
    assert Plain(items[o]);
    CutStarts(items[o], name, false);
    if o < c { RestOfTag(items, name, o, c); }
  }

  lemma RestOfTag(items: seq<Item>, name: string, o: nat, c: nat)
    requires |name| >= 8 && o < c <= |items| && items[o].Open? && name[..8] <= items[o].name
    ensures |RenderAll(items[o..c])| >= 9
    ensures var found := RenderAll(items[o..c])[9..];
      items[o].name[8..] + ">" <= found && '>' in found
  {
    var rest := items[o].name[8..] + ">";
    var behind := items[o].text + RenderAll(items[o..c][1..]);
    assert RenderAll(items[o..c]) == "<" + name[..8] + (rest + behind) by {
      assert items[o].name == name[..8] + items[o].name[8..];
    }
    assert RenderAll(items[o..c])[9..] == rest + behind;
    assert (rest + behind)[|rest| - 1] == '>';
  }

  /** With no tag before it that begins like its own, the value is found behind the cut-off rest of
      its opening tag. */
  lemma LongNameKeepsItsRest(items: seq<Item>, name: string, k: nat)
    requires AllPlain(items) && TagName(name) && |name| >= 8 && FirstElement(items, name, k)
    requires forall i :: 0 <= i < k ==> !(name[..7] <= items[i].name)
    ensures Between(RenderAll(items), name) == Some(name[8..] + ">" + items[k].text)
  {
    FoundBehind(items, name, k);
  }

  lemma BehindCutTag(item: Item)
    requires item.Open? && |item.name| >= 8
    ensures |Render(item)| >= 9 && Render(item)[9..] == item.name[8..] + ">" + item.text
  {
    assert item.name == item.name[..8] + item.name[8..];
    assert Render(item) == "<" + item.name[..8] + (item.name[8..] + ">" + item.text);
  }

  /** A name of seven characters that fails: an earlier name begins with it. */
  lemma SevenCharactersFail()
    ensures var items := [Open("abcdefgh", "1"), Close("abcdefgh"), Open("abcdefg", "2"), Close("abcdefg")];
      AllPlain(items) && FirstElement(items, "abcdefg", 2) && Between(RenderAll(items), "abcdefg") == None
  {
    var items := [Open("abcdefgh", "1"), Close("abcdefgh"), Open("abcdefg", "2"), Close("abcdefg")];
    assert "abcdefgh"[..7] == "abcdefg" && "abcdefg"[..7] == "abcdefg";
    assert |items[0].name| != |"abcdefg"|;
    assert Confused("abcdefg", items[1].name, true);
    ShortNameComesBack(items, "abcdefg", 2);
  }

  /** A value of a long name that does come back whole, by coincidence: it repeats the rest of an
      earlier tag and the text behind that. */
  lemma WholeByCoincidence(name: string, extra: string, text: string)
    requires TagName(name) && |name| == 8 && extra != "" && '<' !in extra && '>' !in extra && '<' !in text
    ensures var value := extra + ">" + text;
      var items := [Open(name + extra, text), Close(name), Open(name, value), Close(name)];
      AllPlain(items) && FirstElement(items, name, 2) && Between(RenderAll(items), name) == Some(value)
  {
    var longer, value := name + extra, extra + ">" + text;
    var items := [Open(longer, text), Close(name), Open(name, value), Close(name)];
    assert longer[0] == name[0] && |longer| != |name|;
    assert longer[..8] == name && longer[8..] == extra && name[..8] == name;
    assert Plain(items[0]) && Plain(items[1]) && Plain(items[2]);
    FoundBehind(items, name, 0);
  }

  lemma FirstBehind(items: seq<Item>, name: string, k: nat)
    requires AllPlain(items) && TagName(name) && |name| >= 8 && k + 1 < |items| && items[k].Open?
    requires name[..8] <= items[k].name && items[k + 1].Close? && name[..7] <= items[k + 1].name
    requires forall i :: 0 <= i < k ==> !(name[..7] <= items[i].name)
    ensures FirstWith(items, Cut(name, false), k) && FirstWith(items, Cut(name, true), k + 1)
  {
    forall i | 0 <= i <= k + 1
      ensures i <= k ==> (StartsWith(items[i], Cut(name, false)) <==> i == k)
      ensures StartsWith(items[i], Cut(name, true)) <==> i == k + 1
    {
      assert Plain(items[i]);
      CutStarts(items[i], name, false);
      CutStarts(items[i], name, true);
      assert name[..8] <= items[i].name ==> name[..7] <= items[i].name;
    }
  }

  /** The search stopping at an item and the one behind it. */
  lemma FoundBehind(items: seq<Item>, name: string, k: nat)
    requires AllPlain(items) && TagName(name) && |name| >= 8 && k + 1 < |items| && items[k].Open?
    requires name[..8] <= items[k].name && items[k + 1].Close? && name[..7] <= items[k + 1].name
    requires forall i :: 0 <= i < k ==> !(name[..7] <= items[i].name)
    ensures Between(RenderAll(items), name) == Some(items[k].name[8..] + ">" + items[k].text)
  {
    FirstBehind(items, name, k);
    FoundInside(items, name, k);
  }

  lemma FoundInside(items: seq<Item>, name: string, k: nat)
    requires AllPlain(items) && TagName(name) && |name| >= 8 && k + 1 < |items| && items[k].Open? && |items[k].name| >= 8
    requires FirstWith(items, Cut(name, false), k) && FirstWith(items, Cut(name, true), k + 1)
    ensures Between(RenderAll(items), name) == Some(items[k].name[8..] + ">" + items[k].text)
  {
    SearchForward(items, name, k, k + 1);
    RenderSlice(items, k);
    CutLength(name);
    BehindCutTag(items[k]);
  }

  lemma CutLength(name: string)
    requires |name| >= 8
    ensures |Cut(name, false)| == 9
  {
  }

  lemma RenderSlice(items: seq<Item>, k: nat)
    requires k < |items|
    ensures RenderAll(items[k..k + 1]) == Render(items[k])
  {
    assert items[k..k + 1] == [items[k]];
    RenderOne(items[k]);
  }

  // ---------- attribute lists ----------

  /** An attribute; a null value is not printed. */
  datatype Attribute = Attribute(name: string, value: Option<string>)

  function ElementItems(attrs: seq<Attribute>): seq<Item> {
    if attrs == [] then []
    else
      var a := attrs[0];
      (if a.value.Some? then [Open(a.name, a.value.value), Close(a.name)] else []) + ElementItems(attrs[1..])
  }

  /** The first value an attribute list gives to a name. */
  function Lookup(attrs: seq<Attribute>, name: string): Option<string> {
    if attrs == [] then None
    else if attrs[0].name == name && attrs[0].value.Some? then attrs[0].value
    else Lookup(attrs[1..], name)
  }

  predicate NoTag(items: seq<Item>, name: string) {
    forall item :: item in items ==> item.name != name
  }

  /** Among elements that follow items of other names, the search returns the first value. */
  lemma {:induction false} BetweenElements(before: seq<Item>, attrs: seq<Attribute>, after: seq<Item>, name: string)
    requires AllPlain(before + ElementItems(attrs) + after)
    requires TagName(name) && |name| <= 6 && NoTag(before, name) && Lookup(attrs, name).Some?
    ensures Between(RenderAll(before + ElementItems(attrs) + after), name) == Lookup(attrs, name)
    decreases |attrs|
  {
    var items, a := before + ElementItems(attrs) + after, attrs[0];
    if a.value.None? {
      assert ElementItems(attrs) == ElementItems(attrs[1..]);
      BetweenElements(before, attrs[1..], after, name);
    } else {
      var pair := [Open(a.name, a.value.value), Close(a.name)];
      var rest := ElementItems(attrs[1..]);
      assert items == (before + pair) + rest + after;
      if a.name != name {
        BetweenElements(before + pair, attrs[1..], after, name);
      } else {
        assert items[..|before|] == before && items[|before|] == pair[0] && items[|before| + 1] == pair[1];
        BetweenFirst(items, name, |before|);
      }
    }
  }

  lemma BetweenFirst(items: seq<Item>, name: string, k: nat)
    requires AllPlain(items) && TagName(name) && |name| <= 6 && k + 1 < |items|
    requires items[k].Open? && items[k].name == name && items[k + 1] == Close(name) && NoTag(items[..k], name)
    ensures Between(RenderAll(items), name) == Some(items[k].text)
  {
    forall i | 0 <= i < k ensures items[i].name != name {
      assert items[..k][i].name != name;
    }
    ShortNameComesBack(items, name, k);
  }

  /** A short name that no item has is not found; nothing is copied then. */
  lemma NothingToFind(items: seq<Item>, name: string)
    requires AllPlain(items) && TagName(name) && |name| <= 6 && NoTag(items, name)
    ensures Find(RenderAll(items), Cut(name, true)) == None && Between(RenderAll(items), name) == None
  {
    forall i | 0 <= i < |items| ensures !StartsWith(items[i], Cut(name, true)) {
      assert Plain(items[i]);
      CutStarts(items[i], name, true);
    }
    CutIsTagLike(name, true);
    FindNoItem(items, Cut(name, true));
  }

  /** Searching from the first `pc` tag on. */
  lemma RegionOfItems(before: seq<Item>, after: seq<Item>)
    requires AllPlain(before + after) && NoTag(before, "pc") && after != [] && after[0] == Open("pc", "")
    ensures Find(RenderAll(before + after), PC_TAG).Some?
    ensures Region(RenderAll(before + after), true) == RenderAll(after)
  {
    var items := before + after;
    forall i | 0 <= i <= |before| ensures StartsWith(items[i], PC_TAG) <==> i == |before| {
      assert Plain(items[i]);
      TagStarts(items[i], "pc", false);
      assert i < |before| ==> before[i].name != "pc";
    }
    FindItem(items, PC_TAG, |before|);
    PrefixOf(before, after);
    RenderAppend(before, after);
  }

  lemma PrefixOf(a: seq<Item>, b: seq<Item>)
    ensures (a + b)[..|a|] == a
  {
  }
}
