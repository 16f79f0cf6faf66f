/** Tagged text as a list of items, and where a tag search finds them. */
module XmlItems {
  import opened Wrappers
  import opened StringSearch
  import opened Collections

  /** An opening tag with the text behind it, or a closing tag. */
  datatype Item = Open(name: string, text: string) | Close(name: string)

  function Render(item: Item): (s: string)
    ensures s != "" && s[0] == '<'
  {
    match item
    case Open(name, text) => "<" + name + ">" + text
    case Close(name) => "</" + name + ">"
  }

  function RenderAll(items: seq<Item>): string {
    if items == [] then "" else Render(items[0]) + RenderAll(items[1..])
  }

  /** A name that cannot be confused with other markup. */
  predicate TagName(n: string) {
    n != "" && n[0] != '/' && '<' !in n && '>' !in n
  }

  predicate Plain(item: Item) {
    TagName(item.name) && (item.Open? ==> '<' !in item.text)
  }

  predicate AllPlain(items: seq<Item>) {
    forall item :: item in items ==> Plain(item)
  }

  lemma {:induction false} RenderAppend(a: seq<Item>, b: seq<Item>)
    ensures RenderAll(a + b) == RenderAll(a) + RenderAll(b)
  {
    if a == [] {
      assert a + b == b;
    } else {
      assert (a + b)[1..] == a[1..] + b;
      RenderAppend(a[1..], b);
      Assoc(Render(a[0]), RenderAll(a[1..]), RenderAll(b));
    }
  }

  lemma RenderPlain(item: Item)
    requires Plain(item)
    ensures '<' !in Render(item)[1..]
  {
    match item
    case Open(name, text) => assert Render(item)[1..] == name + ">" + text;
    case Close(name) => assert Render(item)[1..] == "/" + name + ">";
  }

  // ---------- which item a tag is the start of ----------

  function Tag(name: string, closing: bool): string {
    (if closing then "</" else "<") + name + ">"
  }

  predicate IsTagOf(item: Item, name: string, closing: bool) {
    item.name == name && item.Close? == closing
  }

  lemma NamePrefix(a: string, b: string, rest: string)
    requires '>' !in a && '>' !in b
    ensures a + ">" <= b + ">" + rest <==> a == b
  {
    var s := b + ">" + rest;
    assert forall i :: 0 <= i < |a| ==> a[i] in a;
    assert forall i :: 0 <= i < |b| ==> b[i] in b;
    if a + ">" <= s {
      assert s[|b|] == '>' && s[|a|] == (a + ">")[|a|] == '>';
      assert s[..|a|] == (a + ">")[..|a|] == a;
      assert s[..|b|] == b;
      assert forall i :: 0 <= i < |a| ==> s[i] == a[i];
      assert forall i :: 0 <= i < |b| ==> s[i] == b[i];
    }
  }

  /** A whole tag is the start of exactly the items it is the tag of. */
  lemma TagStarts(item: Item, name: string, closing: bool)
    requires Plain(item) && TagName(name)
    ensures Tag(name, closing) <= Render(item) <==> IsTagOf(item, name, closing)
  {
    var t, s := Tag(name, closing), Render(item);
    var body := if item.Open? then item.text else "";
    NamePrefix(name, item.name, body);
    var inner, outer := name + ">", item.name + ">" + body;
    if item.Close? == closing {
      var lead := if closing then "</" else "<";
      assert t == lead + inner && s == lead + outer;
      if t <= s { assert s[|lead|..] == outer && t[|lead|..] == inner; assert s[|lead|..|t|] == inner; }
    } else {
      assert t[1] == (if closing then '/' else name[0]);
      assert s[1] == (if closing then item.name[0] else '/');
    }
  }

  // ---------- searching ----------

  predicate StartsWith(item: Item, t: string) {
    t <= Render(item)
  }

  /** Item k is the first that starts with `t`. */
  predicate FirstWith(items: seq<Item>, t: string, k: int) {
    0 <= k < |items| && StartsWith(items[k], t) && forall i :: 0 <= i < k ==> !StartsWith(items[i], t)
  }

  lemma OccursShift(head: string, rest: string, t: string, i: int)
    ensures i >= |head| ==> (OccursAt(head + rest, t, i) <==> OccursAt(rest, t, i - |head|))
  {
    if |head| <= i && i + |t| <= |head + rest| {
      assert (head + rest)[i..i + |t|] == rest[i - |head|..i - |head| + |t|];
    }
  }

  /** No occurrence begins inside the head. */
  lemma FindPast(head: string, rest: string, t: string)
    requires NoneBefore(head + rest, t, |head|)
    ensures Find(head + rest, t) ==
      if Find(rest, t).None? then None else Some(|head| + Find(rest, t).value)
  {
    FindMeans(rest, t);
    var q := Find(rest, t);
    var n := if q.Some? then |head| + q.value else |head + rest| + 1;
    forall i | 0 <= i < n ensures !OccursAt(head + rest, t, i) {
      OccursShift(head, rest, t, i);
    }
    if q.Some? {
      OccursShift(head, rest, t, n);
      FindIs(head + rest, t, n);
    } else {
      FindNone(head + rest, t);
    }
  }

  /** A text that opens with `<` and has no other begins only where an item begins. */
  lemma OneItemSearch(item: Item, rest: string, t: string)
    requires Plain(item) && TagLike(t) && (rest == "" || rest[0] == '<')
    ensures !(t <= Render(item)) ==> NoneBefore(Render(item) + rest, t, |Render(item)|)
  {
    var head := Render(item);
    var s := head + rest;
    RenderPlain(item);
    if !(t <= head) {
      forall i | 0 <= i < |head| ensures !OccursAt(s, t, i) {
        if i > 0 {
          assert s[i] == head[1..][i - 1];
          OccursAtHead(s, t, i);
        } else if |t| > |head| && |head| < |s| {
          assert s[|head|] == '<';
          assert t[|head|] == t[1..][|head| - 1];
        }
      }
    }
  }

  /** Text that can only be found where an item begins. */
  predicate TagLike(t: string) {
    |t| > 1 && t[0] == '<' && '<' !in t[1..]
  }

  predicate NoneStarts(items: seq<Item>, t: string) {
    forall i {:trigger StartsWith(items[i], t)} :: 0 <= i < |items| ==> !StartsWith(items[i], t)
  }

  /** A tag search runs past items that do not start with the tag, to a text that does. */
  lemma {:induction false} FindText(items: seq<Item>, tail: string, t: string)
    requires AllPlain(items) && TagLike(t) && NoneStarts(items, t) && t <= tail
    ensures Find(RenderAll(items) + tail, t) == Some(|RenderAll(items)|)
  {
    if items == [] {
      FindAtOnce(tail, t);
      assert "" + tail == tail;
    } else {
      Tails(items, t);
      FindText(items[1..], tail, t);
      FindPastItem(items[0], RenderAll(items[1..]), tail, t);
    }
  }

  lemma Tails(items: seq<Item>, t: string)
    requires AllPlain(items) && NoneStarts(items, t) && items != []
    ensures Plain(items[0]) && !StartsWith(items[0], t) && AllPlain(items[1..]) && NoneStarts(items[1..], t)
    ensures RenderAll(items[1..]) != "" ==> RenderAll(items[1..])[0] == '<'
  {
    assert forall i :: 0 <= i < |items[1..]| ==> items[1..][i] == items[i + 1];
  }

  lemma FindAtOnce(tail: string, t: string)
    requires t <= tail
    ensures Find(tail, t) == Some(0)
  {
    assert tail[0..|t|] == t;
    FindIs(tail, t, 0);
  }

  lemma FindPastItem(item: Item, middle: string, tail: string, t: string)
    requires Plain(item) && TagLike(t) && !StartsWith(item, t) && t <= tail
    requires middle != "" ==> middle[0] == '<'
    requires Find(middle + tail, t) == Some(|middle|)
    ensures Find(Render(item) + middle + tail, t) == Some(|Render(item) + middle|)
  {
    var rest := middle + tail;
    OneItemSearch(item, rest, t);
    FindPast(Render(item), rest, t);
    Assoc(Render(item), middle, tail);
  }

  /** The tag search of rendered items stops at the first item that starts with the tag. */
  lemma FindItem(items: seq<Item>, t: string, k: nat)
    requires AllPlain(items) && TagLike(t) && FirstWith(items, t, k)
    ensures Find(RenderAll(items), t) == Some(|RenderAll(items[..k])|)
  {
    var before, after := items[..k], items[k..];
    assert items == before + after;
    RenderAppend(before, after);
    HeadOf(after, t);
    assert AllPlain(before) && NoneStarts(before, t);
    FindText(before, RenderAll(after), t);
  }

  /** With no item that starts with the tag, there is nothing to find. */
  lemma {:induction false} FindNoItem(items: seq<Item>, t: string)
    requires AllPlain(items) && TagLike(t) && NoneStarts(items, t)
    ensures Find(RenderAll(items), t) == None
  {
    if items == [] {
      FindNone("", t);
    } else {
      Tails(items, t);
      FindNoItem(items[1..], t);
      OneItemSearch(items[0], RenderAll(items[1..]), t);
      FindPast(Render(items[0]), RenderAll(items[1..]), t);
    }
  }

  lemma {:induction false} FirstStart(items: seq<Item>, t: string, k: nat) returns (j: nat)
    requires k < |items| && StartsWith(items[k], t)
    ensures j <= k && FirstWith(items, t, j)
  {
    if StartsWith(items[0], t) {
      j := 0;
    } else {
      var i := FirstStart(items[1..], t, k - 1);
      j := i + 1;
      assert forall n :: 0 < n < |items| ==> items[n] == items[1..][n - 1];
    }
  }

  lemma HeadOf(items: seq<Item>, t: string)
    requires items != [] && StartsWith(items[0], t)
    ensures t <= RenderAll(items)
  {
  }
}
