/** What the agent's parser finds in a printed request: the first value of the name asked for. */
module XmlRoundTrip {
  import opened Wrappers
  import opened StringSearch
  import opened XmlItems
  import opened XmlParser
  import opened XmlRequest
  import opened Collections
  import XmlRoot

  // ---------- the payload as items ----------

  function PcItems(pc: Option<PcPart>): seq<Item> {
    if pc.None? then []
    else
      [Open("pc", ""), Open(pc.value.resource, "")] + ElementItems(pc.value.attributes) +
      [Close(pc.value.resource), Close("pc")]
  }

  function PayloadItems(root: string, attrs: seq<Attribute>, pc: Option<PcPart>): seq<Item> {
    [Open(root, "")] + ElementItems(attrs) + PcItems(pc) + [Close("m2m:req")]
  }

  /** Printed without being cut off. */
  predicate Whole(attrs: seq<Attribute>) {
    forall a :: a in attrs ==> |Element(a)| < ATTR_BUFFER
  }

  /** Names the search can tell apart, and values free of markup. */
  predicate Searchable(attrs: seq<Attribute>) {
    forall a :: a in attrs ==> TagName(a.name) && (a.value.Some? ==> '<' !in a.value.value)
  }

  lemma {:induction false} ElementItemsAppend(a: seq<Attribute>, b: seq<Attribute>)
    ensures ElementItems(a + b) == ElementItems(a) + ElementItems(b)
  {
    if a == [] {
      assert a + b == b;
    } else {
      assert (a + b)[1..] == a[1..] + b;
      ElementItemsAppend(a[1..], b);
      var pair := if a[0].value.Some? then [Open(a[0].name, a[0].value.value), Close(a[0].name)] else [];
      Assoc(pair, ElementItems(a[1..]), ElementItems(b));
    }
  }

  lemma ElementRendered(a: Attribute)
    ensures RenderAll(ElementItems([a])) == Element(a)
  {
    assert [a][1..] == [];
    assert ElementItems([]) == [];
    if a.value.Some? {
      var open, close := Open(a.name, a.value.value), Close(a.name);
      assert ElementItems([a]) == [open, close];
      assert [open, close][1..] == [close];
      RenderOne(close);
    }
  }

  /** Whole pieces, end to end, are the rendered elements. */
  lemma {:induction false} PiecesRendered(attrs: seq<Attribute>)
    requires Whole(attrs)
    ensures Pieces(attrs) == RenderAll(ElementItems(attrs))
  {
    if attrs != [] {
      PiecesRendered(attrs[..|attrs| - 1]);
      ElementsSnoc(attrs);
    }
  }

  lemma ElementsSnoc(attrs: seq<Attribute>)
    requires attrs != []
    ensures RenderAll(ElementItems(attrs)) ==
      RenderAll(ElementItems(attrs[..|attrs| - 1])) + Element(attrs[|attrs| - 1])
  {
    SplitLast(attrs);
    ElementsOfSnoc(attrs[..|attrs| - 1], attrs[|attrs| - 1]);
  }

  lemma ElementsOfSnoc(front: seq<Attribute>, last: Attribute)
    ensures RenderAll(ElementItems(front + [last])) == RenderAll(ElementItems(front)) + Element(last)
  {
    ElementItemsAppend(front, [last]);
    RenderAppend(ElementItems(front), ElementItems([last]));
    ElementRendered(last);
  }

  lemma OpeningTags(a: string, b: string)
    ensures RenderAll([Open(a, ""), Open(b, "")]) == Tag(a, false) + Tag(b, false)
  {
    assert [Open(a, ""), Open(b, "")][1..] == [Open(b, "")];
    RenderOne(Open(b, ""));
    assert Render(Open(a, "")) == Tag(a, false) && Render(Open(b, "")) == Tag(b, false);
  }

  lemma ClosingTags(a: string, b: string)
    ensures RenderAll([Close(a), Close(b)]) == Tag(a, true) + Tag(b, true)
  {
    assert [Close(a), Close(b)][1..] == [Close(b)];
    RenderOne(Close(b));
  }

  lemma PcRendered(pc: PcPart)
    requires Whole(pc.attributes) && |PcBlock(pc.attributes, pc.resource)| < PAYLOAD_BUFFER - 1
    ensures PcBlock(pc.attributes, pc.resource) == RenderAll(PcItems(Some(pc)))
  {
    PiecesRendered(pc.attributes);
    OpeningTags("pc", pc.resource);
    ClosingTags(pc.resource, "pc");
    RenderMiddle([Open("pc", ""), Open(pc.resource, "")], ElementItems(pc.attributes), [Close(pc.resource), Close("pc")]);
    Assoc(Tag("pc", false) + Tag(pc.resource, false) + Pieces(pc.attributes), Tag(pc.resource, true), Tag("pc", true));
  }

  /** The printed payload is its items, rendered. */
  lemma PayloadRendered(root: string, header: seq<Attribute>, front: seq<Attribute>, pc: Option<PcPart>)
    requires FitsBuffers(XmlHeader(root), header, front, pc)
    requires Whole(header) && Whole(front) && (pc.Some? ==> Whole(pc.value.attributes))
    ensures PayloadOf(XmlHeader(root), header, front, pc) ==
      RenderAll(PayloadItems(root, [CONTENT_TYPE] + header + front, pc))
  {
    if pc.Some? { PcRendered(pc.value); }
    FrontRendered(header, front);
    ItemsRendered(root, [CONTENT_TYPE] + header + front, pc);
    RegroupHeader(Tag(root, false), Element(CONTENT_TYPE), Pieces(header), Pieces(front));
  }

  lemma ItemsRendered(root: string, attrs: seq<Attribute>, pc: Option<PcPart>)
    ensures RenderAll(PayloadItems(root, attrs, pc)) ==
      Tag(root, false) + RenderAll(ElementItems(attrs)) + RenderAll(PcItems(pc)) + XML_FOOTER_V1
  {
    var open, close := [Open(root, "")], [Close("m2m:req")];
    RenderMiddle(open, ElementItems(attrs), PcItems(pc));
    RenderAppend(open + ElementItems(attrs) + PcItems(pc), close);
    RootRendered(root);
  }

  lemma RootRendered(root: string)
    ensures RenderAll([Open(root, "")]) == Tag(root, false)
    ensures RenderAll([Close("m2m:req")]) == XML_FOOTER_V1
  {
    RenderOne(Open(root, ""));
    RenderOne(Close("m2m:req"));
    assert Render(Open(root, "")) == Tag(root, false);
    assert Render(Close("m2m:req")) == XML_FOOTER_V1;
  }

  lemma RegroupHeader(a: string, b: string, c: string, d: string)
    ensures a + b + c + d == a + (b + c + d)
  {
  }

  lemma FrontRendered(header: seq<Attribute>, front: seq<Attribute>)
    requires Whole(header) && Whole(front)
    ensures RenderAll(ElementItems([CONTENT_TYPE] + header + front)) ==
      Element(CONTENT_TYPE) + Pieces(header) + Pieces(front)
  {
    PiecesRendered(header);
    PiecesRendered(front);
    ElementItemsAppend([CONTENT_TYPE] + header, front);
    ElementItemsAppend([CONTENT_TYPE], header);
    RenderMiddle(ElementItems([CONTENT_TYPE]), ElementItems(header), ElementItems(front));
    ElementRendered(CONTENT_TYPE);
  }

  // ---------- searching the payload ----------

  predicate SearchablePayload(root: string, attrs: seq<Attribute>, pc: Option<PcPart>) {
    TagName(root) && |root| > 6 && Searchable(attrs) &&
    (pc.Some? ==> TagName(pc.value.resource) && Searchable(pc.value.attributes))
  }

  lemma {:induction false} ElementsArePlain(attrs: seq<Attribute>)
    requires Searchable(attrs)
    ensures AllPlain(ElementItems(attrs))
  {
    if attrs != [] {
      assert attrs[0] in attrs;
      ElementsArePlain(attrs[1..]);
    }
  }

  lemma {:induction false} NoTagWithoutValue(attrs: seq<Attribute>, name: string)
    requires Lookup(attrs, name).None?
    ensures NoTag(ElementItems(attrs), name)
  {
    if attrs != [] { NoTagWithoutValue(attrs[1..], name); }
  }

  lemma PayloadIsPlain(root: string, attrs: seq<Attribute>, pc: Option<PcPart>)
    requires SearchablePayload(root, attrs, pc)
    ensures AllPlain(PayloadItems(root, attrs, pc))
  {
    ElementsArePlain(attrs);
    if pc.Some? { ElementsArePlain(pc.value.attributes); }
    assert AllPlain(PcItems(pc));
    assert TagName("m2m:req");
  }

  function AllAttributes(attrs: seq<Attribute>, pc: Option<PcPart>): seq<Attribute> {
    attrs + if pc.Some? then pc.value.attributes else []
  }

  lemma {:induction false} LookupAppend(a: seq<Attribute>, b: seq<Attribute>, name: string)
    ensures Lookup(a + b, name) == if Lookup(a, name).Some? then Lookup(a, name) else Lookup(b, name)
  {
    if a == [] {
      assert a + b == b;
    } else {
      assert (a + b)[1..] == a[1..] + b;
      LookupAppend(a[1..], b, name);
    }
  }

  /** A plain search finds the first value of the name anywhere in the payload; without one there is
      no closing tag either, and nothing is copied. */
  lemma SearchPayload(root: string, attrs: seq<Attribute>, pc: Option<PcPart>, name: string)
    requires SearchablePayload(root, attrs, pc)
    requires TagName(name) && |name| <= 6 && (pc.Some? ==> name != "pc" && name != pc.value.resource)
    ensures var payload := RenderAll(PayloadItems(root, attrs, pc));
      Between(payload, name) == Lookup(AllAttributes(attrs, pc), name) &&
      (Lookup(AllAttributes(attrs, pc), name).None? ==> Find(payload, Cut(name, true)).None?)
  {
    PayloadIsPlain(root, attrs, pc);
    if pc.Some? {
      LookupAppend(attrs, pc.value.attributes, name);
    } else {
      assert AllAttributes(attrs, pc) == attrs;
    }
    if Lookup(attrs, name).Some? {
      SearchFront(root, attrs, pc, name);
    } else if pc.Some? && Lookup(pc.value.attributes, name).Some? {
      SearchBehind(root, attrs, pc.value, name);
    } else {
      NowhereInPayload(root, attrs, pc, name);
      NothingToFind(PayloadItems(root, attrs, pc), name);
    }
  }

  lemma NowhereInPayload(root: string, attrs: seq<Attribute>, pc: Option<PcPart>, name: string)
    requires |name| <= 6 < |root| && (pc.Some? ==> name != "pc" && name != pc.value.resource)
    requires Lookup(attrs, name).None? && (pc.Some? ==> Lookup(pc.value.attributes, name).None?)
    ensures NoTag(PayloadItems(root, attrs, pc), name)
  {
    NoTagWithoutValue(attrs, name);
    if pc.Some? { NoTagWithoutValue(pc.value.attributes, name); }
    assert NoTag(PcItems(pc), name);
  }

  lemma SearchFront(root: string, attrs: seq<Attribute>, pc: Option<PcPart>, name: string)
    requires AllPlain(PayloadItems(root, attrs, pc)) && TagName(name) && |name| <= 6 < |root|
    requires Lookup(attrs, name).Some?
    ensures Between(RenderAll(PayloadItems(root, attrs, pc)), name) == Lookup(attrs, name)
  {
    var after := PcItems(pc) + [Close("m2m:req")];
    Assoc([Open(root, "")] + ElementItems(attrs), PcItems(pc), [Close("m2m:req")]);
    BetweenElements([Open(root, "")], attrs, after, name);
  }

  lemma SearchBehind(root: string, attrs: seq<Attribute>, p: PcPart, name: string)
    requires AllPlain(PayloadItems(root, attrs, Some(p))) && TagName(name) && |name| <= 6 < |root|
    requires name != "pc" && name != p.resource && Lookup(attrs, name).None? && Lookup(p.attributes, name).Some?
    ensures Between(RenderAll(PayloadItems(root, attrs, Some(p))), name) == Lookup(p.attributes, name)
  {
    NoTagWithoutValue(attrs, name);
    var before := [Open(root, "")] + ElementItems(attrs) + [Open("pc", ""), Open(p.resource, "")];
    var after := [Close(p.resource), Close("pc"), Close("m2m:req")];
    assert PayloadItems(root, attrs, Some(p)) == before + ElementItems(p.attributes) + after;
    BetweenElements(before, p.attributes, after, name);
  }

  /** The part of the payload from the `pc` tag on. */
  function PcRegion(p: PcPart): seq<Item> {
    PcItems(Some(p)) + [Close("m2m:req")]
  }

  lemma RegionOfPayload(root: string, attrs: seq<Attribute>, p: PcPart)
    requires SearchablePayload(root, attrs, Some(p)) && Lookup(attrs, "pc").None?
    ensures var payload := RenderAll(PayloadItems(root, attrs, Some(p)));
      Find(payload, PC_TAG).Some? && Region(payload, true) == RenderAll(PcRegion(p)) && AllPlain(PcRegion(p))
  {
    PayloadIsPlain(root, attrs, Some(p));
    var before := [Open(root, "")] + ElementItems(attrs);
    assert PayloadItems(root, attrs, Some(p)) == before + PcRegion(p);
    NoTagWithoutValue(attrs, "pc");
    RegionOfItems(before, PcRegion(p));
  }

  /** A search inside `pc` finds the first value there, whatever the header holds under that name, and
      nothing if there is none. */
  lemma SearchPc(root: string, attrs: seq<Attribute>, p: PcPart, name: string)
    requires SearchablePayload(root, attrs, Some(p)) && Lookup(attrs, "pc").None?
    requires TagName(name) && |name| <= 6 && name != "pc" && name != p.resource
    ensures var payload := RenderAll(PayloadItems(root, attrs, Some(p)));
      Find(payload, PC_TAG).Some? && Between(Region(payload, true), name) == Lookup(p.attributes, name) &&
      (Lookup(p.attributes, name).None? ==> Find(Region(payload, true), Cut(name, true)).None?)
  {
    RegionOfPayload(root, attrs, p);
    if Lookup(p.attributes, name).Some? {
      RegionHolds(p, name);
    } else {
      NoTagWithoutValue(p.attributes, name);
      NothingToFind(PcRegion(p), name);
    }
  }

  lemma RegionHolds(p: PcPart, name: string)
    requires AllPlain(PcRegion(p)) && Lookup(p.attributes, name).Some?
    requires TagName(name) && |name| <= 6 && name != "pc" && name != p.resource
    ensures Between(RenderAll(PcRegion(p)), name) == Lookup(p.attributes, name)
  {
    var opening, after := [Open("pc", ""), Open(p.resource, "")], [Close(p.resource), Close("pc"), Close("m2m:req")];
    Assoc(opening + ElementItems(p.attributes), [Close(p.resource), Close("pc")], [Close("m2m:req")]);
    assert PcRegion(p) == opening + ElementItems(p.attributes) + after;
    BetweenElements(opening, p.attributes, after, name);
  }

  /** For every list of attributes printed whole: the parser gives back the first value of any name of
      at most six characters, with `isPC` the first value inside `pc`, and nothing without a value. */
  lemma PrintThenParse(root: string, header: seq<Attribute>, front: seq<Attribute>, pc: Option<PcPart>, name: string)
    requires FitsBuffers(XmlHeader(root), header, front, pc)
    requires Whole(header) && Whole(front) && (pc.Some? ==> Whole(pc.value.attributes))
    requires SearchablePayload(root, [CONTENT_TYPE] + header + front, pc)
    requires TagName(name) && |name| <= 6 && (pc.Some? ==> name != "pc" && name != pc.value.resource)
    ensures var payload := PayloadOf(XmlHeader(root), header, front, pc);
      var value := Lookup(AllAttributes([CONTENT_TYPE] + header + front, pc), name);
      Between(Region(payload, false), name) == value && (value.None? ==> Find(payload, Cut(name, true)).None?)
    ensures var payload := PayloadOf(XmlHeader(root), header, front, pc);
      pc.Some? && Lookup([CONTENT_TYPE] + header + front, "pc").None? ==>
      Find(payload, PC_TAG).Some? && Between(Region(payload, true), name) == Lookup(pc.value.attributes, name)
    ensures var payload := PayloadOf(XmlHeader(root), header, front, pc);
      pc.Some? && Lookup([CONTENT_TYPE] + header + front, "pc").None? && Lookup(pc.value.attributes, name).None? ==>
      Find(payload, PC_TAG).Some? && Find(Region(payload, true), Cut(name, true)).None?
  {
    var leading := [CONTENT_TYPE] + header + front;
    PayloadRendered(root, header, front, pc);
    SearchPayload(root, leading, pc, name);
    if pc.Some? && Lookup(leading, "pc").None? {
      SearchPc(root, leading, pc.value, name);
    }
  }

  // ---------- requests ----------

  predicate WholeRequest(r: Resource, operation: nat, to: string, ri: string) {
    Whole(HeaderAttributes(TypeCode(r), operation, to, ri)) && Whole(FrontAttributes(r)) && Whole(PcAttributes(r))
  }

  predicate MarkupFree(attrs: seq<Attribute>) {
    forall a :: a in attrs && a.value.Some? ==> '<' !in a.value.value
  }

  predicate PlainNames(attrs: seq<Attribute>) {
    forall a :: a in attrs ==> TagName(a.name) && a.name != "pc"
  }

  lemma HeaderNames(resourceType: nat, operation: nat, to: string, ri: string)
    ensures PlainNames(HeaderAttributes(resourceType, operation, to, ri))
  {
    assert TagName("op") && TagName("to") && TagName("ty") && TagName("ri");
  }

  lemma FrontNames(r: Resource)
    ensures PlainNames(FrontAttributes(r))
  {
    assert TagName("fr") && TagName("nm") && TagName("dKey") && TagName("uKey") && TagName("passCode");
  }

  lemma ShortNames()
    ensures TagName("ni") && TagName("hcl") && TagName("mga") && TagName("cst") && TagName("csi") && TagName("poa")
    ensures TagName("rr") && TagName("nl") && TagName("lbl") && TagName("cmt") && TagName("exe") && TagName("ext")
  {
  }

  lemma MoreShortNames()
    ensures TagName("cnf") && TagName("con") && TagName("los") && TagName("api") && TagName("apn") && TagName("mgd")
    ensures TagName("ant") && TagName("ldv") && TagName("exr") && TagName("exs")
  {
  }

  lemma PcNames(r: Resource)
    ensures PlainNames(PcAttributes(r))
  {
    ShortNames();
    MoreShortNames();
  }

  lemma ResourceNames(r: Resource)
    ensures !r.CSEBase? ==> TagName(ResourceStr(r))
  {
  }

  /** The attributes in front of the `pc` block of a request, the content type first. */
  function LeadingAttributes(r: Resource, operation: nat, to: string, ri: string): seq<Attribute> {
    [CONTENT_TYPE] + HeaderAttributes(TypeCode(r), operation, to, ri) + FrontAttributes(r)
  }

  lemma RequestIsSearchable(r: Resource, operation: nat, to: string, ri: string)
    requires MarkupFree(HeaderAttributes(TypeCode(r), operation, to, ri)) && MarkupFree(FrontAttributes(r))
    requires MarkupFree(PcAttributes(r))
    ensures SearchablePayload(XmlRoot.ROOT, LeadingAttributes(r, operation, to, ri), PcOf(r, operation))
    ensures Lookup(LeadingAttributes(r, operation, to, ri), "pc").None?
  {
    HeaderNames(TypeCode(r), operation, to, ri);
    FrontNames(r);
    PcNames(r);
    ResourceNames(r);
    RootIsTagName();
    ContentTypeIsPlain();
    NoSuchName(LeadingAttributes(r, operation, to, ri), "pc");
  }

  lemma {:induction false} NoSuchName(attrs: seq<Attribute>, name: string)
    requires forall a :: a in attrs ==> a.name != name
    ensures Lookup(attrs, name).None?
  {
    if attrs != [] { NoSuchName(attrs[1..], name); }
  }

  /** A request that fits, is not cut off, and whose values contain no markup. */
  predicate Exchangeable(r: Resource, operation: nat, to: string, ri: string) {
    Printable(r, operation, to, ri) && WholeRequest(r, operation, to, ri) &&
    MarkupFree(HeaderAttributes(TypeCode(r), operation, to, ri)) && MarkupFree(FrontAttributes(r)) &&
    MarkupFree(PcAttributes(r))
  }

  /** The first value a request gives to a name. */
  function ValueOf(r: Resource, operation: nat, to: string, ri: string, name: string): Option<string> {
    Lookup(AllAttributes(LeadingAttributes(r, operation, to, ri), PcOf(r, operation)), name)
  }

  /** A plain search of a printed request gives back the first value of the name, and copies nothing
      if the request has none. */
  lemma RequestRoundTrip(r: Resource, operation: nat, to: string, ri: string, name: string)
    requires Exchangeable(r, operation, to, ri)
    requires TagName(name) && |name| <= 6 && name != "pc" && name != ResourceStr(r)
    ensures Between(Payload(r, operation, to, ri), name) == ValueOf(r, operation, to, ri, name)
    ensures ValueOf(r, operation, to, ri, name).None? ==> Find(Payload(r, operation, to, ri), Cut(name, true)).None?
  {
    RequestIsSearchable(r, operation, to, ri);
    RequestRendered(r, operation, to, ri);
    SearchPayload(XmlRoot.ROOT, LeadingAttributes(r, operation, to, ri), PcOf(r, operation), name);
  }

  lemma RequestRendered(r: Resource, operation: nat, to: string, ri: string)
    requires Exchangeable(r, operation, to, ri)
    ensures Payload(r, operation, to, ri) ==
      RenderAll(PayloadItems(XmlRoot.ROOT, LeadingAttributes(r, operation, to, ri), PcOf(r, operation)))
  {
    PayloadRendered(XmlRoot.ROOT, HeaderAttributes(TypeCode(r), operation, to, ri), FrontAttributes(r), PcOf(r, operation));
  }

  /** A search inside `pc` gives back the first value there, and copies nothing if there is none. */
  lemma PcRoundTrip(r: Resource, operation: nat, to: string, ri: string, name: string)
    requires Exchangeable(r, operation, to, ri) && HasPc(r, operation)
    requires TagName(name) && |name| <= 6 && name != "pc" && name != ResourceStr(r)
    ensures Find(Payload(r, operation, to, ri), PC_TAG).Some?
    ensures Between(Region(Payload(r, operation, to, ri), true), name) == Lookup(PcAttributes(r), name)
    ensures Lookup(PcAttributes(r), name).None? ==>
      Find(Region(Payload(r, operation, to, ri), true), Cut(name, true)).None?
  {
    RequestIsSearchable(r, operation, to, ri);
    RequestRendered(r, operation, to, ri);
    SearchPc(XmlRoot.ROOT, LeadingAttributes(r, operation, to, ri), PcOf(r, operation).value, name);
  }

  // ---------- a name that is too long ----------

  /** No name begins with the character. */
  predicate NoInitial(attrs: seq<Attribute>, c: char) {
    forall a :: a in attrs ==> a.name != "" && a.name[0] != c
  }

  predicate NoItemInitial(items: seq<Item>, c: char) {
    forall item :: item in items ==> item.name != "" && item.name[0] != c
  }

  lemma {:induction false} ElementInitials(attrs: seq<Attribute>, c: char)
    requires NoInitial(attrs, c)
    ensures NoItemInitial(ElementItems(attrs), c)
  {
    if attrs != [] {
      assert attrs[0] in attrs;
      ElementInitials(attrs[1..], c);
    }
  }

  /** A long name behind items whose names begin differently comes back with its rest in front. */
  lemma LongNameBehind(before: seq<Item>, a: Attribute, after: seq<Item>)
    requires a.value.Some? && |a.name| >= 8 && NoItemInitial(before, a.name[0])
    requires AllPlain(before + [Open(a.name, a.value.value), Close(a.name)] + after)
    ensures Between(RenderAll(before + [Open(a.name, a.value.value), Close(a.name)] + after), a.name) ==
      Some(a.name[8..] + ">" + a.value.value)
  {
    var k := |before|;
    var items := before + [Open(a.name, a.value.value), Close(a.name)] + after;
    assert items[..k] == before && items[k] == Open(a.name, a.value.value) && items[k + 1] == Close(a.name);
    assert Plain(items[k]);
    forall i | 0 <= i < k
      ensures items[i].name != a.name && !(a.name[..7] <= items[i].name)
    {
      assert items[i] == before[i] && before[i] in before;
      assert items[i].name[0] != a.name[0];
    }
    LongNameKeepsItsRest(items, a.name, k);
  }

  lemma SplitPayload(root: string, attrs: seq<Attribute>, a: Attribute, rest: seq<Attribute>, pc: Option<PcPart>)
    requires a.value.Some?
    ensures PayloadItems(root, attrs + [a] + rest, pc) ==
      ([Open(root, "")] + ElementItems(attrs)) + [Open(a.name, a.value.value), Close(a.name)] +
      (ElementItems(rest) + PcItems(pc) + [Close("m2m:req")])
  {
    SplitElements(attrs, a, rest);
    var pair := [Open(a.name, a.value.value), Close(a.name)];
    Regroup([Open(root, "")], ElementItems(attrs), pair, ElementItems(rest), PcItems(pc), [Close("m2m:req")]);
  }

  lemma Regroup<T>(o: seq<T>, x: seq<T>, p: seq<T>, y: seq<T>, q: seq<T>, c: seq<T>)
    ensures o + (x + p + y) + q + c == (o + x) + p + (y + q + c)
  {
  }

  lemma SplitElements(attrs: seq<Attribute>, a: Attribute, rest: seq<Attribute>)
    requires a.value.Some?
    ensures ElementItems(attrs + [a] + rest) ==
      ElementItems(attrs) + [Open(a.name, a.value.value), Close(a.name)] + ElementItems(rest)
  {
    ElementItemsAppend(attrs + [a], rest);
    ElementItemsAppend(attrs, [a]);
    assert [a][1..] == [] && ElementItems([]) == [];
    assert ElementItems([a]) == [Open(a.name, a.value.value), Close(a.name)];
  }

  /** The pass code of a printed remoteCSE request is found with a `>` in front of it. */
  lemma PassCodeIsSpoilt(r: Resource, operation: nat, to: string, ri: string)
    requires r.RemoteCSE? && r.passCode.Some? && Exchangeable(r, operation, to, ri)
    ensures Between(Payload(r, operation, to, ri), "passCode") == Some(">" + r.passCode.value)
  {
    RequestIsSearchable(r, operation, to, ri);
    RequestRendered(r, operation, to, ri);
    PayloadIsPlain(XmlRoot.ROOT, LeadingAttributes(r, operation, to, ri), PcOf(r, operation));
    var attrs := BeforePassCode(TypeCode(r), operation, to, ri, r.ni);
    var a, rest := Attribute("passCode", r.passCode), [Attribute("dKey", r.dKey), Attribute("nm", r.nm)];
    AroundPassCode(r, operation, to, ri);
    LongAttribute(attrs, a, rest, PcOf(r, operation), TypeCode(r), operation, to, ri, r.ni);
  }

  lemma LongAttribute(attrs: seq<Attribute>, a: Attribute, rest: seq<Attribute>, pc: Option<PcPart>,
                      resourceType: nat, operation: nat, to: string, ri: string, ni: Option<string>)
    requires a.value.Some? && |a.name| == 8 && a.name[0] == 'p'
    requires attrs == BeforePassCode(resourceType, operation, to, ri, ni)
    requires AllPlain(PayloadItems(XmlRoot.ROOT, attrs + [a] + rest, pc))
    ensures Between(RenderAll(PayloadItems(XmlRoot.ROOT, attrs + [a] + rest, pc)), a.name) == Some(">" + a.value.value)
  {
    InitialsBeforePassCode(resourceType, operation, to, ri, ni);
    ElementInitials(attrs, 'p');
    SplitPayload(XmlRoot.ROOT, attrs, a, rest, pc);
    LongNameBehind([Open(XmlRoot.ROOT, "")] + ElementItems(attrs), a, ElementItems(rest) + PcItems(pc) + [Close("m2m:req")]);
    assert a.name[8..] + ">" == ">";
  }

  function BeforePassCode(resourceType: nat, operation: nat, to: string, ri: string, ni: Option<string>): seq<Attribute> {
    [CONTENT_TYPE] + HeaderAttributes(resourceType, operation, to, ri) + [Attribute("fr", ni)]
  }

  lemma AroundPassCode(r: Resource, operation: nat, to: string, ri: string)
    requires r.RemoteCSE?
    ensures LeadingAttributes(r, operation, to, ri) ==
      BeforePassCode(TypeCode(r), operation, to, ri, r.ni) + [Attribute("passCode", r.passCode)] +
      [Attribute("dKey", r.dKey), Attribute("nm", r.nm)]
  {
  }

  lemma InitialsBeforePassCode(resourceType: nat, operation: nat, to: string, ri: string, ni: Option<string>)
    ensures NoInitial(BeforePassCode(resourceType, operation, to, ri, ni), 'p')
    ensures XmlRoot.ROOT != "" && XmlRoot.ROOT[0] != 'p'
  {
    XmlRoot.RootIsClean();
    assert NoInitial(HeaderAttributes(resourceType, operation, to, ri), 'p');
  }
}
