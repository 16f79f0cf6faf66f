/** Sensor chunks through the whole chain: TLV text, accumulated content, printed request, tag search. */
module Telemetry {
  import opened Wrappers
  import opened StringSearch
  import opened XmlParser
  import opened XmlRequest
  import opened XmlRoundTrip
  import XmlItems
  import XmlRoot
  import TlvCodec
  import SensorReport

  /** Searching a printed contentInstance request for its content inside `pc` and decoding what is
      found gives back every chunk that went in. */
  lemma ContentComesBack(css: seq<seq<TlvCodec.Chunk>>, r: Resource, to: string, ri: string)
    requires SensorReport.AllSendable(css)
    requires r.ContentInstance? && r.con == Some(SensorReport.TextOfAll(css))
    requires Exchangeable(r, CREATE, to, ri)
    ensures Find(Payload(r, CREATE, to, ri), PC_TAG).Some?
    ensures FoundContent(Payload(r, CREATE, to, ri)) == Some(SensorReport.Flatten(css))
  {
    ConIsLookedUp(r);
    ConIsAName(r);
    PcRoundTrip(r, CREATE, to, ri, "con");
    SensorReport.DecodeAccumulated(css);
  }

  /** What a search for `con` inside `pc` finds, decoded. */
  ghost function FoundContent(payload: string): Option<seq<TlvCodec.Chunk>>
    requires Find(payload, PC_TAG).Some?
  {
    var found := Between(Region(payload, true), "con");
    if found.Some? then TlvCodec.Decode(found.value) else None
  }

  lemma ConIsAName(r: Resource)
    requires r.ContentInstance?
    ensures XmlItems.TagName("con") && "con" != "pc" && "con" != ResourceStr(r) && HasPc(r, CREATE)
  {
    assert "con"[1] == 'o' && "pc"[1] == 'c' && "cin"[1] == 'i';
  }

  lemma ConIsLookedUp(r: Resource)
    requires r.ContentInstance? && r.con.Some?
    ensures Lookup(PcAttributes(r), "con") == r.con
  {
    var a := PcAttributes(r);
    assert "cnf"[1] == 'n' && "cnf"[2] == 'f' && "con"[2] == 'n';
    assert a[1..][0].name == "con";
  }

  // ---------- requests that fit the buffers ----------

  function Length(f: Field): nat {
    if f.Some? then |f.value| else 0
  }

  /** A C string without markup. */
  predicate Plain(f: Field) {
    f.Some? ==> '\0' !in f.value && '<' !in f.value
  }

  predicate AllPlain(attrs: seq<Attribute>) {
    forall a :: a in attrs ==> '\0' !in a.name && Plain(a.value)
  }

  /** Values of at most 400 characters inside `pc` and of at most 150 in front of it. */
  predicate Short(r: Resource, to: string, ri: string) {
    r.ContentInstance? && Length(r.cnf) + Length(r.con) + Length(r.lbl) <= 400 &&
    |to| + |ri| + Length(r.ni) + Length(r.dKey) <= 150 &&
    Plain(Some(to)) && Plain(Some(ri)) && Plain(r.ni) && Plain(r.dKey) && Plain(r.cnf) && Plain(r.con) && Plain(r.lbl)
  }

  /** Markup and values of a list of attributes. */
  function Size(attrs: seq<Attribute>): nat {
    if attrs == [] then 0 else
      var last := attrs[|attrs| - 1];
      Size(attrs[..|attrs| - 1]) + 2 * |last.name| + 5 + Length(last.value)
  }

  lemma {:induction false} PiecesSize(attrs: seq<Attribute>)
    ensures |Pieces(attrs)| <= Size(attrs)
  {
    if attrs != [] { PiecesSize(attrs[..|attrs| - 1]); }
  }

  lemma SizeOfTwo(a: Attribute, b: Attribute)
    ensures Size([a, b]) == 2 * |a.name| + 2 * |b.name| + 10 + Length(a.value) + Length(b.value)
  {
    assert [a, b][..1] == [a] && [a][..0] == [];
    assert Size([a]) == 2 * |a.name| + 5 + Length(a.value);
  }

  lemma SizeOfThree(a: Attribute, b: Attribute, c: Attribute)
    ensures Size([a, b, c]) == Size([a, b]) + 2 * |c.name| + 5 + Length(c.value)
  {
    assert [a, b, c][..2] == [a, b];
  }

  lemma SizeOfFour(a: Attribute, b: Attribute, c: Attribute, d: Attribute)
    ensures Size([a, b, c, d]) == Size([a, b, c]) + 2 * |d.name| + 5 + Length(d.value)
  {
    assert [a, b, c, d][..3] == [a, b, c];
  }

  lemma FourFit(op: Attribute, to: Attribute, ty: Attribute, ri: Attribute)
    requires |op.name| == 2 && |to.name| == 2 && |ty.name| == 2 && |ri.name| == 2
    requires Length(op.value) <= 1 && Length(ty.value) <= 5 && Length(to.value) + Length(ri.value) <= 150
    ensures |Pieces([op, to, ty, ri])| <= 42 + Length(to.value) + Length(ri.value)
    ensures Whole([op, to, ty, ri])
  {
    SizeOfTwo(op, to);
    SizeOfThree(op, to, ty);
    SizeOfFour(op, to, ty, ri);
    PiecesSize([op, to, ty, ri]);
  }

  lemma HeaderIs(to: string, ri: string) returns (op: string, ty: string)
    ensures HeaderAttributes(4, CREATE, to, ri) ==
      [Attribute("op", Some(op)), Attribute("to", Some(to)), Attribute("ty", Some(ty)), Attribute("ri", Some(ri))]
    ensures |op| <= 1 && |ty| <= 5 && Plain(Some(op)) && Plain(Some(ty))
  {
    op, ty := Snprintf(2, Decimal(CREATE)), Snprintf(6, Decimal(4));
  }

  lemma HeaderFits(to: string, ri: string)
    requires Plain(Some(to)) && Plain(Some(ri)) && |to| + |ri| <= 150
    ensures var h := HeaderAttributes(4, CREATE, to, ri);
      |Pieces(h)| <= 42 + |to| + |ri| && AllPlain(h) && Whole(h)
  {
    var op, ty := HeaderIs(to, ri);
    FourFit(Attribute("op", Some(op)), Attribute("to", Some(to)), Attribute("ty", Some(ty)), Attribute("ri", Some(ri)));
  }

  lemma FrontFits(r: Resource, to: string, ri: string)
    requires Short(r, to, ri)
    ensures var f := FrontAttributes(r);
      |Pieces(f)| <= 22 + Length(r.ni) + Length(r.dKey) && AllPlain(f) && Whole(f)
  {
    var f := FrontAttributes(r);
    SizeOfTwo(f[0], f[1]);
    PiecesSize(f);
  }

  lemma PcFits(r: Resource, to: string, ri: string)
    requires Short(r, to, ri)
    ensures var p := PcAttributes(r);
      |Pieces(p)| <= 433 && AllPlain(p) && Whole(p) && |PcBlock(p, "cin")| <= 453
  {
    var p := PcAttributes(r);
    SizeOfTwo(p[0], p[1]);
    SizeOfThree(p[0], p[1], p[2]);
    PiecesSize(p);
  }

  lemma HeaderTextIsShort()
    ensures |XmlHeader(XmlRoot.ROOT)| <= 300
  {
    assert |XmlRoot.ROOT_NAME| <= 60 && |XmlRoot.ROOT_XSI| <= 40 && |XmlRoot.ROOT_INSTANCE| <= 40;
    assert |XmlRoot.ROOT_LOCATION| <= 70 && |XmlRoot.ROOT_SCHEMA| <= 45;
    assert |Element(CONTENT_TYPE)| <= 45;
  }

  lemma PlainAttributes(attrs: seq<Attribute>)
    requires AllPlain(attrs)
    ensures NoNul(attrs) && MarkupFree(attrs)
  {
  }

  /** Short requests fit every buffer they pass through. */
  lemma ShortRequestsFit(r: Resource, to: string, ri: string)
    requires Short(r, to, ri)
    ensures Exchangeable(r, CREATE, to, ri)
  {
    HeaderFits(to, ri);
    FrontFits(r, to, ri);
    PcFits(r, to, ri);
    PlainAttributes(HeaderAttributes(4, CREATE, to, ri));
    PlainAttributes(FrontAttributes(r));
    PlainAttributes(PcAttributes(r));
    ShortIsPrintable(r, to, ri);
  }

  lemma ShortIsPrintable(r: Resource, to: string, ri: string)
    requires Short(r, to, ri)
    ensures Printable(r, CREATE, to, ri)
  {
    var header, front, pc := HeaderAttributes(4, CREATE, to, ri), FrontAttributes(r), PcAttributes(r);
    ShortSizes(r, to, ri);
    PlainAttributes(header);
    PlainAttributes(front);
    PlainAttributes(pc);
    SmallPayloadFits(XmlHeader(XmlRoot.ROOT), header, front, pc);
    assert PcOf(r, CREATE) == Some(PcPart(pc, "cin")) && TypeCode(r) == 4;
  }

  lemma ShortSizes(r: Resource, to: string, ri: string)
    requires Short(r, to, ri)
    ensures var header, front, pc := HeaderAttributes(4, CREATE, to, ri), FrontAttributes(r), PcAttributes(r);
      AllPlain(header) && AllPlain(front) && AllPlain(pc) && |Pieces(pc)| < ATTR_BUFFER &&
      |XmlHeader(XmlRoot.ROOT)| + |Pieces(header)| + |Pieces(front)| + |PcBlock(pc, "cin")| < PAYLOAD_BUFFER - 10
  {
    HeaderFits(to, ri);
    FrontFits(r, to, ri);
    PcFits(r, to, ri);
    HeaderTextIsShort();
  }

  lemma SmallPayloadFits(xmlHeader: string, header: seq<Attribute>, front: seq<Attribute>, pc: seq<Attribute>)
    requires NoNul(header) && NoNul(front) && NoNul(pc) && |Pieces(pc)| < ATTR_BUFFER
    requires |xmlHeader| + |Pieces(header)| + |Pieces(front)| + |PcBlock(pc, "cin")| < PAYLOAD_BUFFER - 10
    ensures FitsBuffers(xmlHeader, header, front, Some(PcPart(pc, "cin")))
  {
    assert |XML_FOOTER_V1| == 10;
  }

  /** So chunk lists of up to 200 bytes come back from any short request that carries them. */
  lemma ShortContentComesBack(css: seq<seq<TlvCodec.Chunk>>, r: Resource, to: string, ri: string)
    requires SensorReport.AllSendable(css) && Short(r, to, ri)
    requires r.con == Some(SensorReport.TextOfAll(css))
    ensures Find(Payload(r, CREATE, to, ri), PC_TAG).Some?
    ensures FoundContent(Payload(r, CREATE, to, ri)) == Some(SensorReport.Flatten(css))
  {
    ShortRequestsFit(r, to, ri);
    ContentComesBack(css, r, to, ri);
  }
}
