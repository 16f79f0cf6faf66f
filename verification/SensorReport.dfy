/** From sensor chunks to reported content and back: the TLV maker feeding tpAddData and tpReport. */
module SensorReport {
  import opened Wrappers
  import opened CStrings
  import opened Collections
  import opened TlvCodec
  import TlvMaker
  import Content

  function Flatten(css: seq<seq<Chunk>>): seq<Chunk> {
    if css == [] then [] else css[0] + Flatten(css[1..])
  }

  function TextOf(cs: seq<Chunk>): string {
    Hex(Serialize(cs))
  }

  function TextOfAll(css: seq<seq<Chunk>>): string {
    if css == [] then "" else TextOf(css[0]) + TextOfAll(css[1..])
  }

  /** A piece whose text fits the unsigned char that carries its length. */
  predicate Sendable(cs: seq<Chunk>) {
    cs != [] && |TextOf(cs)| <= 255 && forall c :: c in cs ==> WellFormed(c)
  }

  predicate AllSendable(css: seq<seq<Chunk>>) {
    forall cs :: cs in css ==> Sendable(cs)
  }

  /** The texts of the pieces, end to end, are the text of all their chunks. */
  lemma {:induction false} TextsConcatenate(css: seq<seq<Chunk>>)
    ensures TextOfAll(css) == TextOf(Flatten(css))
  {
    if css != [] {
      TextsConcatenate(css[1..]);
      SerializeAppend(css[0], Flatten(css[1..]));
      HexAppend(Serialize(css[0]), Serialize(Flatten(css[1..])));
    }
  }

  lemma {:induction false} FlattenWellFormed(css: seq<seq<Chunk>>)
    requires AllSendable(css)
    ensures forall c :: c in Flatten(css) ==> WellFormed(c)
  {
    if css != [] {
      assert Sendable(css[0]);
      FlattenWellFormed(css[1..]);
    }
  }

  /** Decoding the accumulated text gives back the chunks of every piece, in order and unchanged. */
  lemma DecodeAccumulated(css: seq<seq<Chunk>>)
    requires AllSendable(css)
    ensures Decode(TextOfAll(css)) == Some(Flatten(css))
  {
    TextsConcatenate(css);
    FlattenWellFormed(css);
    DecodeText(Flatten(css));
  }

  /** A TLV text of one piece, as the conversion routine makes it: create, set, push, make, copy. */
  method Convert(cs: seq<Chunk>) returns (tlv: string)
    requires cs != [] && forall c :: c in cs ==> WellFormed(c)
    requires |cs| < TlvMaker.USHORT && ValueLength(cs) < TlvMaker.USHORT
    ensures tlv == TextOf(cs)
  {
    var context := new TlvMaker.TlvContext();
    PushAll(context, cs);
    assert context.Chunks() == cs;
    context.Make();
    var size := context.GetSize();
    tlv := context.mInstance[..size];
  }

  method NewChunk(c: Chunk) returns (chunk: TlvMaker.TlvChunk)
    requires WellFormed(c)
    ensures fresh(chunk) && chunk.Snapshot() == c
  {
    chunk := new TlvMaker.TlvChunk();
    chunk.Set(c.tag, c.length, c.value);
  }

  lemma HeadAndTail<T>(before: seq<T>, s: seq<T>)
    requires s != []
    ensures before + [s[0]] + s[1..] == before + s
  {
  }

  method PushAll(context: TlvMaker.TlvContext, cs: seq<Chunk>)
    requires context.Valid() && forall c :: c in cs ==> WellFormed(c)
    modifies context, context.mTLVList, context.mTLVList.nodes
    ensures context.Valid() && context.Chunks() == old(context.Chunks()) + cs
    decreases |cs|
  {
    if cs != [] {
      var chunk := NewChunk(cs[0]);
      context.Push(chunk);
      PushAll(context, cs[1..]);
      HeadAndTail(old(context.Chunks()), cs);
    }
  }

  /** What the accumulator holds. */
  ghost function Text(device: Content.Device): string
    reads device, device.data
  {
    Content.Held(device.Abstract())
  }

  /** Converts one piece and adds it to the content. `unspecified` is memory gained by realloc. */
  method AddPiece(device: Content.Device, cs: seq<Chunk>, unspecified: seq<char>)
    requires device.Valid() && |unspecified| >= 255 && Sendable(cs)
    modifies device
    ensures device.Valid() && device.requests == old(device.requests) && device.data != null
    ensures Text(device) == old(Text(device)) + TextOf(cs) && device.Excess() == old(device.Excess())
    ensures device.data == old(device.data) || fresh(device.data)
  {
    ShortTextFits(cs);
    var tlv := Convert(cs);
    HexIsPlain(Serialize(cs));
    CStrIs(tlv, tlv);
    assert tlv[..|tlv|] == tlv;
    var rc := device.AddData(Some(tlv), |tlv|, unspecified);
  }

  method AddPieces(device: Content.Device, css: seq<seq<Chunk>>, unspecified: seq<char>)
    requires device.Valid() && AllSendable(css) && |unspecified| >= 255
    modifies device
    ensures device.Valid() && device.requests == old(device.requests)
    ensures Text(device) == old(Text(device)) + TextOfAll(css)
    ensures old(device.data) != null || css != [] ==> device.data != null
    decreases |css|
  {
    if css != [] {
      assert Sendable(css[0]);
      AddPiece(device, css[0], unspecified);
      AddPieces(device, css[1..], unspecified);
      Assoc(old(Text(device)), TextOf(css[0]), TextOfAll(css[1..]));
    }
  }

  lemma ShortTextFits(cs: seq<Chunk>)
    requires Sendable(cs)
    ensures |cs| < TlvMaker.USHORT && ValueLength(cs) < TlvMaker.USHORT && |TextOf(cs)| > 0
  {
    SerializeSize(cs);
  }

  /** Measuring, converting, adding and reporting, on top of whatever chunks are held already: the
      reported content decodes to all of them. */
  method ReportPieces(device: Content.Device, css: seq<seq<Chunk>>, unspecified: seq<char>,
                      to: string, ri: string, published: int) returns (rc: int)
    requires device.Valid() && (device.data != null || css != [])
    requires Decode(Text(device)).Some? && AllSendable(css) && |unspecified| >= 255
    modifies device
    ensures device.Valid() && device.data == null && rc == published
    ensures |device.requests| == |old(device.requests)| + 1
    ensures var r := device.requests[|device.requests| - 1];
      r.accepted && r.accumulated && r.published == published &&
      Decode(r.content) == Some(Decode(old(Text(device))).value + Flatten(css))
  {
    DecodeMore(Text(device), css);
    AddPieces(device, css, unspecified);
    rc := ReportHeld(device, to, ri, published);
  }

  /** Reporting what is held. */
  method ReportHeld(device: Content.Device, to: string, ri: string, published: int) returns (rc: int)
    requires device.Valid() && device.data != null
    modifies device
    ensures device.Valid() && device.data == null && rc == published
    ensures device.requests == old(device.requests) + [Content.Request(old(Text(device)), true, true, published)]
  {
    rc := device.Report(true, None, Some(to), Some(ri), published);
  }

  /** Pieces added behind a text that decodes. */
  lemma DecodeMore(text: string, css: seq<seq<Chunk>>)
    requires Decode(text).Some? && AllSendable(css)
    ensures Decode(text + TextOfAll(css)) == Some(Decode(text).value + Flatten(css))
  {
    var held, added := Decode(text).value, Flatten(css);
    TextOfDecoded(text);
    TextsConcatenate(css);
    FlattenWellFormed(css);
    SerializeAppend(held, added);
    HexAppend(Serialize(held), Serialize(added));
    DecodeText(held + added);
  }

  /** The length argument of tpAddData is an unsigned char: a piece goes in whole exactly when its
      text is at most 255 characters long. */
  lemma PieceGoesInWhole(cs: seq<Chunk>)
    ensures CStr(TextOf(cs)[..|TextOf(cs)| % 256]) == TextOf(cs) <==> |TextOf(cs)| <= 255
  {
    HexIsPlain(Serialize(cs));
    CutText(TextOf(cs), |TextOf(cs)| % 256);
  }

  lemma CutText(text: string, n: nat)
    requires '\0' !in text && n <= |text|
    ensures CStr(text[..n]) == text <==> n == |text|
  {
    var sent := text[..n];
    assert forall i :: 0 <= i < n ==> sent[i] == text[i] && text[i] in text;
    CStrIs(sent, sent);
    if n == |text| { assert sent == text; }
  }
}
