/** The tag-length-value format of sensor data and its hexadecimal text form. */
module TlvCodec {
  import opened Wrappers
  import opened CTypes

  datatype Chunk = Chunk(tag: byte, length: byte, value: seq<byte>)

  predicate WellFormed(c: Chunk) {
    |c.value| == c.length
  }

  function Bytes(c: Chunk): seq<byte> {
    [c.tag, c.length] + c.value
  }

  function Serialize(cs: seq<Chunk>): seq<byte> {
    if cs == [] then [] else Bytes(cs[0]) + Serialize(cs[1..])
  }

  function ValueLength(cs: seq<Chunk>): (n: nat)
  {
    if cs == [] then 0 else cs[0].length + ValueLength(cs[1..])
  }

  /** Where the first chunk of the input ends, if all of it is there. */
  function FirstEnd(bs: seq<byte>): Option<nat>
    ensures FirstEnd(bs).Some? ==> 2 <= FirstEnd(bs).value <= |bs|
  {
    if |bs| < 2 then None
    else
      var length: int := bs[1];
      if |bs| < 2 + length then None else Some(2 + length)
  }

  /** Reads chunks until the input is used up; nothing if it ends inside one. */
  function Parse(bs: seq<byte>): Option<seq<Chunk>>
    decreases |bs|
  {
    if bs == [] then Some([])
    else if FirstEnd(bs).None? then None
    else
      var end := FirstEnd(bs).value;
      var rest := Parse(bs[end..]);
      if rest.None? then None else Some([Chunk(bs[0], bs[1], bs[2..end])] + rest.value)
  }

  lemma {:induction false} SerializeAppend(cs: seq<Chunk>, ds: seq<Chunk>)
    ensures Serialize(cs + ds) == Serialize(cs) + Serialize(ds)
    ensures ValueLength(cs + ds) == ValueLength(cs) + ValueLength(ds)
  {
    if cs == [] {
      assert cs + ds == ds;
    } else {
      assert (cs + ds)[1..] == cs[1..] + ds;
      SerializeAppend(cs[1..], ds);
      assert Serialize(cs + ds) == Bytes(cs[0]) + (Serialize(cs[1..]) + Serialize(ds));
    }
  }

  lemma {:induction false} SerializeSize(cs: seq<Chunk>)
    requires forall c :: c in cs ==> WellFormed(c)
    ensures |Serialize(cs)| == 2 * |cs| + ValueLength(cs)
  {
    if cs != [] {
      assert WellFormed(cs[0]);
      SerializeSize(cs[1..]);
    }
  }

  /** Where a chunk lies in the binary form: behind the chunks before it, its tag, its length, its value. */
  lemma ChunkAt(cs: seq<Chunk>, k: nat)
    requires k < |cs| && WellFormed(cs[k])
    ensures var at, bs := |Serialize(cs[..k])|, Serialize(cs);
      at + 2 + cs[k].length <= |bs| && bs[at] == cs[k].tag && bs[at + 1] == cs[k].length &&
      bs[at + 2..at + 2 + cs[k].length] == cs[k].value
  {
    var rest := cs[k..];
    assert cs == cs[..k] + rest && rest[0] == cs[k];
    SerializeAppend(cs[..k], rest);
    ChunkFirst(Serialize(cs[..k]), cs[k], Serialize(rest[1..]));
    assert Serialize(cs) == Serialize(cs[..k]) + (Bytes(cs[k]) + Serialize(rest[1..]));
  }

  lemma ChunkFirst(before: seq<byte>, c: Chunk, after: seq<byte>)
    requires WellFormed(c)
    ensures var at, bs := |before|, before + (Bytes(c) + after);
      at + 2 + c.length <= |bs| && bs[at] == c.tag && bs[at + 1] == c.length && bs[at + 2..at + 2 + c.length] == c.value
  {
  }

  /** Parsing gives back every chunk: tags, lengths and values, in order. */
  lemma {:induction false} ParseSerialize(cs: seq<Chunk>)
    requires forall c :: c in cs ==> WellFormed(c)
    ensures Parse(Serialize(cs)) == Some(cs)
  {
    if cs != [] {
      var c, bs := cs[0], Serialize(cs);
      ParseSerialize(cs[1..]);
      var rest := Serialize(cs[1..]);
      var end := |Bytes(c)|;
      assert WellFormed(c);
      assert bs == Bytes(c) + rest && bs[1] == c.length;
      assert FirstEnd(bs) == Some(end);
      assert bs[end..] == rest;
      assert bs[2..end] == c.value;
      assert cs == [c] + cs[1..];
    }
  }

  /** Whatever parses is the serialisation of its chunks, so no two chunk lists share one. */
  lemma {:induction false} SerializeParse(bs: seq<byte>)
    requires Parse(bs).Some?
    ensures Serialize(Parse(bs).value) == bs
    ensures forall c :: c in Parse(bs).value ==> WellFormed(c)
    decreases |bs|
  {
    if bs != [] {
      var end := FirstEnd(bs).value;
      SerializeParse(bs[end..]);
      var cs := Parse(bs).value;
      assert cs[1..] == Parse(bs[end..]).value;
      assert bs == [bs[0], bs[1]] + bs[2..end] + bs[end..];
    }
  }

  // ---------- hexadecimal text ----------

  /** One digit of "%02x". */
  function Digit(n: nat): (c: char)
    requires n < 16
    ensures c as int == if n < 10 then '0' as int + n else 'a' as int + n - 10
    ensures DigitValue(c) == Some(n)
  {
    "0123456789abcdef"[n]
  }

  function DigitValue(c: char): (n: Option<nat>)
    ensures n.Some? ==> n.value < 16
  {
    if '0' <= c <= '9' then Some(c as int - '0' as int)
    else if 'a' <= c <= 'f' then Some(c as int - 'a' as int + 10)
    else None
  }

  function HexByte(b: byte): string {
    [Digit(b / 16), Digit(b % 16)]
  }

  function Hex(bs: seq<byte>): (s: string)
    ensures |s| == 2 * |bs|
  {
    if bs == [] then "" else HexByte(bs[0]) + Hex(bs[1..])
  }

  function Unhex(s: string): Option<seq<byte>>
    decreases |s|
  {
    if s == "" then Some([])
    else if |s| == 1 || DigitValue(s[0]).None? || DigitValue(s[1]).None? then None
    else
      var rest := Unhex(s[2..]);
      if rest.None? then None else Some([DigitValue(s[0]).value * 16 + DigitValue(s[1]).value] + rest.value)
  }

  lemma HexByteBack(b: byte)
    ensures DigitValue(Digit(b / 16)).value * 16 + DigitValue(Digit(b % 16)).value == b
  {
  }

  lemma {:induction false} UnhexHex(bs: seq<byte>)
    ensures Unhex(Hex(bs)) == Some(bs)
  {
    if bs != [] {
      UnhexHex(bs[1..]);
      var s := Hex(bs);
      assert s[2..] == Hex(bs[1..]);
      assert s[0] == Digit(bs[0] / 16) && s[1] == Digit(bs[0] % 16);
      HexByteBack(bs[0]);
      assert bs == [bs[0]] + bs[1..];
    }
  }

  /** Hex digits are read only in the form they are printed in. */
  lemma {:induction false} HexOfUnhex(s: string)
    requires Unhex(s).Some?
    ensures Hex(Unhex(s).value) == s
    decreases |s|
  {
    if s != "" {
      var rest, v, w := s[2..], DigitValue(s[0]).value, DigitValue(s[1]).value;
      HexOfUnhex(rest);
      assert Unhex(s).value == [v * 16 + w] + Unhex(rest).value;
      HexOfTwo(v, w, Unhex(rest).value);
      DigitBack(s[0]);
      DigitBack(s[1]);
      SplitTwo(s);
    }
  }

  lemma SplitTwo(s: string)
    requires |s| >= 2
    ensures s == [s[0], s[1]] + s[2..]
  {
  }

  lemma HexOfTwo(v: nat, w: nat, bs: seq<byte>)
    requires v < 16 && w < 16
    ensures Hex([v * 16 + w] + bs) == [Digit(v), Digit(w)] + Hex(bs)
  {
    var b := v * 16 + w;
    Nibbles(v, w);
    assert ([b] + bs)[1..] == bs;
    assert HexByte(b) == [Digit(v), Digit(w)];
  }

  lemma Nibbles(v: nat, w: nat)
    requires w < 16
    ensures (v * 16 + w) / 16 == v && (v * 16 + w) % 16 == w
  {
  }

  lemma DigitBack(c: char)
    requires DigitValue(c).Some?
    ensures Digit(DigitValue(c).value) == c
  {
  }

  /** The two digits of a byte, the high one first. */
  lemma {:induction false} HexAt(bs: seq<byte>, i: nat)
    requires i < |bs|
    ensures Hex(bs)[2 * i] == Digit(bs[i] / 16) && Hex(bs)[2 * i + 1] == Digit(bs[i] % 16)
  {
    if i > 0 {
      HexAt(bs[1..], i - 1);
      assert Hex(bs) == HexByte(bs[0]) + Hex(bs[1..]);
    }
  }

  lemma {:induction false} HexAppend(bs: seq<byte>, cs: seq<byte>)
    ensures Hex(bs + cs) == Hex(bs) + Hex(cs)
  {
    if bs == [] {
      assert bs + cs == cs;
    } else {
      assert (bs + cs)[1..] == bs[1..] + cs;
      HexAppend(bs[1..], cs);
    }
  }

  lemma HexSnoc(bs: seq<byte>, b: byte)
    ensures Hex(bs + [b]) == Hex(bs) + HexByte(b)
  {
    HexAppend(bs, [b]);
    assert [b][1..] == [];
  }

  /** Hex text contains no NUL and no markup. */
  lemma {:induction false} HexIsPlain(bs: seq<byte>)
    ensures '\0' !in Hex(bs) && '<' !in Hex(bs)
  {
    if bs != [] { HexIsPlain(bs[1..]); }
  }

  /** The text of a chunk list, back to the chunks. */
  function Decode(s: string): Option<seq<Chunk>> {
    var bs := Unhex(s);
    if bs.None? then None else Parse(bs.value)
  }

  /** A text that decodes is the text of its chunks. */
  lemma TextOfDecoded(s: string)
    requires Decode(s).Some?
    ensures Hex(Serialize(Decode(s).value)) == s
    ensures forall c :: c in Decode(s).value ==> WellFormed(c)
  {
    HexOfUnhex(s);
    SerializeParse(Unhex(s).value);
  }

  lemma DecodeText(cs: seq<Chunk>)
    requires forall c :: c in cs ==> WellFormed(c)
    ensures Decode(Hex(Serialize(cs))) == Some(cs)
  {
    UnhexHex(Serialize(cs));
    ParseSerialize(cs);
  }
}
