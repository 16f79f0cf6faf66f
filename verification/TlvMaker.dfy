/** Building a TLV instance: chunks on a ring list, serialised to hex on demand and cached. */
module TlvMaker {
  import opened CTypes
  import opened TlvCodec
  import RingList

  const USHORT := 65536

  /** A chunk object; an empty `mValue` stands for a null pointer or an empty value. */
  class TlvChunk {
    var mTag: byte
    var mLength: byte
    var mValue: seq<byte>

    ghost function Snapshot(): Chunk
      reads this
    {
      Chunk(mTag, mLength, mValue)
    }

    /** CreateChunk. */
    constructor ()
      ensures Snapshot() == Chunk(0, 0, []) && WellFormed(Snapshot())
    {
      mTag, mLength, mValue := 0, 0, [];
    }

    /** SetChunk copies `length` bytes of the value. */
    method Set(tag: byte, length: byte, value: seq<byte>)
      requires length <= |value|
      modifies this
      ensures Snapshot() == Chunk(tag, length, value[..length]) && WellFormed(Snapshot())
    {
      mTag, mLength, mValue := tag, length, value[..length];
    }
  }

  /** The counters of a chunk list are true, up to the width of an unsigned short. */
  predicate Tallied(cs: seq<Chunk>, count: int, valueLength: int) {
    (forall c :: c in cs ==> WellFormed(c)) && count == |cs| % USHORT && valueLength == ValueLength(cs) % USHORT
  }

  lemma TallyPush(cs: seq<Chunk>, c: Chunk, count: int, valueLength: int)
    requires Tallied(cs, count, valueLength) && WellFormed(c)
    ensures Tallied(cs + [c], (count + 1) % USHORT, (valueLength + c.length) % USHORT)
  {
    CountersOfPush(cs, c);
  }

  lemma TallyPop(cs: seq<Chunk>, c: Chunk, count: int, valueLength: int)
    requires Tallied(cs + [c], count, valueLength)
    ensures Tallied(cs, (count - 1) % USHORT, (valueLength - c.length) % USHORT)
  {
    CountersOfPush(cs, c);
    assert forall d :: d in cs ==> d in cs + [c];
  }

  class TlvContext {
    const mTLVList: RingList.DMList<TlvChunk>
    var mCount: int
    var mValueLength: int
    var mInstance: array?<char>
    var mUpdate: bool

    ghost function Chunks(): (cs: seq<Chunk>)
      reads mTLVList, mTLVList.nodes, mTLVList.Contents()
      ensures |cs| == |mTLVList.Contents()|
    {
      var objects := mTLVList.Contents();
      seq(|objects|, i requires 0 <= i < |objects| reads objects => objects[i].Snapshot())
    }

    ghost predicate Fits()
      reads mTLVList, mTLVList.nodes, mTLVList.Contents()
    {
      |Chunks()| < USHORT && ValueLength(Chunks()) < USHORT
    }

    /** A clean cache holds the text of the current chunks, or nothing while there are none. */
    ghost predicate CacheAgrees()
      reads this, mInstance, mTLVList, mTLVList.nodes, mTLVList.Contents()
    {
      !mUpdate ==>
        if mInstance == null then Chunks() == []
        else Fits() && mInstance[..] == Hex(Serialize(Chunks())) + "\0"
    }

    ghost predicate Valid()
      reads this, mInstance, mTLVList, mTLVList.nodes, mTLVList.Contents()
    {
      mTLVList.Valid() && Tallied(Chunks(), mCount, mValueLength) && CacheAgrees()
    }

    /** CreateTLV. */
    constructor ()
      ensures Valid() && Chunks() == [] && !mUpdate && mInstance == null && fresh(mTLVList)
    {
      mCount, mValueLength, mInstance, mUpdate := 0, 0, null, false;
      mTLVList := new RingList.DMList<TlvChunk>();
    }

    /** Both counters, and the mark that the instance is stale. */
    method Recount(chunks: int, bytes: int)
      modifies this`mCount, this`mValueLength, this`mUpdate
      ensures mCount == (old(mCount) + chunks) % USHORT && mValueLength == (old(mValueLength) + bytes) % USHORT
      ensures mUpdate
    {
      mCount := (mCount + chunks) % USHORT;
      mValueLength := (mValueLength + bytes) % USHORT;
      mUpdate := true;
    }

    /** The list's part of PushChunk. */
    method Append(chunk: TlvChunk)
      requires mTLVList.Valid()
      modifies mTLVList, mTLVList.nodes
      ensures mTLVList.Valid() && mTLVList.Contents() == old(mTLVList.Contents()) + [chunk]
      ensures Chunks() == old(Chunks()) + [chunk.Snapshot()]
      ensures |mTLVList.nodes| == |old(mTLVList.nodes)| + 1 && fresh(mTLVList.nodes[|old(mTLVList.nodes)|])
      ensures mTLVList.nodes[..|old(mTLVList.nodes)|] == old(mTLVList.nodes)
    {
      mTLVList.Add(chunk);
      assert Chunks() == old(Chunks()) + [chunk.Snapshot()];
    }

    /** PushChunk. */
    method Push(chunk: TlvChunk)
      requires Valid() && WellFormed(chunk.Snapshot())
      modifies this, mTLVList, mTLVList.nodes
      ensures Valid() && mUpdate && Chunks() == old(Chunks()) + [chunk.Snapshot()]
      ensures mTLVList.Contents() == old(mTLVList.Contents()) + [chunk]
      ensures |mTLVList.nodes| == |old(mTLVList.nodes)| + 1 && fresh(mTLVList.nodes[|old(mTLVList.nodes)|])
      ensures mTLVList.nodes[..|old(mTLVList.nodes)|] == old(mTLVList.nodes)
      ensures mInstance == old(mInstance)
    {
      TallyPush(Chunks(), chunk.Snapshot(), mCount, mValueLength);
      Append(chunk);
      Recount(1, chunk.mLength);
    }

    /** The list's part of PopChunk. */
    method TakeLast() returns (chunk: TlvChunk)
      requires mTLVList.Valid() && mTLVList.count > 0
      modifies mTLVList, mTLVList.nodes
      ensures mTLVList.Valid() && Chunks() + [chunk.Snapshot()] == old(Chunks())
      ensures mTLVList.Contents() + [chunk] == old(mTLVList.Contents())
    {
      var node := mTLVList.Remove();
      chunk := node.data;
      assert Chunks() + [chunk.Snapshot()] == old(Chunks());
    }

    /** PopChunk; null on an empty list. */
    method Pop() returns (chunk: TlvChunk?)
      requires Valid()
      modifies this, mTLVList, mTLVList.nodes
      ensures Valid() && (chunk == null <==> old(Chunks()) == [])
      ensures chunk == null ==> Chunks() == [] && mUpdate == old(mUpdate)
      ensures chunk != null ==> mUpdate && Chunks() + [chunk.Snapshot()] == old(Chunks())
      ensures mInstance == old(mInstance)
    {
      if mTLVList.count == 0 { return null; }
      chunk := TakeLast();
      TallyPop(Chunks(), chunk.Snapshot(), mCount, mValueLength);
      var length: int := chunk.mLength;
      Recount(-1, -length);
    }

    /** MakeTLV. An empty list leaves everything as it is, an old instance included. */
    method Make()
      requires Valid() && Fits()
      modifies this
      ensures Valid() && Chunks() == old(Chunks()) && mTLVList.Contents() == old(mTLVList.Contents())
      ensures Chunks() == [] ==> mUpdate == old(mUpdate) && mInstance == old(mInstance)
      ensures Chunks() != [] ==> !mUpdate && mInstance != null && fresh(mInstance)
    {
      if mTLVList.count == 0 { return; }
      SizeFromCounters(Chunks());
      var instanceHex := Build(mCount * 2 + mValueLength);
      mInstance := instanceHex;
      mUpdate := false;
    }

    /** The two buffers of MakeTLV: the binary form, then its hex text. */
    method Build(instanceLength: nat) returns (instanceHex: array<char>)
      requires Valid() && mTLVList.count > 0 && instanceLength == |Serialize(Chunks())|
      ensures fresh(instanceHex) && instanceHex[..] == Hex(Serialize(Chunks())) + "\0"
    {
      var instanceBinary := new byte[instanceLength];
      Fill(instanceBinary);
      instanceHex := ToHex(instanceBinary);
    }

    /** The do-while loop: every chunk into the binary buffer, in list order. */
    method Fill(instanceBinary: array<byte>)
      requires Valid() && mTLVList.count > 0 && instanceBinary.Length == |Serialize(Chunks())|
      modifies instanceBinary
      ensures instanceBinary[..] == Serialize(Chunks())
    {
      ghost var cs := Chunks();
      var pos: nat := 0;
      var node := mTLVList.head;
      ghost var k := 0;
      while true
        invariant 0 <= k < |cs| && node == mTLVList.nodes[k]
        invariant pos <= instanceBinary.Length
        invariant instanceBinary[..pos] + Serialize(cs[k..]) == Serialize(cs)
        decreases |cs| - k
      {
        var chunk := node.data;
        assert chunk.Snapshot() == cs[k] by { assert mTLVList.Contents()[k] == chunk; }
        assert WellFormed(cs[k]);
        SerializeHead(instanceBinary[..pos], cs, k);
        pos := WriteChunk(chunk, instanceBinary, pos);
        node := node.next;
        k := k + 1;
        if node == mTLVList.head { break; }
      }
      assert cs[k..] == [];
      assert instanceBinary[..pos] == instanceBinary[..];
    }

    /** GetTLVSize. */
    method GetSize() returns (size: int)
      requires Valid()
      ensures size == if mUpdate then 0 else |Hex(Serialize(Chunks()))|
      ensures !mUpdate && mInstance != null ==> |mInstance[..]| == size + 1
    {
      if mUpdate { return 0; }
      SizeFromCounters(Chunks());
      size := 2 * (mCount * 2 + mValueLength);
    }

    /** DestroyTLV: the list releases every chunk object pushed and not popped, once each. */
    method Destroy() returns (released: seq<TlvChunk>)
      requires Valid()
      modifies this, mTLVList
      ensures released == old(mTLVList.Contents())
    {
      ghost var freed;
      released, freed := mTLVList.Close();
    }
  }

  lemma SerializeHead(done: seq<byte>, cs: seq<Chunk>, k: nat)
    requires k < |cs|
    ensures done + Serialize(cs[k..]) == done + Bytes(cs[k]) + Serialize(cs[k + 1..])
  {
    assert cs[k..][1..] == cs[k + 1..];
  }

  /** Tag, length and value of one chunk, written behind what is already there. */
  method WriteChunk(chunk: TlvChunk, buf: array<byte>, start: nat) returns (pos: nat)
    requires WellFormed(chunk.Snapshot()) && start + |Bytes(chunk.Snapshot())| <= buf.Length
    modifies buf
    ensures pos <= buf.Length && buf[..pos] == old(buf[..start]) + Bytes(chunk.Snapshot())
  {
    ghost var done := buf[..start];
    pos := start;
    buf[pos] := chunk.mTag;
    pos := pos + 1;
    buf[pos] := chunk.mLength;
    pos := pos + 1;
    assert buf[..pos] == done + [chunk.mTag, chunk.mLength];
    var i := 0;
    while i < chunk.mLength
      invariant 0 <= i <= chunk.mLength && pos == start + 2 + i
      invariant buf[..pos] == done + [chunk.mTag, chunk.mLength] + chunk.mValue[..i]
    {
      buf[pos] := chunk.mValue[i];
      pos := pos + 1;
      i := i + 1;
    }
    assert buf[..pos] == done + Bytes(chunk.Snapshot());
  }

  lemma SizeFromCounters(cs: seq<Chunk>)
    requires forall c :: c in cs ==> WellFormed(c)
    ensures |cs| < USHORT && ValueLength(cs) < USHORT ==>
      (|cs| % USHORT) * 2 + ValueLength(cs) % USHORT == |Serialize(cs)|
    ensures cs == [] ==> (|cs| % USHORT) * 2 + ValueLength(cs) % USHORT == 0
  {
    SerializeSize(cs);
  }

  /** Counters modulo 65536 going up with a push, and down again with a pop. */
  lemma CountersOfPush(cs: seq<Chunk>, c: Chunk)
    ensures |cs + [c]| % USHORT == (|cs| % USHORT + 1) % USHORT
    ensures ValueLength(cs + [c]) % USHORT == (ValueLength(cs) % USHORT + c.length) % USHORT
    ensures |cs| % USHORT == (|cs + [c]| % USHORT - 1) % USHORT
    ensures ValueLength(cs) % USHORT == (ValueLength(cs + [c]) % USHORT - c.length) % USHORT
  {
    SerializeAppend(cs, [c]);
    assert [c][1..] == [];
    assert ValueLength([c]) == c.length;
    ModUpAndDown(|cs|, 1);
    ModUpAndDown(ValueLength(cs), c.length);
  }

  lemma ModUpAndDown(n: nat, d: nat)
    ensures (n + d) % USHORT == (n % USHORT + d) % USHORT && n % USHORT == ((n + d) % USHORT - d) % USHORT
  {
  }

  /** The second loop of MakeTLV: two digits and a terminator for every byte. */
  method ToHex(binary: array<byte>) returns (hex: array<char>)
    requires binary.Length > 0
    ensures fresh(hex) && hex[..] == Hex(binary[..]) + "\0"
  {
    hex := new char[2 * binary.Length + 1];
    for i := 0 to binary.Length
      invariant hex[..2 * i] == Hex(binary[..i])
      invariant i > 0 ==> hex[2 * i] == '\0'
    {
      PutHex(hex, 2 * i, binary[i]);
      HexSnoc(binary[..i], binary[i]);
      assert binary[..i + 1] == binary[..i] + [binary[i]];
    }
    assert binary[..binary.Length] == binary[..];
  }

  /** snprintf of one byte with "%02x". */
  method PutHex(hex: array<char>, at: nat, b: byte)
    requires at + 2 < hex.Length
    modifies hex
    ensures hex[..at + 2] == old(hex[..at]) + HexByte(b) && hex[at + 2] == '\0'
  {
    hex[at] := Digit(b / 16);
    hex[at + 1] := Digit(b % 16);
    hex[at + 2] := '\0';
  }
}
