/** Packet framing of the mbed MQTT client: sendPacket, decodePacket and readPacket. */
module Framing {
  import opened CTypes
  import opened ReturnCodes
  import opened RemainingLength
  import opened Collections

  /** A timer with a finite budget: every check may be the one that finds it expired. */
  class Timer {
    var left: nat

    constructor (budget: nat)
      ensures left == budget
    {
      left := budget;
    }

    method Expired() returns (expired: bool)
      modifies this
      ensures expired <==> old(left) == 0
      ensures left == if old(left) == 0 then 0 else old(left) - 1
    {
      expired := left == 0;
      if left > 0 { left := left - 1; }
    }
  }

  /** The socket. `readScript` and `writeScript` script the outcomes of the calls to come: a negative
      entry is an error, any other a limit on the bytes moved. With no script left a read
      delivers all it can and a write fails. */
  class Network {
    var input: seq<byte>
    var readScript: seq<int>
    var wire: seq<byte>
    var writeScript: seq<int>

    constructor (input: seq<byte>, readScript: seq<int>, writeScript: seq<int>)
      ensures this.input == input && this.readScript == readScript && this.writeScript == writeScript && wire == []
    {
      this.input, this.readScript, this.writeScript, this.wire := input, readScript, writeScript, [];
    }

    function ReadCount(n: nat): (rc: int)
      reads this
      ensures rc <= n && rc <= |input|
    {
      if readScript == [] then Min(n, |input|) else Min(readScript[0], Min(n, |input|))
    }

    method Read(buf: array<byte>, offset: nat, n: nat) returns (rc: int)
      requires offset + n <= buf.Length
      modifies this, buf
      ensures rc == old(ReadCount(n))
      ensures buf[..] == Splice(old(buf[..]), offset, old(input)[..Max(rc, 0)])
      ensures input == old(input)[Max(rc, 0)..]
      ensures readScript == if old(readScript) == [] then [] else old(readScript)[1..]
      ensures wire == old(wire) && writeScript == old(writeScript)
    {
      rc := ReadCount(n);
      var i := 0;
      while i < rc
        invariant 0 <= i <= Max(rc, 0)
        invariant buf[..] == Splice(old(buf[..]), offset, old(input)[..i])
        invariant input == old(input) && readScript == old(readScript) && wire == old(wire) && writeScript == old(writeScript)
      {
        SpliceGrow(old(buf[..]), offset, input[..i], input[i]);
        buf[offset + i] := input[i];
        assert input[..i] + [input[i]] == input[..i + 1];
        i := i + 1;
      }
      input := input[i..];
      readScript := if readScript == [] then [] else readScript[1..];
    }

    /** At most the requested bytes reach the wire; a negative result means an error. */
    method Write(buf: array<byte>, offset: nat, n: nat) returns (rc: int)
      requires offset + n <= buf.Length
      modifies this
      ensures rc <= n
      ensures wire == old(wire) + buf[offset..offset + Max(rc, 0)]
      ensures input == old(input) && readScript == old(readScript)
    {
      rc := if writeScript == [] then -1 else Min(writeScript[0], n);
      if writeScript != [] { writeScript := writeScript[1..]; }
      wire := wire + buf[offset..offset + Max(rc, 0)];
    }
  }

  /** `b` with `data` written at `offset`. */
  function Splice<T>(b: seq<T>, offset: nat, data: seq<T>): (r: seq<T>)
    requires offset + |data| <= |b|
    ensures |r| == |b|
  {
    b[..offset] + data + b[offset + |data|..]
  }

  lemma SpliceGrow<T>(b: seq<T>, offset: nat, data: seq<T>, x: T)
    requires offset + |data| < |b|
    ensures Splice(b, offset, data)[offset + |data| := x] == Splice(b, offset, data + [x])
  {
  }

  lemma OneMoreDigit(done: seq<byte>, rest: nat, d: byte, length: nat)
    requires done + Encode(rest) == Encode(length)
    requires d == rest % 128 + if rest / 128 > 0 then 128 else 0
    ensures |done| < |Encode(length)|
    ensures if rest / 128 == 0 then done + [d] == Encode(length) else (done + [d]) + Encode(rest / 128) == Encode(length)
  {
    assert Encode(rest) == if rest / 128 == 0 then [d] else [d] + Encode(rest / 128);
    Assoc(done, [d], Encode(rest / 128));
  }

  /** MQTTPacket_encode: write the remaining length at an offset of the buffer. */
  method EncodeLength(buf: array<byte>, offset: nat, length: nat) returns (rc: nat)
    requires offset + |Encode(length)| <= buf.Length
    modifies buf
    ensures rc == |Encode(length)| && buf[..] == Splice(old(buf[..]), offset, Encode(length))
  {
    rc := 0;
    var rest := length;
    ghost var done: seq<byte> := [];
    while true
      invariant done + Encode(rest) == Encode(length)
      invariant rc == |done| && offset + rc < buf.Length
      invariant buf[..] == Splice(old(buf[..]), offset, done)
      decreases rest
    {
      var d := rest % 128;
      ghost var before := rest;
      rest := rest / 128;
      if rest > 0 { d := d + 128; }
      SpliceGrow(old(buf[..]), offset, done, d);
      OneMoreDigit(done, before, d, length);
      ghost var was := buf[..];
      buf[offset + rc] := d;
      assert buf[..] == was[offset + rc := d];
      rc := rc + 1;
      done := done + [d];
      if rest == 0 { break; }
    }
  }

  /** What one call of readPacket does to a stream whose reads are never short. */
  datatype Reading = Reading(rc: int, packet: seq<byte>, rest: seq<byte>)

  function ReadOne(input: seq<byte>, size: nat): Reading {
    if input == [] then Reading(FAILURE, [], [])
    else
      var k := FieldLength(input[1..], MAX_LENGTH_BYTES);
      var remaining := Value(input[1..][..k]);
      var head := [input[0]] + Encode(remaining);
      var rest := input[1..][k..];
      if remaining > size - |head| then Reading(BUFFER_OVERFLOW, head, rest)
      else if |rest| < remaining then Reading(FAILURE, head, [])
      else Reading(input[0] / 16, head + rest[..remaining], rest[remaining..])
  }

  /** The buffers and the socket of the client. */
  class Transport {
    const ipstack: Network
    const sendbuf: array<byte>
    const readbuf: array<byte>

    constructor (network: Network, size: nat)
      requires size >= 1 + MAX_LENGTH_BYTES
      ensures ipstack == network && fresh(sendbuf) && fresh(readbuf)
      ensures sendbuf.Length == size && readbuf.Length == size && sendbuf != readbuf
    {
      ipstack := network;
      var s := new byte[size];
      var r := new byte[size];
      sendbuf, readbuf := s, r;
    }

    /** Whatever the writes do, the wire gains a prefix of the packet; the whole of it iff SUCCESS. */
    method SendPacket(length: nat, timer: Timer) returns (rc: int)
      requires length <= sendbuf.Length
      modifies ipstack, timer
      ensures rc == SUCCESS || rc == FAILURE
      ensures old(ipstack.wire) <= ipstack.wire <= old(ipstack.wire) + sendbuf[..length]
      ensures rc == SUCCESS <==> ipstack.wire == old(ipstack.wire) + sendbuf[..length]
      ensures ipstack.input == old(ipstack.input) && ipstack.readScript == old(ipstack.readScript)
    {
      rc := FAILURE;
      var sent := 0;
      while sent < length
        invariant 0 <= sent <= length
        invariant ipstack.wire == old(ipstack.wire) + sendbuf[..sent]
        invariant ipstack.input == old(ipstack.input) && ipstack.readScript == old(ipstack.readScript)
        decreases timer.left, length - sent
      {
        var expired := timer.Expired();
        if expired { break; }
        rc := ipstack.Write(sendbuf, sent, length - sent);
        if rc < 0 { break; }
        assert sendbuf[..sent] + sendbuf[sent..sent + rc] == sendbuf[..sent + rc];
        sent := sent + rc;
      }
      assert sendbuf[..sent] <= sendbuf[..length];
      rc := if sent == length then SUCCESS else FAILURE;
    }

    /** Reads the remaining length a byte at a time. `c` is the source's one-byte local. */
    method DecodePacket(c: array<byte>) returns (value: int32, len: int)
      requires c.Length == 1 && c != readbuf
      modifies ipstack, c
      ensures 0 <= value <= MAX_REMAINING_LENGTH && 1 <= len <= MAX_LENGTH_BYTES + 1
      ensures var k := |old(ipstack.input)| - |ipstack.input|;
        0 <= k <= MAX_LENGTH_BYTES && k <= len &&
        ipstack.input == old(ipstack.input)[k..] && value == Value(old(ipstack.input)[..k]) &&
        (old(ipstack.readScript) == [] ==> k == FieldLength(old(ipstack.input), MAX_LENGTH_BYTES))
      ensures old(ipstack.readScript) == [] ==> ipstack.readScript == []
      ensures ipstack.wire == old(ipstack.wire) && ipstack.writeScript == old(ipstack.writeScript)
    {
      ghost var input := ipstack.input;
      var multiplier: int32 := 1;
      value, len := 0, 0;
      Weights();
      while true
        invariant 0 <= len <= MAX_LENGTH_BYTES && len <= |input|
        invariant ipstack.input == input[len..] && multiplier == Weight(len)
        invariant value == Value(input[..len]) < multiplier
        invariant forall i :: 0 <= i < len ==> input[i] >= 128
        invariant old(ipstack.readScript) == [] ==> ipstack.readScript == []
        invariant ipstack.wire == old(ipstack.wire) && ipstack.writeScript == old(ipstack.writeScript)
        decreases MAX_LENGTH_BYTES - len
      {
        FieldLengthStep(input, len, MAX_LENGTH_BYTES);
        len := len + 1;
        if len > MAX_LENGTH_BYTES { break; }
        var rc := ipstack.Read(c, 0, 1);
        if rc != 1 { break; }
        assert c[0] == c[..][0] == input[len - 1];
        assert input[..len] == input[..len - 1] + [c[0]];
        ValueAppend(input[..len - 1], c[0]);
        ValueBound(input[..len]);
        SmallWeight(len);
        value := value + (c[0] % 128) * multiplier;
        multiplier := multiplier * 128;
        if c[0] < 128 { break; }
      }
    }

    /** The first two steps of readPacket: the header byte and the remaining length, which is put
        back into the buffer. `len` is 0 when there was no header byte to read. */
    method ReadFixedHeader() returns (value: int32, len: nat)
      requires readbuf.Length >= 1 + MAX_LENGTH_BYTES
      modifies ipstack, readbuf
      ensures 0 <= value <= MAX_REMAINING_LENGTH && len <= 1 + MAX_LENGTH_BYTES
      ensures ipstack.wire == old(ipstack.wire)
      ensures len > 0 ==> old(ipstack.input) != []
      ensures len > 0 ==> len == 1 + |Encode(value)| && old(ipstack.input)[..1] + Encode(value) <= readbuf[..]
      ensures old(ipstack.readScript) == [] ==> ipstack.readScript == []
      ensures old(ipstack.readScript) == [] && len == 0 ==> old(ipstack.input) == [] == ipstack.input
      ensures old(ipstack.readScript) == [] && len > 0 ==>
        var field := old(ipstack.input)[1..];
        var k := FieldLength(field, MAX_LENGTH_BYTES);
        value == Value(field[..k]) && ipstack.input == field[k..]
    {
      ghost var input := ipstack.input;
      value, len := 0, 0;
      var n := ipstack.Read(readbuf, 0, 1);
      if n != 1 { return; }
      assert input[..1] <= readbuf[..];
      var c := new byte[1];
      var count;
      value, count := DecodePacket(c);
      EncodeDecode(value);
      SplicePrefix(readbuf[..], input[..1], Encode(value));
      var encoded := EncodeLength(readbuf, 1, value);
      len := 1 + encoded;
    }

    /** The last step of readPacket: the rest of the packet, behind its header. */
    method ReadBody(len: nat, value: nat, ghost head: seq<byte>) returns (whole: bool)
      requires head <= readbuf[..] && |head| == len && len + value <= readbuf.Length
      modifies ipstack, readbuf
      ensures head <= readbuf[..] && ipstack.wire == old(ipstack.wire)
      ensures old(ipstack.readScript) == [] ==> ipstack.readScript == [] && (whole <==> |old(ipstack.input)| >= value)
      ensures old(ipstack.readScript) == [] && whole ==>
        head + old(ipstack.input)[..value] <= readbuf[..] && ipstack.input == old(ipstack.input)[value..]
      ensures old(ipstack.readScript) == [] && !whole ==> ipstack.input == []
    {
      if value == 0 {
        assert head + [] == head;
        return true;
      }
      ghost var before, input := readbuf[..], ipstack.input;
      var got := ipstack.Read(readbuf, len, value);
      whole := got == value;
      if whole { SplicePrefix(before, head, input[..value]); }
    }

    /** Reads one packet; returns its type, or a negative code. */
    method ReadPacket() returns (rc: int)
      requires readbuf.Length >= 1 + MAX_LENGTH_BYTES
      modifies ipstack, readbuf
      ensures rc == FAILURE || rc == BUFFER_OVERFLOW || 0 <= rc < 16
      ensures ipstack.wire == old(ipstack.wire)
      ensures old(ipstack.readScript) == [] ==> ipstack.readScript == []
      ensures old(ipstack.readScript) == [] ==>
        Reads(ReadOne(old(ipstack.input), readbuf.Length), rc, readbuf[..], ipstack.input)
    {
      ghost var input := ipstack.input;
      var value, len := ReadFixedHeader();
      if len == 0 { return FAILURE; }
      ghost var head, rest := input[..1] + Encode(value), ipstack.input;
      ghost var r := ReadOne(input, readbuf.Length);
      assert old(ipstack.readScript) == [] ==> ReadOneBody(r, input[0], head, rest, value, readbuf.Length);
      if value > readbuf.Length - len { return BUFFER_OVERFLOW; }
      var whole := ReadBody(len, value, head);
      if !whole { return FAILURE; }
      assert readbuf[0] == readbuf[..][0] == head[0];
      rc := readbuf[0] / 16;
    }
  }

  /** The code returned, the start of the buffer and the bytes still unread are those of `r`. */
  predicate Reads(r: Reading, rc: int, buffer: seq<byte>, input: seq<byte>) {
    rc == r.rc && input == r.rest && r.packet <= buffer
  }

  /** Writing right behind a prefix extends it. */
  lemma SplicePrefix<T>(b: seq<T>, prefix: seq<T>, data: seq<T>)
    requires prefix <= b && |prefix| + |data| <= |b|
    ensures prefix + data <= Splice(b, |prefix|, data)
  {
  }

  /** The last step of `ReadOne`, in terms of what the first two have established. */
  predicate ReadOneBody(r: Reading, header: byte, head: seq<byte>, rest: seq<byte>, remaining: nat, size: nat) {
    if remaining > size - |head| then r == Reading(BUFFER_OVERFLOW, head, rest)
    else if |rest| < remaining then r == Reading(FAILURE, head, [])
    else r == Reading(header / 16, head + rest[..remaining], rest[remaining..])
  }

  lemma SmallWeight(k: nat)
    requires k <= 4
    ensures Weight(k) <= MAX_REMAINING_LENGTH + 1
  {
    Weights();
  }

  // ---------- frame synchronisation ----------

  /** A packet as a peer may send it: any length field of the right value, not only the minimal one. */
  datatype Frame = Frame(header: byte, field: seq<byte>, body: seq<byte>)

  predicate ValidFrame(f: Frame) {
    IsLengthField(f.field) && Value(f.field) == |f.body|
  }

  function Sent(f: Frame): seq<byte> {
    [f.header] + f.field + f.body
  }

  function Stored(f: Frame): seq<byte> {
    [f.header] + Encode(|f.body|) + f.body
  }

  function Stream(fs: seq<Frame>): seq<byte> {
    if fs == [] then [] else Sent(fs[0]) + Stream(fs[1..])
  }

  /** One call takes exactly one frame and stops at the next one's first byte; a frame too long for
      the buffer leaves its body in the stream, to be read as if it were a packet. */
  lemma ReadOneFrame(f: Frame, rest: seq<byte>, size: nat)
    requires ValidFrame(f)
    ensures |Stored(f)| <= size ==> ReadOne(Sent(f) + rest, size) == Reading(f.header / 16, Stored(f), rest)
    ensures |Stored(f)| > size ==>
      ReadOne(Sent(f) + rest, size) == Reading(BUFFER_OVERFLOW, [f.header] + Encode(|f.body|), f.body + rest)
  {
    var input := Sent(f) + rest;
    assert input[1..] == f.field + (f.body + rest);
    FieldLengthOf(f.field, f.body + rest, MAX_LENGTH_BYTES);
    assert input[1..][..|f.field|] == f.field;
    assert input[1..][|f.field|..] == f.body + rest;
    assert (f.body + rest)[..|f.body|] == f.body && (f.body + rest)[|f.body|..] == rest;
  }

  /** A stream that ends inside the body of a frame that would fit: the call fails and has used it up. */
  lemma EndsInBody(f: Frame, k: nat, size: nat)
    requires ValidFrame(f) && |Stored(f)| <= size && 1 + |f.field| <= k < |Sent(f)|
    ensures ReadOne(Sent(f)[..k], size).rc == FAILURE && ReadOne(Sent(f)[..k], size).rest == []
  {
    var body := f.body[..k - 1 - |f.field|];
    assert Sent(f)[..k] == [f.header] + (f.field + body);
    var input := [f.header] + (f.field + body);
    assert input[1..] == f.field + body;
    FieldLengthOf(f.field, body, MAX_LENGTH_BYTES);
    assert input[1..][..|f.field|] == f.field && input[1..][|f.field|..] == body;
  }

  /** A stream that ends inside the length field: the bytes read so far count as the length, so the call
      fails unless they are all zero but for their top bits; then it returns the type of an empty packet. */
  lemma EndsInLength(header: byte, field: seq<byte>, size: nat)
    requires |field| < MAX_LENGTH_BYTES && forall i :: 0 <= i < |field| ==> field[i] >= 128
    requires 1 + |Encode(Value(field))| + Value(field) <= size
    ensures ReadOne([header] + field, size).rc == if Value(field) == 0 then header / 16 else FAILURE
    ensures ReadOne([header] + field, size).rest == []
  {
    var input := [header] + field;
    assert input[1..] == field;
    FieldLengthStep(field, |field|, MAX_LENGTH_BYTES);
    assert field[..|field|] == field && field[|field|..] == [];
  }

  /** The k-th call of readPacket on a stream. */
  function ReadNth(input: seq<byte>, size: nat, k: nat): Reading
    decreases k
  {
    var r := ReadOne(input, size);
    if k == 0 then r else ReadNth(r.rest, size, k - 1)
  }

  /** On a stream of frames that fit, call k returns frame k and leaves the frames after it. */
  lemma {:induction false} FrameSynchronisation(fs: seq<Frame>, tail: seq<byte>, size: nat, k: nat)
    requires k < |fs|
    requires forall i :: 0 <= i < |fs| ==> ValidFrame(fs[i]) && |Stored(fs[i])| <= size
    ensures ReadNth(Stream(fs) + tail, size, k) ==
            Reading(fs[k].header / 16, Stored(fs[k]), Stream(fs[k + 1..]) + tail)
  {
    assert Stream(fs) + tail == Sent(fs[0]) + (Stream(fs[1..]) + tail);
    ReadOneFrame(fs[0], Stream(fs[1..]) + tail, size);
    if k > 0 {
      FrameSynchronisation(fs[1..], tail, size, k - 1);
      assert fs[1..][k..] == fs[k + 1..];
    }
  }
}
