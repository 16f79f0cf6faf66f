/** The Remaining Length field of an MQTT fixed header (section 2.2.3 of MQTT 3.1.1). */
module RemainingLength {
  import opened CTypes

  const MAX_REMAINING_LENGTH := 268_435_455
  const MAX_LENGTH_BYTES := 4

  /** The section 2.2.3 encoder: seven bits a byte, the top bit set when more follow. */
  function Encode(n: nat): seq<byte> {
    if n < 128 then [n] else [n % 128 + 128] + Encode(n / 128)
  }

  /** The number a run of length bytes stands for. */
  function Value(bs: seq<byte>): nat {
    if bs == [] then 0 else bs[0] % 128 + 128 * Value(bs[1..])
  }

  /** One to four bytes, of which exactly the last has a clear top bit. */
  predicate IsLengthField(bs: seq<byte>) {
    1 <= |bs| <= MAX_LENGTH_BYTES && bs[|bs| - 1] < 128 &&
    forall i :: 0 <= i < |bs| - 1 ==> bs[i] >= 128
  }

  /** 128 to the power k. */
  function Weight(k: nat): (w: nat)
    ensures w > 0
  {
    if k == 0 then 1 else 128 * Weight(k - 1)
  }

  lemma {:induction false} ValueAppend(bs: seq<byte>, b: byte)
    ensures Value(bs + [b]) == Value(bs) + (b % 128) * Weight(|bs|)
  {
    if bs == [] {
      assert [b][1..] == [];
    } else {
      assert (bs + [b])[1..] == bs[1..] + [b];
      ValueAppend(bs[1..], b);
      var w := Weight(|bs| - 1);
      assert (b % 128) * Weight(|bs|) == 128 * ((b % 128) * w);
    }
  }

  lemma {:induction false} ValueBound(bs: seq<byte>)
    ensures Value(bs) < Weight(|bs|)
  {
    if bs != [] { ValueBound(bs[1..]); }
  }

  lemma Weights()
    ensures Weight(1) == 128 && Weight(2) == 16_384 && Weight(3) == 2_097_152
    ensures Weight(4) == MAX_REMAINING_LENGTH + 1
  {
    assert Weight(0) == 1;
    assert Weight(1) == 128 * Weight(0);
    assert Weight(2) == 128 * Weight(1);
    assert Weight(3) == 128 * Weight(2);
    assert Weight(4) == 128 * Weight(3);
  }

  /** The encoding is a length field for its own number. */
  lemma {:induction false} EncodeIsField(n: nat, k: nat)
    requires n < Weight(k) && k > 0
    ensures |Encode(n)| <= k && Value(Encode(n)) == n
    ensures Encode(n)[|Encode(n)| - 1] < 128
    ensures forall i :: 0 <= i < |Encode(n)| - 1 ==> Encode(n)[i] >= 128
  {
    if n < 128 {
      assert [n][1..] == [];
    } else {
      assert k > 1 by { if k == 1 { Weights(); } }
      EncodeIsField(n / 128, k - 1);
      assert Encode(n)[1..] == Encode(n / 128);
      forall i | 0 <= i < |Encode(n)| - 1 ensures Encode(n)[i] >= 128 {
        if i > 0 { assert Encode(n)[i] == Encode(n / 128)[i - 1]; }
      }
    }
  }

  /** Every number in range survives encoding and decoding, in at most four bytes. */
  lemma EncodeDecode(n: nat)
    requires n <= MAX_REMAINING_LENGTH
    ensures IsLengthField(Encode(n)) && Value(Encode(n)) == n
  {
    Weights();
    EncodeIsField(n, 4);
  }

  /** No length field for the same number is shorter than the encoding. */
  lemma {:induction false} EncodeIsMinimal(bs: seq<byte>)
    requires IsLengthField(bs)
    ensures Value(bs) <= MAX_REMAINING_LENGTH && |Encode(Value(bs))| <= |bs|
  {
    ValueBound(bs);
    Weights();
    EncodeIsField(Value(bs), |bs|);
  }

  /** The bounds of one to four bytes (table 2.4 of MQTT 3.1.1). */
  lemma EncodingTable()
    ensures Encode(0) == [0x00] && Encode(127) == [0x7F]
    ensures Encode(128) == [0x80, 0x01] && Encode(16_383) == [0xFF, 0x7F]
    ensures Encode(16_384) == [0x80, 0x80, 0x01] && Encode(2_097_151) == [0xFF, 0xFF, 0x7F]
    ensures Encode(2_097_152) == [0x80, 0x80, 0x80, 0x01] && Encode(MAX_REMAINING_LENGTH) == [0xFF, 0xFF, 0xFF, 0x7F]
  {
    assert Encode(16_383 / 128) == [0x7F] && Encode(16_384 / 128) == [0x80, 0x01];
    assert Encode(2_097_151 / 128) == [0xFF, 0x7F] && Encode(2_097_152 / 128) == [0x80, 0x80, 0x01];
    assert Encode(MAX_REMAINING_LENGTH / 128) == [0xFF, 0xFF, 0x7F];
  }

  /** How many bytes the decoding loop takes when every read succeeds. */
  function FieldLength(input: seq<byte>, budget: nat): (k: nat)
    ensures k <= |input| && k <= budget
  {
    if budget == 0 || input == [] then 0
    else if input[0] < 128 then 1
    else 1 + FieldLength(input[1..], budget - 1)
  }

  lemma {:induction false} FieldLengthOf(bs: seq<byte>, rest: seq<byte>, budget: nat)
    requires 1 <= |bs| <= budget && bs[|bs| - 1] < 128
    requires forall i :: 0 <= i < |bs| - 1 ==> bs[i] >= 128
    ensures FieldLength(bs + rest, budget) == |bs|
  {
    if |bs| > 1 {
      assert (bs + rest)[1..] == bs[1..] + rest;
      FieldLengthOf(bs[1..], rest, budget - 1);
    }
  }

  /** Stopping in front of a byte the loop has not read. */
  lemma {:induction false} FieldLengthStep(input: seq<byte>, k: nat, budget: nat)
    requires k <= |input| && k <= budget
    requires forall i :: 0 <= i < k ==> input[i] >= 128
    ensures k == budget || k == |input| ==> FieldLength(input, budget) == k
    ensures k < budget && k < |input| && input[k] < 128 ==> FieldLength(input, budget) == k + 1
  {
    if k > 0 { FieldLengthStep(input[1..], k - 1, budget - 1); }
  }
}
