/** The table of incoming QoS 2 packet identifiers: a fixed array in which 0 marks a free slot. */
module Qos2Ids {

  /** The first position of `x`, or the length of the table. */
  function IndexOf(ids: seq<nat>, x: nat): (i: nat)
    ensures i <= |ids|
    ensures i < |ids| ==> ids[i] == x
    ensures x !in ids[..i]
  {
    if ids == [] || ids[0] == x then 0
    else
      var i := IndexOf(ids[1..], x) + 1;
      assert ids[..i] == [ids[0]] + ids[1..][..i - 1];
      i
  }

  /** isQoS2msgidFree. */
  predicate IsFree(ids: seq<nat>, id: nat) {
    IndexOf(ids, id) == |ids|
  }

  /** useQoS2msgid: whether there was room, and the table after it. */
  function Use(ids: seq<nat>, id: nat): (bool, seq<nat>) {
    var i := IndexOf(ids, 0);
    if i < |ids| then (true, ids[i := id]) else (false, ids)
  }

  /** freeQoS2msgid: clears one slot. */
  function Free(ids: seq<nat>, id: nat): (r: seq<nat>)
    ensures |r| == |ids|
  {
    var i := IndexOf(ids, id);
    if i < |ids| then ids[i := 0] else ids
  }

  /** No identifier is stored twice. */
  predicate Distinct(ids: seq<nat>) {
    forall i, j :: 0 <= i < j < |ids| && ids[i] == ids[j] ==> ids[i] == 0
  }

  /** The set the table stands for. */
  function Stored(ids: seq<nat>): set<nat> {
    set x | x in ids && x != 0
  }

  lemma FreeMeansAbsent(ids: seq<nat>, id: nat)
    ensures IsFree(ids, id) <==> id !in ids
    ensures id != 0 ==> (IsFree(ids, id) <==> id !in Stored(ids))
  {
    var i := IndexOf(ids, id);
    if i == |ids| { assert ids[..i] == ids; }
  }

  /** An absent identifier is inserted, unless every slot is taken. */
  lemma UseInserts(ids: seq<nat>, id: nat)
    requires Distinct(ids) && id != 0 && id !in ids
    ensures Distinct(Use(ids, id).1) && |Use(ids, id).1| == |ids|
    ensures Use(ids, id).0 <==> |Stored(ids)| < |ids|
    ensures Stored(Use(ids, id).1) == Stored(ids) + if Use(ids, id).0 then {id} else {}
  {
    var i := IndexOf(ids, 0);
    StoredSize(ids);
    if i < |ids| {
      var r := ids[i := id];
      forall x | x in Stored(ids) + {id} ensures x in Stored(r) {
        if x == id { assert r[i] == x; }
        else { var j :| 0 <= j < |ids| && ids[j] == x; assert r[j] == x; }
      }
    } else {
      assert ids[..i] == ids;
    }
  }

  /** Clearing one slot removes the identifier from the table. */
  lemma FreeRemoves(ids: seq<nat>, id: nat)
    requires Distinct(ids) && id != 0
    ensures Distinct(Free(ids, id)) && Stored(Free(ids, id)) == Stored(ids) - {id}
  {
    var i := IndexOf(ids, id);
    if i < |ids| {
      var r := ids[i := 0];
      forall x | x in Stored(ids) - {id} ensures x in Stored(r) {
        var j :| 0 <= j < |ids| && ids[j] == x;
        assert r[j] == x;
      }
    } else {
      assert ids[..i] == ids;
    }
  }

  /** A table without repetitions is full exactly when it stores as many identifiers as it has slots. */
  lemma {:induction false} StoredSize(ids: seq<nat>)
    requires Distinct(ids)
    ensures |Stored(ids)| <= |ids|
    ensures 0 in ids <==> |Stored(ids)| < |ids|
  {
    if ids != [] {
      var rest := ids[1..];
      StoredSize(rest);
      assert ids == [ids[0]] + rest;
      if ids[0] == 0 {
        assert Stored(ids) == Stored(rest);
      } else {
        assert Stored(ids) == Stored(rest) + {ids[0]};
        assert ids[0] !in rest;
      }
    }
  }
}
