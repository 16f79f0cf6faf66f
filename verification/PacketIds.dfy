/** Packet identifiers (section 2.3.1 of MQTT 3.1.1), handed out alike by both clients. */
module PacketIds {
  const MAX_PACKET_ID := 65535

  function Next(id: int): int {
    if id == MAX_PACKET_ID then 1 else id + 1
  }

  /** The n-th identifier handed out from a counter value. */
  function Nth(counter: int, n: nat): int {
    if n == 0 then counter else Next(Nth(counter, n - 1))
  }

  class PacketId {
    var next: int

    ghost predicate Valid()
      reads this
    {
      0 <= next <= MAX_PACKET_ID
    }

    constructor (start: int)
      requires 0 <= start <= MAX_PACKET_ID
      ensures Valid() && next == start
    {
      next := start;
    }

    method GetNext() returns (id: int)
      requires Valid()
      modifies this
      ensures Valid() && id == next == Next(old(next)) && 1 <= id
    {
      next := if next == MAX_PACKET_ID then 1 else next + 1;
      id := next;
    }
  }

  /** Closed form; the counter of a new mbed client is 0, of a new FreeRTOS client 1. */
  lemma {:induction false} NthClosedForm(counter: int, n: nat)
    requires 0 <= counter <= MAX_PACKET_ID && n > 0
    ensures Nth(counter, n) == (counter - 1 + n) % MAX_PACKET_ID + 1
    ensures 1 <= Nth(counter, n) <= MAX_PACKET_ID
  {
    if n == 1 {
      assert Nth(counter, 1) == Next(Nth(counter, 0)) == Next(counter);
    } else {
      NthClosedForm(counter, n - 1);
      var m := counter - 1 + (n - 1);
      assert (m + 1) % MAX_PACKET_ID == if m % MAX_PACKET_ID == MAX_PACKET_ID - 1 then 0 else m % MAX_PACKET_ID + 1;
    }
  }

  /** Two calls return the same identifier exactly when a multiple of 65535 calls lies between. */
  lemma NthRepeats(counter: int, i: nat, j: nat)
    requires 0 <= counter <= MAX_PACKET_ID && 0 < i <= j
    ensures Nth(counter, i) == Nth(counter, j) <==> (j - i) % MAX_PACKET_ID == 0
  {
    NthClosedForm(counter, i);
    NthClosedForm(counter, j);
    SameResidue(counter - 1 + i, j - i);
  }

  lemma SameResidue(a: int, d: nat)
    ensures (a + d) % MAX_PACKET_ID == a % MAX_PACKET_ID <==> d % MAX_PACKET_ID == 0
  {
    var q, r := a / MAX_PACKET_ID, a % MAX_PACKET_ID;
    var q', r' := d / MAX_PACKET_ID, d % MAX_PACKET_ID;
    assert a + d == MAX_PACKET_ID * (q + q') + (r + r');
  }

  /** Any 65535 consecutive identifiers are pairwise distinct. */
  lemma WindowDistinct(counter: int, i: nat, j: nat)
    requires 0 <= counter <= MAX_PACKET_ID && 0 < i < j < i + MAX_PACKET_ID
    ensures Nth(counter, i) != Nth(counter, j)
  {
    NthRepeats(counter, i, j);
  }
}
