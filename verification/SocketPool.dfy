/** Socket allocation: a bit per socket and a pool of three buffer blocks. */
module SocketPool {
  import opened Collections

  const SOCKETS := 8
  const BLOCKS := 3

  /** `1 << i` in an unsigned char; a ninth bit falls off. */
  function Bit(i: nat): bv8 {
    if i == 0 then 1 else Bit(i - 1) << 1
  }

  predicate IsSet(status: bv8, i: nat) {
    status & Bit(i) != 0
  }

  lemma Bits()
    ensures Bit(0) == 0x01 && Bit(1) == 0x02 && Bit(2) == 0x04 && Bit(3) == 0x08
    ensures Bit(4) == 0x10 && Bit(5) == 0x20 && Bit(6) == 0x40 && Bit(7) == 0x80
  {
    assert Bit(3) == 0x08;
    assert Bit(6) == 0x40;
  }

  lemma SetBit(status: bv8, i: nat, j: nat)
    requires i < SOCKETS && j < SOCKETS
    ensures IsSet(status | Bit(i), j) <==> IsSet(status, j) || i == j
  {
    Bits();
  }

  lemma ClearBit(status: bv8, i: nat, j: nat)
    requires i < SOCKETS && j < SOCKETS
    ensures IsSet(status & !Bit(i), j) <==> IsSet(status, j) && i != j
  {
    Bits();
  }

  /** The sockets marked as taken. */
  ghost function Marked(status: bv8): set<nat> {
    set i | 0 <= i < SOCKETS && IsSet(status, i)
  }

  lemma BitClear(status: bv8, i: nat)
    requires i < SOCKETS
    ensures status & Bit(i) == 0 <==> i !in Marked(status)
  {
  }

  lemma MarkOne(status: bv8, i: nat)
    requires i < SOCKETS
    ensures Marked(status | Bit(i)) == Marked(status) + {i}
  {
    forall j | 0 <= j < SOCKETS
      ensures IsSet(status | Bit(i), j) <==> IsSet(status, j) || i == j
    {
      SetBit(status, i, j);
    }
  }

  lemma UnmarkOne(status: bv8, i: nat)
    requires i < SOCKETS
    ensures Marked(status & !Bit(i)) == Marked(status) - {i}
  {
    forall j | 0 <= j < SOCKETS
      ensures IsSet(status & !Bit(i), j) <==> IsSet(status, j) && i != j
    {
      ClearBit(status, i, j);
    }
  }

  /** A socket is taken exactly when a holder has its number, and no two holders have the same. */
  ghost predicate Assigned<H>(numbers: map<H, nat>, taken: set<nat>) {
    (forall i :: i in taken <==> exists b :: b in numbers && numbers[b] == i) &&
    (forall b, c :: b in numbers && c in numbers && b != c ==> numbers[b] != numbers[c])
  }

  lemma NumberIsTaken<H>(numbers: map<H, nat>, status: bv8, b: H)
    requires Mirrors(numbers, status) && b in numbers
    ensures numbers[b] in Marked(status) && numbers[b] < SOCKETS
  {
    var i := numbers[b];
    assert i in Marked(status);
  }

  lemma AssignedOneMore<H>(numbers: map<H, nat>, taken: set<nat>, b: H, i: nat)
    requires Assigned(numbers, taken) && b !in numbers && i !in taken
    ensures Assigned(numbers[b := i], taken + {i})
  {
    var more := numbers[b := i];
    assert b in more && more[b] == i;
    forall j | j in taken
      ensures exists c :: c in more && more[c] == j
    {
      var c :| c in numbers && numbers[c] == j;
      assert c in more && more[c] == j;
    }
  }

  lemma AssignedOneLess<H>(numbers: map<H, nat>, taken: set<nat>, b: H)
    requires Assigned(numbers, taken) && b in numbers
    ensures Assigned(numbers - {b}, taken - {numbers[b]})
  {
    var less := numbers - {b};
    forall j | j in taken - {numbers[b]}
      ensures exists c :: c in less && less[c] == j
    {
      var c :| c in numbers && numbers[c] == j;
      assert c in less && less[c] == j;
    }
  }

  /** The bits say which numbers are taken. */
  ghost predicate Mirrors<H>(numbers: map<H, nat>, status: bv8) {
    Assigned(numbers, Marked(status))
  }

  lemma MirrorsOneMore<H>(numbers: map<H, nat>, status: bv8, b: H, i: nat)
    requires Mirrors(numbers, status) && b !in numbers && i < SOCKETS && i !in Marked(status)
    ensures var more, after := numbers[b := i], status | Bit(i); Mirrors(more, after)
  {
    MarkOne(status, i);
    AssignedOneMore(numbers, Marked(status), b, i);
  }

  lemma MirrorsOneLess<H>(numbers: map<H, nat>, status: bv8, b: H)
    requires Mirrors(numbers, status) && b in numbers
    ensures numbers[b] < SOCKETS && Mirrors(numbers - {b}, status & !Bit(numbers[b]))
  {
    NumberIsTaken(numbers, status, b);
    UnmarkOne(status, numbers[b]);
    AssignedOneLess(numbers, Marked(status), b);
  }

  /** Fewer than three holders leave one of the first three sockets free. */
  lemma FreeSocketExists<H>(numbers: map<H, nat>, taken: set<nat>) returns (k: nat)
    requires Assigned(numbers, taken) && |numbers| < BLOCKS
    ensures k < BLOCKS && k !in taken
  {
    if {0, 1, 2} <= taken {
      ThreeHolders(numbers, taken);
    }
    k :| k in {0, 1, 2} && k !in taken;
  }

  lemma ThreeHolders<H>(numbers: map<H, nat>, taken: set<nat>)
    requires Assigned(numbers, taken) && 0 in taken && 1 in taken && 2 in taken
    ensures |numbers| >= BLOCKS
  {
    var b0 :| b0 in numbers && numbers[b0] == 0;
    var b1 :| b1 in numbers && numbers[b1] == 1;
    var b2 :| b2 in numbers && numbers[b2] == 2;
    SubsetSize({b0, b1, b2}, numbers.Keys);
    assert |{b0, b1, b2}| == 3;
    assert |numbers.Keys| == |numbers|;
  }

  /** A block of the pool, the handle given out; its buffer is left out. */
  class Block {
    var sockNo: nat

    constructor ()
      ensures sockNo == 0
    {
      sockNo := 0;
    }
  }

  class WizSystem {
    var sockStatus: bv8
    var free: set<Block>
    var closed: seq<nat>
    const blocks: set<Block>

    /** The handles given out and not yet freed, with their socket numbers. */
    ghost var live: map<Block, nat>

    /** The bits say which numbers the live handles have. */
    ghost predicate Coherent()
      reads this, live.Keys
    {
      (forall b :: b in live ==> b.sockNo == live[b]) && Mirrors(live, sockStatus)
    }

    ghost predicate Valid()
      reads this, live.Keys
    {
      |blocks| == BLOCKS && free <= blocks && live.Keys == blocks - free && Coherent()
    }

    constructor ()
      ensures Valid() && live == map[] && sockStatus == 0 && fresh(blocks) && closed == []
    {
      var a := new Block();
      var b := new Block();
      var c := new Block();
      blocks := {a, b, c};
      free := {a, b, c};
      sockStatus := 0;
      closed := [];
      live := map[];
    }

    /** osPoolCAlloc: any free block, zeroed; null when there is none. */
    method PoolCAlloc() returns (block: Block?)
      modifies this`free, free
      ensures old(free) == {} <==> block == null
      ensures block == null ==> free == old(free)
      ensures block != null ==> block in old(free) && free == old(free) - {block} && block.sockNo == 0
      ensures forall b :: b in old(free) && b != block ==> b.sockNo == old(b.sockNo)
    {
      if free == {} { return null; }
      block :| block in free;
      free := free - {block};
      block.sockNo := 0;
    }

    /** osPoolFree: a null pointer is refused. */
    method PoolFree(block: Block?)
      requires block != null ==> block in blocks
      modifies this`free
      ensures free == old(free) + if block == null then {} else {block}
    {
      if block != null { free := free + {block}; }
    }

    /** Marks socket i as taken and writes its number into the block. */
    method TakeSocket(eth: Block, i: nat)
      requires Coherent() && i < SOCKETS && i !in Marked(sockStatus) && eth !in live
      modifies this`sockStatus, this`live, eth
      ensures Coherent() && live == old(live)[eth := i] && eth.sockNo == i
      ensures sockStatus == old(sockStatus) | Bit(i)
    {
      MirrorsOneMore(live, sockStatus, eth, i);
      sockStatus := sockStatus | Bit(i);
      eth.sockNo := i;
      live := live[eth := i];
    }

    /** Clears the handle's bit. */
    method ReleaseSocket(eth: Block)
      requires Coherent() && eth in live
      modifies this`sockStatus, this`live
      ensures Coherent() && live == old(live) - {eth}
      ensures sockStatus == old(sockStatus) & !Bit(eth.sockNo)
    {
      MirrorsOneLess(live, sockStatus, eth);
      sockStatus := sockStatus & !Bit(eth.sockNo);
      live := live - {eth};
    }

    /** The search of sockPoolAlloc: the lowest clear bit; with a block to spare there is one. */
    method TakeLowest(eth: Block) returns (found: bool)
      requires Coherent() && eth !in live && |live| < BLOCKS
      modifies this`sockStatus, this`live, eth
      ensures Coherent() && found && live == old(live)[eth := eth.sockNo]
      ensures eth.sockNo < SOCKETS && eth.sockNo !in Marked(old(sockStatus))
      ensures forall j :: 0 <= j < eth.sockNo ==> j in Marked(old(sockStatus))
      ensures sockStatus == old(sockStatus) | Bit(eth.sockNo)
    {
      ghost var clear := FreeSocketExists(live, Marked(sockStatus));
      var i := 0;
      while i < SOCKETS
        invariant 0 <= i <= clear < SOCKETS && Coherent()
        invariant forall j :: 0 <= j < i ==> j in Marked(sockStatus)
        invariant sockStatus == old(sockStatus) && live == old(live)
      {
        BitClear(sockStatus, i);
        if sockStatus & Bit(i) == 0 {
          TakeSocket(eth, i);
          return true;
        }
        i := i + 1;
      }
      return false;
    }

    /** sockPoolAlloc: fails exactly when every block is live; otherwise the lowest clear bit is taken. */
    method SockPoolAlloc() returns (eth: Block?)
      requires Valid()
      modifies this, free
      ensures Valid() && closed == old(closed)
      ensures eth == null <==> |old(live)| == BLOCKS
      ensures eth == null ==> live == old(live) && sockStatus == old(sockStatus)
      ensures eth != null ==> eth !in old(live) && live == old(live)[eth := eth.sockNo]
      ensures eth != null ==> eth.sockNo < SOCKETS && eth.sockNo !in Marked(old(sockStatus))
      ensures eth != null ==> forall j :: 0 <= j < eth.sockNo ==> j in Marked(old(sockStatus))
      ensures eth != null ==> sockStatus == old(sockStatus) | Bit(eth.sockNo)
    {
      AllLive(live, free, blocks);
      eth := PoolCAlloc();
      if eth != null {
        var found := TakeLowest(eth);
        if found { return; }
      }
      PoolFree(eth);
    }

    /** sockPoolFree: the handle's bit is cleared, its socket closed and its block returned. */
    method SockPoolFree(handle: Block?)
      requires Valid()
      requires handle != null ==> handle in live
      modifies this
      ensures Valid()
      ensures handle == null ==> live == old(live) && sockStatus == old(sockStatus) && closed == old(closed)
      ensures handle != null ==> live == old(live) - {handle} && closed == old(closed) + [handle.sockNo]
      ensures handle != null ==> sockStatus == old(sockStatus) & !Bit(handle.sockNo)
    {
      if handle == null { return; }
      NumberIsTaken(live, sockStatus, handle);
      if handle.sockNo > SOCKETS { return; }
      ReleaseSocket(handle);
      closed := closed + [handle.sockNo];
      PoolFree(handle);
    }
  }

  /** All three blocks are out exactly when none is free. */
  lemma AllLive<H>(numbers: map<H, nat>, free: set<H>, blocks: set<H>)
    requires free <= blocks && |blocks| == BLOCKS && numbers.Keys == blocks - free
    ensures |numbers| <= BLOCKS
    ensures |numbers| == BLOCKS <==> free == {}
  {
    assert |numbers| == |numbers.Keys|;
  }

  /** A handle allocated and freed again leaves the pool and its bits as they were. */
  method AllocThenFree(wiz: WizSystem)
    requires wiz.Valid() && wiz.free != {}
    modifies wiz, wiz.free
    ensures wiz.Valid() && wiz.live == old(wiz.live)
    ensures wiz.sockStatus == old(wiz.sockStatus)
  {
    AllLive(wiz.live, wiz.free, wiz.blocks);
    var eth := wiz.SockPoolAlloc();
    wiz.SockPoolFree(eth);
    BitClear(old(wiz.sockStatus), eth.sockNo);
    SetThenClear(old(wiz.sockStatus), eth.sockNo);
  }

  lemma SetThenClear(status: bv8, i: nat)
    requires i < SOCKETS && status & Bit(i) == 0
    ensures (status | Bit(i)) & !Bit(i) == status
  {
    Bits();
  }
}
