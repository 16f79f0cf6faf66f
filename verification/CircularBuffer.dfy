/** The overwriting ring buffer of the mbed library. */
module CircularBuffers {

  /** Pushing onto a queue of at most n elements: the oldest gives way. */
  function Pushed<T>(q: seq<T>, x: T, n: nat): seq<T>
    requires |q| <= n && n > 0
  {
    (if |q| == n then q[1..] else q) + [x]
  }

  /** The queue in a ring of cells: from the tail up to the head, around the end if need be. */
  function Window<T>(cells: seq<T>, head: nat, tail: nat, full: bool): (q: seq<T>)
    requires head < |cells| && tail < |cells|
    ensures |q| <= |cells|
  {
    if tail < head then cells[tail..head]
    else if head < tail || full then cells[tail..] + cells[..head]
    else []
  }

  function Wrap(i: nat, n: nat): (j: nat)
    requires i < n
    ensures j < n
  {
    if i + 1 == n then 0 else i + 1
  }

  lemma WrapIsModulo(i: nat, n: nat)
    requires i < n
    ensures (i + 1) % n == Wrap(i, n)
  {
  }

  lemma PushWindow<T>(cells: seq<T>, head: nat, tail: nat, full: bool, x: T)
    requires head < |cells| && tail < |cells| && (full ==> head == tail)
    ensures var n := |cells|;
      var tail' := if full then Wrap(tail, n) else tail;
      Window(cells[head := x], Wrap(head, n), tail', Wrap(head, n) == tail' || full) ==
        Pushed(Window(cells, head, tail, full), x, n)
  {
    var n := |cells|;
    var tail' := if full then Wrap(tail, n) else tail;
    var w := Window(cells[head := x], Wrap(head, n), tail', Wrap(head, n) == tail' || full);
    assert |w| == |Pushed(Window(cells, head, tail, full), x, n)|;
  }

  lemma PopWindow<T>(cells: seq<T>, head: nat, tail: nat, full: bool)
    requires head < |cells| && tail < |cells| && (full ==> head == tail) && (head != tail || full)
    ensures Window(cells, head, tail, full) == [cells[tail]] + Window(cells, head, Wrap(tail, |cells|), false)
  {
  }

  /** The suffix a queue is of its history, after a push. */
  lemma SuffixAfterPush<T>(history: seq<T>, gone: nat, x: T, n: nat)
    requires gone <= |history| && |history| - gone <= n && n > 0
    ensures var q := history[gone..];
      Pushed(q, x, n) == (history + [x])[if |q| == n then gone + 1 else gone..]
  {
  }

  /** What a push does to the window, when it is all but the first `gone` elements of the history. */
  lemma PushKeeps<T>(cells: seq<T>, head: nat, tail: nat, full: bool, x: T, history: seq<T>, gone: nat)
    requires head < |cells| && tail < |cells| && (full ==> head == tail)
    requires |history| == gone + |Window(cells, head, tail, full)|
    requires Window(cells, head, tail, full) == history[gone..]
    ensures var n := |cells|;
      var w, tail' := Window(cells, head, tail, full), if full then Wrap(tail, n) else tail;
      var w' := Window(cells[head := x], Wrap(head, n), tail', Wrap(head, n) == tail' || full);
      var gone' := gone + if full then 1 else 0;
      (full <==> |w| == n) && w' == Pushed(w, x, n) &&
      |history| + 1 == gone' + |w'| && w' == (history + [x])[gone'..]
  {
    PushWindow(cells, head, tail, full, x);
    SuffixAfterPush(history, gone, x, |cells|);
  }

  class CircularBuffer<T(0)> {
    const pool: array<T>
    var head: nat
    var tail: nat
    var full: bool
    ghost var pushed: seq<T>
    ghost var popped: nat
    ghost var overwritten: nat
    ghost var discarded: nat

    /** The queue the buffer holds, oldest first. */
    ghost function Held(): seq<T>
      requires tail < pool.Length && head < pool.Length
      reads this, pool
    {
      Window(pool[..], head, tail, full)
    }

    /** What is held is the latest of what was pushed, the rest having been popped, overwritten or
        discarded; `full` tells a full buffer from an empty one. */
    ghost predicate Valid()
      reads this, pool
    {
      head < pool.Length && tail < pool.Length && (full ==> head == tail) &&
      |pushed| == popped + overwritten + discarded + |Held()| &&
      Held() == pushed[popped + overwritten + discarded..]
    }

    constructor (bufferSize: nat)
      requires bufferSize > 0
      ensures Valid() && Held() == [] && pushed == [] && pool.Length == bufferSize && fresh(pool)
      ensures popped == overwritten == discarded == 0
    {
      pool := new T[bufferSize];
      head, tail, full := 0, 0, false;
      pushed, popped, overwritten, discarded := [], 0, 0, 0;
    }

    method Push(data: T)
      requires Valid()
      modifies this, pool
      ensures Valid() && |old(Held())| <= pool.Length && Held() == Pushed(old(Held()), data, pool.Length)
      ensures pushed == old(pushed) + [data] && popped == old(popped) && discarded == old(discarded)
      ensures overwritten == old(overwritten) + if |old(Held())| == pool.Length then 1 else 0
    {
      ghost var cells, at, gone := pool[..], head, popped + overwritten + discarded;
      WrapIsModulo(head, pool.Length);
      WrapIsModulo(tail, pool.Length);
      PushKeeps(cells, head, tail, full, data, pushed, gone);
      if full {
        tail := (tail + 1) % pool.Length;
        overwritten := overwritten + 1;
      }
      pool[head] := data;
      assert pool[..] == cells[at := data];
      head := (head + 1) % pool.Length;
      if head == tail {
        full := true;
      }
      pushed := pushed + [data];
    }

    /** `given` is what the caller's variable held before. */
    method Pop(given: T) returns (poppedData: bool, data: T)
      requires Valid()
      modifies this
      ensures Valid() && (poppedData <==> old(Held()) != [])
      ensures poppedData ==> [data] + Held() == old(Held())
      ensures !poppedData ==> Held() == [] && data == given
      ensures pushed == old(pushed) && overwritten == old(overwritten) && discarded == old(discarded)
      ensures popped == old(popped) + if poppedData then 1 else 0
    {
      poppedData := false;
      data := given;
      var isEmpty := IsEmpty();
      if !isEmpty {
        WrapIsModulo(tail, pool.Length);
        PopWindow(pool[..], head, tail, full);
        data := pool[tail];
        tail := (tail + 1) % pool.Length;
        full := false;
        popped := popped + 1;
        poppedData := true;
      }
    }

    method IsEmpty() returns (isEmpty: bool)
      requires Valid()
      ensures isEmpty <==> Held() == []
    {
      isEmpty := head == tail && !full;
    }

    method IsFull() returns (isFull: bool)
      requires Valid()
      ensures isFull <==> |Held()| == pool.Length
    {
      isFull := full;
    }

    method Reset()
      requires Valid()
      modifies this
      ensures Valid() && Held() == [] && discarded == old(discarded) + |old(Held())|
      ensures pushed == old(pushed) && popped == old(popped) && overwritten == old(overwritten)
    {
      discarded := discarded + |Held()|;
      head := 0;
      tail := 0;
      full := false;
    }
  }

  // ---------- whole runs of the queue the methods implement ----------

  datatype Op<T> = Push(x: T) | Pop | Reset

  /** `outs` lists the positions, among all pushes, of the elements popped. */
  datatype Run<T> = Run(pushed: seq<T>, held: seq<T>, outs: seq<nat>)

  function Step<T>(r: Run<T>, op: Op<T>, n: nat): Run<T>
    requires |r.held| <= n && n > 0 && |r.held| <= |r.pushed|
  {
    match op
    case Push(x) => Run(r.pushed + [x], Pushed(r.held, x, n), r.outs)
    case Pop => if r.held == [] then r else Run(r.pushed, r.held[1..], r.outs + [|r.pushed| - |r.held|])
    case Reset => Run(r.pushed, [], r.outs)
  }

  /** Held are the latest pushes; everything popped is older, and came out in push order. */
  ghost predicate FirstInFirstOut<T>(r: Run<T>, n: nat) {
    |r.held| <= n && |r.held| <= |r.pushed| && r.held == r.pushed[|r.pushed| - |r.held|..] &&
    (forall i :: 0 <= i < |r.outs| ==> r.outs[i] < |r.pushed| - |r.held|) &&
    (forall i, j :: 0 <= i < j < |r.outs| ==> r.outs[i] < r.outs[j])
  }

  lemma StepKeepsOrder<T>(r: Run<T>, op: Op<T>, n: nat)
    requires n > 0 && FirstInFirstOut(r, n)
    ensures FirstInFirstOut(Step(r, op, n), n)
  {
    match op
    case Push(x) => SuffixAfterPush(r.pushed, |r.pushed| - |r.held|, x, n);
    case Pop =>
    case Reset =>
  }

  /** Every run of pushes, pops and resets on a buffer of n cells keeps the queue discipline. */
  function RunAll<T>(ops: seq<Op<T>>, n: nat): (r: Run<T>)
    requires n > 0
    ensures FirstInFirstOut(r, n)
  {
    if ops == [] then Run([], [], [])
    else
      var r := RunAll(ops[..|ops| - 1], n);
      StepKeepsOrder(r, ops[|ops| - 1], n);
      Step(r, ops[|ops| - 1], n)
  }

  function Pushes<T>(xs: seq<T>): (ops: seq<Op<T>>) {
    seq(|xs|, i requires 0 <= i < |xs| => Push(xs[i]))
  }

  /** A run of pushes alone holds all of them, or the last n. */
  lemma PushesKeepTheLatest<T>(xs: seq<T>, n: nat)
    requires n > 0
    ensures var r := RunAll(Pushes(xs), n);
      r.pushed == xs && r.outs == [] && r.held == if |xs| <= n then xs else xs[|xs| - n..]
  {
    var r := RunAll(Pushes(xs), n);
    OnlyPushes(xs, n);
    assert xs[0..] == xs;
  }

  ghost predicate OnlyPushed<T>(r: Run<T>, xs: seq<T>, n: nat) {
    r.pushed == xs && r.outs == [] && |r.held| == if |xs| <= n then |xs| else n
  }

  lemma {:induction false} OnlyPushes<T>(xs: seq<T>, n: nat)
    requires n > 0
    ensures OnlyPushed(RunAll(Pushes(xs), n), xs, n)
  {
    if xs != [] {
      var front, x := xs[..|xs| - 1], xs[|xs| - 1];
      OnlyPushes(front, n);
      OneMorePush(front, x, n);
      assert front + [x] == xs;
    }
  }

  lemma OneMorePush<T>(front: seq<T>, x: T, n: nat)
    requires n > 0 && OnlyPushed(RunAll(Pushes(front), n), front, n)
    ensures OnlyPushed(RunAll(Pushes(front + [x]), n), front + [x], n)
  {
    var ops := Pushes(front + [x]);
    assert ops[..|ops| - 1] == Pushes(front);
    assert RunAll(ops, n) == Step(RunAll(Pushes(front), n), Push(x), n);
    StepOfPush(RunAll(Pushes(front), n), front, x, n);
  }

  lemma StepOfPush<T>(r: Run<T>, front: seq<T>, x: T, n: nat)
    requires n > 0 && FirstInFirstOut(r, n) && OnlyPushed(r, front, n)
    ensures OnlyPushed(Step(r, Push(x), n), front + [x], n)
  {
  }
}
