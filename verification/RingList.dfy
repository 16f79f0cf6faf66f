/** The circular doubly linked list of the sample agent. */
module RingList {
  import opened Wrappers

  class Node<T> {
    var data: T
    var next: Node<T>
    var prev: Node<T>

    constructor (data: T)
      ensures this.data == data && next == this && prev == this
    {
      this.data, next, prev := data, this, this;
    }
  }

  class DMList<T> {
    var count: int
    var head: Node?<T>
    var tail: Node?<T>
    ghost var nodes: seq<Node<T>>

    ghost predicate Valid()
      reads this, nodes
    {
      count == |nodes| && Distinct(nodes) && Linked() &&
      (if nodes == [] then head == null && tail == null else head == nodes[0] && tail == nodes[|nodes| - 1])
    }

    /** `next` and `prev` are the neighbours in `nodes`, around the ends. */
    ghost predicate Linked()
      reads this, nodes
    {
      (forall i {:trigger nodes[i].next} :: 0 <= i < |nodes| - 1 ==> nodes[i].next == nodes[i + 1]) &&
      (forall i {:trigger nodes[i].prev} :: 0 < i < |nodes| ==> nodes[i].prev == nodes[i - 1]) &&
      (nodes != [] ==> nodes[|nodes| - 1].next == nodes[0] && nodes[0].prev == nodes[|nodes| - 1])
    }

    static ghost predicate Distinct(ns: seq<Node<T>>) {
      forall i, j :: 0 <= i < j < |ns| ==> ns[i] != ns[j]
    }

    ghost function Contents(): (s: seq<T>)
      reads this, nodes
      ensures |s| == |nodes|
    {
      seq(|nodes|, i requires 0 <= i < |nodes| reads this, nodes => nodes[i].data)
    }

    /** DMList_Init. */
    constructor ()
      ensures Valid() && nodes == []
    {
      count, head, tail := 0, null, null;
      nodes := [];
    }

    method Add(data: T)
      requires Valid()
      modifies this, nodes
      ensures Valid() && Contents() == old(Contents()) + [data]
      ensures |nodes| == old(|nodes|) + 1 && nodes[..|nodes| - 1] == old(nodes) && fresh(nodes[|nodes| - 1])
    {
      var node := new Node(data);
      if head != null {
        node.prev := tail;
        node.next := head;
        tail.next := node;
        tail := node;
        head.prev := node;
      } else {
        head := node;
        tail := node;
        node.next := node;
        node.prev := node;
      }
      count := count + 1;
      nodes := nodes + [node];
      assert Contents() == old(Contents()) + [data];
    }

    /** Unlinks the last node and hands it over; null on an empty list. */
    method Remove() returns (node: Node?<T>)
      requires Valid()
      modifies this, nodes
      ensures Valid() && (node == null <==> old(nodes) == [])
      ensures node == null ==> nodes == []
      ensures node != null ==> nodes == old(nodes[..|nodes| - 1]) && node == old(nodes[|nodes| - 1])
      ensures node != null ==> Contents() + [node.data] == old(Contents())
    {
      if head == null || tail == null || count == 0 { return null; }
      node := tail;
      if count == 1 {
        head := null;
        tail := null;
      } else {
        tail := node.prev;
        tail.next := node.next;
        head.prev := tail;
      }
      count := count - 1;
      nodes := nodes[..|nodes| - 1];
      assert Contents() + [node.data] == old(Contents());
    }

    static predicate NoMatch(s: seq<T>, compare: (T, T) -> bool, x: T) {
      forall j :: 0 <= j < |s| ==> !compare(s[j], x)
    }

    /** The first node whose data compares equal; null if there is none or an argument is. */
    method GetNode(data: Option<T>, compare: Option<(T, T) -> bool>) returns (found: Node?<T>)
      requires Valid()
      ensures data == None || compare == None ==> found == null
      ensures data.Some? && compare.Some? && found == null ==>
        NoMatch(Contents(), compare.value, data.value)
      ensures found != null ==> data.Some? && compare.Some?
      ensures found != null ==>
        (exists i :: 0 <= i < |nodes| && found == nodes[i] &&
          compare.value(Contents()[i], data.value) && NoMatch(Contents()[..i], compare.value, data.value))
    {
      if data == None || compare == None || head == null || tail == null || count == 0 { return null; }
      var tmp := head;
      ghost var i := 0;
      while true
        invariant 0 <= i < |nodes| && tmp == nodes[i]
        invariant NoMatch(Contents()[..i], compare.value, data.value)
        decreases |nodes| - i
      {
        if compare.value(tmp.data, data.value) {
          assert Contents()[i] == tmp.data;
          return tmp;
        }
        assert Contents()[i] == tmp.data;
        tmp := tmp.next;
        i := i + 1;
        if tmp == head { break; }
      }
      return null;
    }

    /** Releases every element and frees every node, each once and in order; no node is touched
        after it has been freed. */
    method Close() returns (released: seq<T>, ghost freed: seq<Node<T>>)
      requires Valid()
      modifies this
      ensures Valid() && nodes == []
      ensures released == old(Contents()) && freed == old(nodes)
    {
      released, freed := [], [];
      if head == null || tail == null || count == 0 { return; }
      var tmp := head;
      while true
        invariant |freed| < |nodes| && tmp == nodes[|freed|] && freed == nodes[..|freed|]
        invariant released == Contents()[..|freed|]
        decreases |nodes| - |freed|
      {
        assert tmp !in freed;
        var next := tmp.next;
        assert Contents()[|freed|] == tmp.data;
        released := released + [tmp.data];
        freed := freed + [tmp];
        tmp := next;
        if tmp == head { break; }
      }
      assert freed == nodes && released == Contents();
      count, head, tail := 0, null, null;
      nodes := [];
    }

    /** The node reached from the head in k steps. */
    ghost function Visit(k: nat): (n: Node<T>)
      requires Valid() && count > 0
      reads this, nodes
      ensures n == nodes[Around(k, |nodes|)]
    {
      if k == 0 then head else Visit(k - 1).next
    }
  }

  /** k steps around a ring of n places. */
  ghost function Around(k: nat, n: nat): (i: nat)
    requires n > 0
    ensures i < n && (k < n ==> i == k) && (k == n ==> i == 0)
  {
    if k == 0 then 0 else
      var i := Around(k - 1, n);
      if i + 1 < n then i + 1 else 0
  }

  /** `next` and `prev` undo each other on every node of the ring. */
  lemma NextAndPrevAreInverse<T>(list: DMList<T>, n: Node<T>)
    requires list.Valid() && n in list.nodes
    ensures n.next in list.nodes && n.prev in list.nodes
    ensures n.next.prev == n && n.prev.next == n
  {
    var i :| 0 <= i < |list.nodes| && list.nodes[i] == n;
  }

  /** The first `count` steps from the head visit every node once; the next is the head again. */
  lemma RingVisitsEveryNodeOnce<T>(list: DMList<T>, n: Node<T>) returns (k: nat)
    requires list.Valid() && n in list.nodes
    ensures k < list.count && list.Visit(k) == n
    ensures forall j: nat :: j < list.count && list.Visit(j) == n ==> j == k
    ensures list.Visit(list.count) == list.head
  {
    k :| 0 <= k < |list.nodes| && list.nodes[k] == n;
    forall j: nat | j < list.count ensures list.Visit(j) == list.nodes[j] {
      assert Around(j, |list.nodes|) == j;
    }
  }
}
