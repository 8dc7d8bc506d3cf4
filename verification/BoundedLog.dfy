/** The bounded doubly linked list that holds the log (internal/util/linkedlist.go).  An evicted node is
    not unlinked: the new head still points back to it. */
module BoundedLog {

  /** Appending to a list of the given capacity, 0 standing for no bound. */
  function Appended<T>(s: seq<T>, x: T, capacity: nat): seq<T> {
    if capacity != 0 && |s| == capacity then s[1..] + [x] else s + [x]
  }

  /** The list after appending items one by one to an empty one. */
  function Log<T>(items: seq<T>, capacity: nat): (r: seq<T>) {
    if items == [] then [] else Appended(Log(items[..|items| - 1], capacity), items[|items| - 1], capacity)
  }

  lemma Slide<T>(front: seq<T>, x: T, capacity: nat)
    requires 0 < capacity <= |front|
    ensures front[|front| - capacity..][1..] + [x] == (front + [x])[|front| + 1 - capacity..]
  {
  }

  /** It holds the last items, as many as the capacity allows. */
  lemma {:induction false} LogIsSuffix<T>(items: seq<T>, capacity: nat)
    ensures Log(items, capacity)
         == if capacity == 0 || |items| <= capacity then items else items[|items| - capacity..]
  {
    if items != [] {
      var front, x := items[..|items| - 1], items[|items| - 1];
      LogIsSuffix(front, capacity);
      assert items == front + [x];
      if 0 < capacity <= |front| {
        Slide(front, x, capacity);
      }
    }
  }

  class Node<T> {
    var previous: Node?<T>
    var next: Node?<T>
    const data: T

    constructor (previous: Node?<T>, data: T)
      ensures this.previous == previous && next == null && this.data == data
    {
      this.previous, this.next, this.data := previous, null, data;
    }
  }

  class LinkedList<T> {
    var head: Node?<T>
    var tail: Node?<T>
    var length: nat
    const capacity: nat
    ghost var spine: seq<Node<T>>  // the nodes from head to tail

    ghost predicate Valid()
      reads this, spine
    {
      && length == |spine| && (capacity != 0 ==> length <= capacity)
      && (spine == [] ==> head == null && tail == null)
      && (spine != [] ==> head == spine[0] && tail == spine[|spine| - 1] && spine[|spine| - 1].next == null)
      && (forall i, j :: 0 <= i < j < |spine| ==> spine[i] != spine[j])
      && (forall i :: 0 <= i < |spine| - 1 ==> spine[i].next == spine[i + 1])
      && (forall i :: 0 <= i < |spine| - 1 ==> spine[i + 1].previous == spine[i])
    }

    /** The items in the list, head first. */
    ghost function Items(): (s: seq<T>)
      reads this
      ensures |s| == |spine|
    {
      seq(|spine|, i requires 0 <= i < |spine| reads this => spine[i].data)
    }

    constructor (capacity: nat)
      ensures Valid() && spine == [] && this.capacity == capacity
    {
      head, tail, length, spine := null, null, 0, [];
      this.capacity := capacity;
    }

    /** Drops the head; nothing outside the list object is written. */
    method PopHead()
      requires Valid() && spine != []
      modifies this
      ensures Valid() && spine == old(spine)[1..]
    {
      if length == 1 {
        head, tail := null, null;
      } else {
        head := head.next;
      }
      length := length - 1;
      spine := spine[1..];
    }

    /** Links a new node behind the tail, the only node written. */
    method Link(data: T)
      requires Valid() && (capacity != 0 ==> length < capacity)
      modifies this, tail
      ensures Valid() && tail != null && fresh(tail) && tail.data == data && spine == old(spine) + [tail]
      ensures forall n :: n in old(spine) ==> n.previous == old(n.previous)
    {
      if tail == null {
        var node := new Node<T>(null, data);
        head, tail := node, node;
        length := length + 1;
        spine := [node];
        return;
      }
      tail.next := new Node<T>(tail, data);
      tail := tail.next;
      length := length + 1;
      spine := spine + [tail];
    }

    /** Nodes already handed out keep their data and backward link; only the old tail gets a successor. */
    method Append(data: T)
      requires Valid()
      modifies this, tail
      ensures Valid() && Items() == Appended(old(Items()), data, capacity)
      ensures tail != null && fresh(tail)
      ensures spine == (if capacity != 0 && old(length) == capacity then old(spine)[1..] else old(spine)) + [tail]
      ensures forall n :: n in old(spine) ==> n.previous == old(n.previous)
    {
      if capacity != 0 && length == capacity {
        PopHead();
      }
      Link(data);
    }

    /** Reading from the head along `next` until the end. */
    method ReadForward() returns (s: seq<T>)
      requires Valid()
      ensures s == Items()
    {
      s := [];
      var n := head;
      while n != null
        invariant |s| <= |spine| && s == Items()[..|s|]
        invariant n == if |s| < |spine| then spine[|s|] else null
        decreases |spine| - |s|
      {
        s := s + [n.data];
        n := n.next;
      }
    }

    /** Reading `length` nodes from the tail along `previous`. */
    method ReadBackward() returns (s: seq<T>)
      requires Valid()
      ensures |s| == |Items()| && forall i :: 0 <= i < |s| ==> s[i] == Items()[|s| - 1 - i]
    {
      s := [];
      var n := tail;
      for k := 0 to length
        invariant |s| == k && forall i :: 0 <= i < k ==> s[i] == Items()[length - 1 - i]
        invariant k < length ==> n == spine[length - 1 - k]
      {
        s := s + [n.data];
        n := n.previous;
      }
    }
  }
}
