/** The overwriting ring buffer (internal/util/ringbuffer.go): an array of pointers with a read and a
    write index that wrap around.  Whether the buffer is full or empty when the indices meet is told
    by the slot being set or nil. */
module RingBuffer {
  import opened Basics

  datatype Ring<T> = Ring(buf: seq<Option<T>>, readIdx: nat, writeIdx: nat) {

    function Size(): nat {
      |buf|
    }

    /** The number of stored values. */
    function Count(): nat
      requires readIdx < |buf| && writeIdx < |buf|
    {
      if readIdx == writeIdx then (if buf[readIdx].Some? then |buf| else 0)
      else if readIdx < writeIdx then writeIdx - readIdx
      else writeIdx - readIdx + |buf|
    }

    /** Exactly the slots from the read index up to the write index are set. */
    ghost predicate Valid() {
      && readIdx < |buf| && writeIdx < |buf|
      && forall i :: 0 <= i < |buf| ==> (buf[At(readIdx, i, |buf|)].Some? <==> i < Count())
    }

    /** The stored values, oldest first. */
    ghost function Contents(): (c: seq<T>)
      requires Valid()
      ensures |c| == Count()
    {
      seq(Count(), i requires 0 <= i < Count() => buf[At(readIdx, i, |buf|)].value)
    }

    /** Write, with the read index pushed on when a value is overwritten. */
    function Write(v: T): (r: Ring<T>)
      requires readIdx < |buf| && writeIdx < |buf|
      ensures |r.buf| == |buf| && r.readIdx < |buf| && r.writeIdx < |buf|
    {
      Ring(buf[writeIdx := Some(v)],
           if writeIdx == readIdx && buf[writeIdx].Some? then Inc(readIdx, |buf|) else readIdx,
           Inc(writeIdx, |buf|))
    }

    /** The ring once the slot at the read index has been taken. */
    function Taken(): (r: Ring<T>)
      requires readIdx < |buf| && writeIdx < |buf|
      ensures |r.buf| == |buf| && r.readIdx < |buf| && r.writeIdx < |buf|
    {
      Ring(buf[readIdx := None], Inc(readIdx, |buf|), writeIdx)
    }
  }

  /** The slot `i` places after `start`, around the ring. */
  function At(start: nat, i: nat, size: nat): (k: nat)
    requires start < size && i < size
    ensures k < size
  {
    if start + i < size then start + i else start + i - size
  }

  function Inc(idx: nat, size: nat): (k: nat)
    requires idx < size
    ensures k < size
  {
    if idx + 1 > size - 1 then 0 else idx + 1
  }

  /** A bounded queue that drops its oldest value when it is full. */
  function Push<T>(queue: seq<T>, v: T, size: nat): seq<T>
    requires size > 0
  {
    if |queue| >= size then queue[1..] + [v] else queue + [v]
  }

  lemma WriteCount<T>(ring: Ring<T>, v: T)
    requires ring.Valid()
    ensures ring.Write(v).Count() == if ring.Count() == ring.Size() then ring.Size() else ring.Count() + 1
  {
    assert At(ring.readIdx, 0, ring.Size()) == ring.readIdx;
    assert ring.Size() > 1 ==> At(ring.readIdx, 1, ring.Size()) == Inc(ring.readIdx, ring.Size());
  }

  /** Writing to the ring is writing to the bounded queue. */
  lemma WriteRefines<T>(ring: Ring<T>, v: T)
    requires ring.Valid()
    ensures ring.Write(v).Valid() && ring.Write(v).Contents() == Push(ring.Contents(), v, ring.Size())
  {
    var r, n := ring.Write(v), ring.Size();
    WriteCount(ring, v);
    forall i | 0 <= i < n
      ensures r.buf[At(r.readIdx, i, n)].Some? <==> i < r.Count()
      ensures i < r.Count() ==> r.buf[At(r.readIdx, i, n)].value == Push(ring.Contents(), v, n)[i]
    {
      if ring.Count() == n {
        assert i < n - 1 ==> At(r.readIdx, i, n) == At(ring.readIdx, i + 1, n);
      } else {
        assert At(ring.readIdx, ring.Count(), n) == ring.writeIdx;
      }
    }
  }

  /** Taking from a ring that holds something is taking the oldest value of the queue. */
  lemma TakeRefines<T>(ring: Ring<T>)
    requires ring.Valid() && ring.Count() > 0
    ensures ring.buf[ring.readIdx] == Some(ring.Contents()[0])
    ensures ring.Taken().Valid() && ring.Taken().Contents() == ring.Contents()[1..]
  {
    var r, n := ring.Taken(), ring.Size();
    assert At(ring.readIdx, 0, n) == ring.readIdx;
    assert n > 1 ==> At(ring.readIdx, 1, n) == Inc(ring.readIdx, n);
    assert r.Count() == ring.Count() - 1;
    forall i | 0 <= i < n
      ensures r.buf[At(r.readIdx, i, n)].Some? <==> i < r.Count()
      ensures i < r.Count() ==> r.buf[At(r.readIdx, i, n)].value == ring.Contents()[1..][i]
    {
      assert i < n - 1 ==> At(r.readIdx, i, n) == At(ring.readIdx, i + 1, n);
      assert i == n - 1 ==> At(r.readIdx, i, n) == ring.readIdx;
    }
  }

  /** A ring is empty exactly when the slot at the read index is nil. */
  lemma EmptyIff<T>(ring: Ring<T>)
    requires ring.Valid()
    ensures ring.Count() == 0 <==> ring.buf[ring.readIdx].None?
  {
    assert At(ring.readIdx, 0, ring.Size()) == ring.readIdx;
  }

  function Empty<T>(size: nat): (r: Ring<T>)
    requires size > 0
    ensures |r.buf| == size && r.readIdx == r.writeIdx == 0 && forall i :: 0 <= i < size ==> r.buf[i].None?
  {
    Ring(seq(size, _ => None), 0, 0)
  }

  lemma EmptyValid<T>(size: nat)
    requires size > 0
    ensures Empty<T>(size).Valid() && Empty<T>(size).Contents() == []
  {
  }

  /** The buffer itself.  `safeNext` is the number of tokens in the channel of that name. */
  class Buffer<T> {
    const buf: array<Option<T>>
    var readIdx: nat
    var writeIdx: nat
    var safeNext: nat

    function Rep(): Ring<T>
      reads this, buf
    {
      Ring(buf[..], readIdx, writeIdx)
    }

    ghost predicate Valid()
      reads this, buf
    {
      Rep().Valid() && safeNext <= buf.Length
    }

    constructor (size: nat)
      requires size > 0
      ensures Valid() && fresh(buf) && buf.Length == size && Rep().Contents() == [] && safeNext == 0
    {
      buf := new Option<T>[size](_ => None);
      readIdx, writeIdx, safeNext := 0, 0, 0;
      new;
      EmptyValid<T>(size);
      assert Rep() == Empty<T>(size);
    }

    method Write(v: T)
      requires Valid()
      modifies this, buf
      ensures Valid() && Rep() == old(Rep()).Write(v)
      ensures Rep().Contents() == Push(old(Rep().Contents()), v, buf.Length)
      ensures safeNext == if old(safeNext) < buf.Length then old(safeNext) + 1 else buf.Length
    {
      WriteRefines(Rep(), v);
      if writeIdx == readIdx && buf[writeIdx].Some? {
        readIdx := Inc(readIdx, buf.Length);
      }
      buf[writeIdx] := Some(v);
      writeIdx := Inc(writeIdx, buf.Length);
      if safeNext < buf.Length {
        safeNext := safeNext + 1;
      }
    }

    /** The first half of Next: receive a token, which blocks while there is none. */
    method ReceiveToken()
      requires Valid() && safeNext > 0
      modifies this`safeNext
      ensures Valid() && safeNext == old(safeNext) - 1
    {
      safeNext := safeNext - 1;
    }

    /** The second half of Next, under the lock: take the slot at the read index.  The result is the
        pointer that is then dereferenced, None standing for nil. */
    method TakeSlot() returns (out: Option<T>)
      requires Valid()
      modifies this, buf
      ensures Rep() == old(Rep()).Taken() && safeNext == old(safeNext)
      ensures out.Some? <==> old(Rep().Count()) > 0
      ensures out.Some? ==> Valid() && out.value == old(Rep().Contents())[0] && Rep().Contents() == old(Rep().Contents())[1..]
    {
      EmptyIff(Rep());
      if buf[readIdx].Some? {
        TakeRefines(Rep());
      }
      out := buf[readIdx];
      buf[readIdx] := None;
      readIdx := Inc(readIdx, buf.Length);
    }
  }
}
