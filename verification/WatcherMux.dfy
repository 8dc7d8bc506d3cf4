/** The watcher multiplexer with its non-blocking dispatch (internal/util/watchermux.go).  The order in
    which the watchers are served is that of a map iteration, so any order. */
module WatcherMux {
  import opened Basics

  /** A subscription: what is in its buffered channel, and the values it asked for. */
  datatype Watcher<!T> = Watcher(buf: seq<T>, filter: Option<T -> bool>)

  predicate Wanted<T>(w: Watcher<T>, v: T) {
    w.filter.Some? ==> w.filter.value(v)
  }

  /** The watcher after `v` has been offered to it. */
  function Offered<T>(w: Watcher<T>, v: T, capacity: nat): Watcher<T> {
    if Wanted(w, v) && |w.buf| < capacity then w.(buf := w.buf + [v]) else w
  }

  /** What a watcher that does not receive meanwhile has after several dispatches. */
  function OfferedAll<T>(w: Watcher<T>, vs: seq<T>, capacity: nat): Watcher<T> {
    if vs == [] then w else Offered(OfferedAll(w, vs[..|vs| - 1], capacity), vs[|vs| - 1], capacity)
  }

  /** The values that pass the filter; without one, all. */
  function WantedOf<T>(w: Watcher<T>, vs: seq<T>): seq<T> {
    if w.filter.None? then vs
    else if vs == [] then []
    else WantedOf(w, vs[..|vs| - 1]) + if w.filter.value(vs[|vs| - 1]) then [vs[|vs| - 1]] else []
  }

  /** It has the first wanted values, as many as there was room for: later ones are lost, not earlier. */
  lemma {:induction false} KeepsTheFirst<T>(w: Watcher<T>, vs: seq<T>, capacity: nat)
    requires |w.buf| <= capacity
    ensures var wanted, room := WantedOf(w, vs), capacity - |w.buf|;
            OfferedAll(w, vs, capacity) == w.(buf := w.buf + if |wanted| <= room then wanted else wanted[..room])
  {
    if vs != [] {
      KeepsTheFirst(w, vs[..|vs| - 1], capacity);
      assert vs == vs[..|vs| - 1] + [vs[|vs| - 1]];
    }
  }

  /** A watcher after a dispatch. */
  function Served<T>(watchers: map<nat, Watcher<T>>, id: nat, v: T, waiting: set<nat>, capacity: nat): Watcher<T>
    requires id in watchers
  {
    if id in waiting then watchers[id] else Offered(watchers[id], v, capacity)
  }

  /** The first `i` watchers in the order have been served, those in `handed` directly. */
  ghost predicate Dispatched<T>(w0: map<nat, Watcher<T>>, w: map<nat, Watcher<T>>, order: seq<nat>, i: nat, v: T,
                                waiting: set<nat>, handed: set<nat>, capacity: nat)
    requires i <= |order| && forall id :: id in order ==> id in w0
    requires waiting <= w0.Keys
  {
    && w.Keys == w0.Keys && handed <= waiting
    && (forall k :: 0 <= k < i ==> w[order[k]] == Served(w0, order[k], v, waiting, capacity))
    && (forall k :: i <= k < |order| ==> w[order[k]] == w0[order[k]])
    && (forall id :: id in handed ==> Wanted(w0[id], v))
    && (forall k :: 0 <= k < i && order[k] in waiting && Wanted(w0[order[k]], v) ==> order[k] in handed)
  }

  lemma DispatchedNext<T>(w0: map<nat, Watcher<T>>, w: map<nat, Watcher<T>>, order: seq<nat>, i: nat, v: T,
                          waiting: set<nat>, handed: set<nat>, capacity: nat)
    requires i < |order| && (forall id :: id in order ==> id in w0) && waiting <= w0.Keys
    requires forall i, j :: 0 <= i < j < |order| ==> order[i] != order[j]
    requires Dispatched(w0, w, order, i, v, waiting, handed, capacity)
    ensures order[i] in w && w[order[i]] == w0[order[i]]
    ensures var direct := order[i] in waiting && Wanted(w0[order[i]], v);
            Dispatched(w0, if order[i] in waiting then w else w[order[i] := Offered(w[order[i]], v, capacity)],
                       order, i + 1, v, waiting, if direct then handed + {order[i]} else handed, capacity)
  {
  }

  lemma DispatchedAll<T>(w0: map<nat, Watcher<T>>, w: map<nat, Watcher<T>>, order: seq<nat>, v: T,
                         waiting: set<nat>, handed: set<nat>, capacity: nat)
    requires (forall id :: id in order <==> id in w0) && waiting <= w0.Keys
    requires Dispatched(w0, w, order, |order|, v, waiting, handed, capacity)
    ensures w == map id | id in w0 :: Served(w0, id, v, waiting, capacity)
    ensures handed == set id | id in waiting && Wanted(w0[id], v)
  {
    forall id | id in w0
      ensures w[id] == Served(w0, id, v, waiting, capacity)
      ensures id in waiting && Wanted(w0[id], v) ==> id in handed
    {
      assert id in order;
    }
  }

  class WatcherMux<T> {
    var watchers: map<nat, Watcher<T>>
    var idCount: nat
    const capacity: nat

    ghost predicate Valid()
      reads this
    {
      forall id :: id in watchers ==> id < idCount && |watchers[id].buf| <= capacity
    }

    constructor (capacity: nat)
      ensures Valid() && watchers == map[] && this.capacity == capacity
    {
      watchers, idCount, this.capacity := map[], 0, capacity;
    }

    /** A new watcher gets an id that no watcher has. */
    method Watch(filter: Option<T -> bool>) returns (id: nat)
      requires Valid()
      modifies this
      ensures Valid() && id !in old(watchers) && watchers == old(watchers)[id := Watcher([], filter)]
    {
      id := idCount;
      idCount := idCount + 1;
      watchers := watchers[id := Watcher([], filter)];
    }

    method Cancel(id: nat)
      requires Valid()
      modifies this`watchers
      ensures Valid() && watchers == old(watchers) - {id}
    {
      watchers := watchers - {id};
    }

    /** A receive by the watcher, which blocks while its channel is empty. */
    method Receive(id: nat) returns (v: T)
      requires Valid() && id in watchers && watchers[id].buf != []
      modifies this`watchers
      ensures Valid() && v == old(watchers)[id].buf[0]
      ensures watchers == old(watchers)[id := old(watchers)[id].(buf := old(watchers)[id].buf[1..])]
    {
      v := watchers[id].buf[0];
      watchers := watchers[id := watchers[id].(buf := watchers[id].buf[1..])];
    }

    /** One turn of the dispatch loop. */
    method Serve(v: T, id: nat, waiting: bool) returns (direct: bool)
      requires Valid() && id in watchers
      modifies this`watchers
      ensures Valid() && direct == (waiting && Wanted(old(watchers)[id], v))
      ensures watchers == if waiting then old(watchers) else old(watchers)[id := Offered(old(watchers)[id], v, capacity)]
    {
      direct := false;
      var w := watchers[id];
      if w.filter.Some? && !w.filter.value(v) {
        return;
      }
      if waiting {
        direct := true;
      } else if |w.buf| < capacity {
        watchers := watchers[id := w.(buf := w.buf + [v])];
      }
    }

    /** Whatever the order, each watcher is offered the value once, and a full one holds up nobody.  Watchers
        in `waiting` are blocked in a receive on an empty channel and are handed the value directly. */
    method Dispatch(v: T, order: seq<nat>, waiting: set<nat>) returns (handed: set<nat>)
      requires Valid() && forall i, j :: 0 <= i < j < |order| ==> order[i] != order[j]
      requires forall id :: id in order <==> id in watchers
      requires waiting <= watchers.Keys && forall id :: id in waiting ==> watchers[id].buf == []
      modifies this`watchers
      ensures Valid() && handed == set id | id in waiting && Wanted(old(watchers)[id], v)
      ensures watchers == map id | id in old(watchers) :: Served(old(watchers), id, v, waiting, capacity)
    {
      handed := {};
      ghost var w0 := watchers;
      for i := 0 to |order|
        invariant Valid() && Dispatched(w0, watchers, order, i, v, waiting, handed, capacity)
      {
        DispatchedNext(w0, watchers, order, i, v, waiting, handed, capacity);
        var direct := Serve(v, order[i], order[i] in waiting);
        handed := if direct then handed + {order[i]} else handed;
      }
      DispatchedAll(w0, watchers, order, v, waiting, handed, capacity);
    }
  }
}
