/** The log on its mutable structures: the ring array, the linked list and the watcher map together do
    what the steps of module Wal say, seen from any one watcher, which may subscribe at any time. */
module WalService {
  import opened Basics
  import RingBuffer
  import BoundedLog
  import WatcherMux
  import Wal

  class Service<T> {
    const proposals: RingBuffer.Buffer<T>
    const list: BoundedLog.LinkedList<T>
    const mux: WatcherMux.WatcherMux<T>
    var hold: Option<T>          // the reader's local variable
    var watcher: Option<nat>     // the id of the watcher that is looked at, once it has subscribed
    ghost var model: Wal.Wal<T>

    ghost function Sizes(): Wal.Sizes {
      Wal.Sizes(proposals.buf.Length, list.capacity, mux.capacity)
    }

    ghost predicate Structures()
      reads proposals, proposals.buf, list, list.spine, mux
    {
      && proposals.Valid() && list.Valid() && mux.Valid()
      && proposals.safeNext == proposals.Rep().Count()
    }

    /** The channel of the watcher holds what the model says. */
    ghost predicate Watched(chan: seq<T>)
      reads this, mux
    {
      if watcher.None? then chan == []
      else watcher.value in mux.watchers && mux.watchers[watcher.value] == WatcherMux.Watcher(chan, None)
    }

    /** The structures hold what the model holds. */
    ghost predicate Valid()
      reads this, proposals, proposals.buf, list, list.spine, mux
    {
      && Structures()
      && model.ring == proposals.Rep().Contents() && model.hold == hold && model.log == list.Items()
      && model.watched == watcher.Some? && Watched(model.chan)
    }

    constructor (ringSize: nat, capacity: nat, chanSize: nat)
      requires ringSize > 0
      ensures Valid() && fresh(proposals) && fresh(proposals.buf) && fresh(list) && fresh(mux)
      ensures Sizes() == Wal.Sizes(ringSize, capacity, chanSize) && model == Wal.Init(false)
    {
      proposals := new RingBuffer.Buffer<T>(ringSize);
      list := new BoundedLog.LinkedList<T>(capacity);
      mux := new WatcherMux.WatcherMux<T>(chanSize);
      hold, watcher, model := None, None, Wal.Init(false);
    }

    method Watch()
      requires Valid() && Wal.Enabled(model, Wal.Watch)
      modifies this, mux
      ensures Valid() && model == Wal.Apply(Sizes(), old(model), Wal.Watch)
    {
      var id := mux.Watch(None);
      watcher := Some(id);
      model := Wal.Apply(Sizes(), model, Wal.Watch);
    }

    method Propose(entry: T)
      requires Valid()
      modifies this`model, proposals, proposals.buf
      ensures Valid() && model == Wal.Apply(Sizes(), old(model), Wal.Propose(entry))
    {
      RingBuffer.WriteCount(proposals.Rep(), entry);
      proposals.Write(entry);
      model := Wal.Apply(Sizes(), model, Wal.Propose(entry));
    }

    /** The reader's call of Next, which returns once there is an entry. */
    method Fetch()
      requires Valid() && Wal.Enabled(model, Wal.Fetch)
      modifies this, proposals, proposals.buf
      ensures Valid() && model == Wal.Apply(Sizes(), old(model), Wal.Fetch)
    {
      proposals.ReceiveToken();
      var out := proposals.TakeSlot();
      hold := out;
      model := Wal.Apply(Sizes(), model, Wal.Fetch);
    }

    method AppendToLog()
      requires Structures() && hold.Some?
      modifies list, list.tail
      ensures Structures() && list.Items() == BoundedLog.Appended(old(list.Items()), hold.value, list.capacity)
    {
      list.Append(hold.value);
    }

    ghost predicate Order(order: seq<nat>, waiting: set<nat>)
      reads mux
    {
      && (forall i, j :: 0 <= i < j < |order| ==> order[i] != order[j])
      && (forall id :: id in order <==> id in mux.watchers)
      && waiting <= mux.watchers.Keys && (forall id :: id in waiting ==> mux.watchers[id].buf == [])
    }

    method DispatchToWatchers(order: seq<nat>, waiting: set<nat>, ghost chan: seq<T>) returns (handed: set<nat>)
      requires Structures() && hold.Some? && Order(order, waiting) && Watched(chan)
      modifies mux
      ensures Structures()
      ensures watcher.None? ==> Watched(chan)
      ensures watcher.Some? && watcher.value in waiting ==> watcher.value in handed && Watched(chan)
      ensures watcher.Some? && watcher.value !in waiting ==>
                Watched(if |chan| < mux.capacity then chan + [hold.value] else chan)
    {
      handed := mux.Dispatch(hold.value, order, waiting);
    }

    /** Both actions of a turn of the event loop. */
    method LogAndDispatch(order: seq<nat>, waiting: set<nat>, ghost chan: seq<T>) returns (handed: set<nat>)
      requires Structures() && hold.Some? && Order(order, waiting) && Watched(chan)
      modifies list, list.tail, mux
      ensures Structures() && list.Items() == BoundedLog.Appended(old(list.Items()), hold.value, list.capacity)
      ensures watcher.None? ==> Watched(chan)
      ensures watcher.Some? && watcher.value in waiting ==> watcher.value in handed && Watched(chan)
      ensures watcher.Some? && watcher.value !in waiting ==>
                Watched(if |chan| < mux.capacity then chan + [hold.value] else chan)
    {
      AppendToLog();
      handed := DispatchToWatchers(order, waiting, chan);
    }

    /** One turn of the event loop while the watcher is not waiting, whatever the other watchers do and in
        whatever order they are served. */
    method Accept(order: seq<nat>, waiting: set<nat>)
      requires Valid() && Wal.Enabled(model, Wal.Accept) && Order(order, waiting)
      requires watcher.Some? ==> watcher.value !in waiting
      modifies this, list, list.tail, mux
      ensures Valid() && model == Wal.Apply(Sizes(), old(model), Wal.Accept)
    {
      var _ := LogAndDispatch(order, waiting, model.chan);
      model := Wal.Apply(Sizes(), model, Wal.Accept);
      hold := None;
    }

    /** The same while it waits: it is handed the entry. */
    method Handoff(order: seq<nat>, waiting: set<nat>) returns (entry: T)
      requires Valid() && Wal.Enabled(model, Wal.Handoff) && Order(order, waiting) && watcher.value in waiting
      modifies this, list, list.tail, mux
      ensures Valid() && model == Wal.Apply(Sizes(), old(model), Wal.Handoff)
      ensures model.received == old(model).received + [entry]
    {
      entry := hold.value;
      var handed := LogAndDispatch(order, waiting, model.chan);
      assert watcher.value in handed;
      model := Wal.Apply(Sizes(), model, Wal.Handoff);
      hold := None;
    }

    method Receive() returns (entry: T)
      requires Valid() && Wal.Enabled(model, Wal.Receive)
      modifies this`model, mux
      ensures Valid() && model == Wal.Apply(Sizes(), old(model), Wal.Receive)
      ensures model.received == old(model).received + [entry]
    {
      entry := mux.Receive(watcher.value);
      model := Wal.Apply(Sizes(), model, Wal.Receive);
    }
  }
}
