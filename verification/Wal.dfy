/** The way of an entry through the write-ahead log (internal/adapter/wal/wal.go): proposals go to an
    overwriting ring, a reader takes them out one by one, the event loop appends each to the bounded log
    and dispatches it to the buffered channel of a watcher, which drops it when it is full. */
module Wal {
  import opened Basics
  import opened Histories
  import RingBuffer
  import BoundedLog

  /** The sizes of the ring (the source has 32), of the log (0 for unbounded) and of the watcher's channel. */
  datatype Sizes = Sizes(ring: nat, log: nat, chan: nat)

  /** `hold` is the entry the reader has taken out and not yet handed to the event loop, `watched` says
      whether the watcher has subscribed.  The last five fields are the history: what was proposed,
      accepted and received, and how many were lost. */
  datatype Wal<T> = Wal(ring: seq<T>, hold: Option<T>, log: seq<T>, watched: bool, chan: seq<T>,
                        proposed: seq<T>, accepted: seq<T>, received: seq<T>, overwritten: nat, dropped: nat)

  datatype Event<T> =
    | Propose(entry: T)
    | Fetch
    | Watch
    | Accept   // the receiver is not waiting: the entry is buffered, or dropped
    | Handoff  // the receiver is waiting
    | Receive

  function Init<T>(watched: bool): Wal<T> {
    Wal([], None, [], watched, [], [], [], [], 0, 0)
  }

  predicate Enabled<T>(w: Wal<T>, e: Event<T>) {
    match e
    case Propose(_) => true
    case Fetch => w.hold.None? && w.ring != []
    case Watch => !w.watched
    case Accept => w.hold.Some?
    case Handoff => w.hold.Some? && w.watched && w.chan == []
    case Receive => w.chan != []
  }

  function Apply<T>(sizes: Sizes, w: Wal<T>, e: Event<T>): Wal<T>
    requires sizes.ring > 0 && Enabled(w, e)
  {
    match e
    case Propose(x) =>
      w.(ring := RingBuffer.Push(w.ring, x, sizes.ring), proposed := w.proposed + [x],
         overwritten := if |w.ring| >= sizes.ring then w.overwritten + 1 else w.overwritten)
    case Fetch => w.(hold := Some(w.ring[0]), ring := w.ring[1..])
    case Watch => w.(watched := true)
    case Accept =>
      var w' := w.(hold := None, log := BoundedLog.Appended(w.log, w.hold.value, sizes.log),
                   accepted := w.accepted + [w.hold.value]);
      if w.watched && |w.chan| < sizes.chan then w'.(chan := w.chan + [w.hold.value]) else w'.(dropped := w.dropped + 1)
    case Handoff =>
      w.(hold := None, log := BoundedLog.Appended(w.log, w.hold.value, sizes.log),
         accepted := w.accepted + [w.hold.value], received := w.received + [w.hold.value])
    case Receive => w.(chan := w.chan[1..], received := w.received + [w.chan[0]])
  }

  predicate Legal<T>(sizes: Sizes, w: Wal<T>, run: seq<Event<T>>)
    requires sizes.ring > 0
    decreases |run|
  {
    run == [] || (Enabled(w, run[0]) && Legal(sizes, Apply(sizes, w, run[0]), run[1..]))
  }

  function Exec<T>(sizes: Sizes, w: Wal<T>, run: seq<Event<T>>): Wal<T>
    requires sizes.ring > 0 && Legal(sizes, w, run)
    decreases |run|
  {
    if run == [] then w else Exec(sizes, Apply(sizes, w, run[0]), run[1..])
  }

  // --- order and conservation -----------------------------------------------------------------

  function Held<T>(w: Wal<T>): seq<T> {
    if w.hold.Some? then [w.hold.value] else []
  }

  /** What is left of the proposals on the side of the log, and of the accepted entries on the side of
      the watcher. */
  function Upstream<T>(w: Wal<T>): seq<T> {
    w.accepted + Held(w) + w.ring
  }

  function Downstream<T>(w: Wal<T>): seq<T> {
    w.received + w.chan
  }

  predicate Ordered<T(==)>(w: Wal<T>) {
    InOrder(Upstream(w), w.proposed) && InOrder(Downstream(w), w.accepted)
  }

  predicate Conserved<T>(w: Wal<T>) {
    && |Upstream(w)| + w.overwritten == |w.proposed|
    && |Downstream(w)| + w.dropped == |w.accepted|
  }

  ghost predicate Inv<T>(sizes: Sizes, w: Wal<T>) {
    && Ordered(w) && Conserved(w)
    && w.log == BoundedLog.Log(w.accepted, sizes.log)
    && |w.ring| <= sizes.ring && |w.chan| <= sizes.chan && (w.chan != [] ==> w.watched)
  }

  /** Pushing onto a bounded queue that drops its oldest entry keeps the order. */
  lemma PushInOrder<T>(a: seq<T>, queue: seq<T>, x: T, size: nat, b: seq<T>)
    requires size > 0 && InOrder(a + queue, b)
    ensures InOrder(a + RingBuffer.Push(queue, x, size), b + [x])
  {
    if |queue| >= size {
      assert a + queue == a + [queue[0]] + queue[1..];
      InOrderWithout(a, queue[0], queue[1..], b);
      InOrderSnoc(a + queue[1..], b, x);
      assert a + queue[1..] + [x] == a + (queue[1..] + [x]);
    } else {
      InOrderSnoc(a + queue, b, x);
      assert a + queue + [x] == a + (queue + [x]);
    }
  }

  lemma ProposeKeeps<T>(sizes: Sizes, w: Wal<T>, x: T)
    requires sizes.ring > 0 && Inv(sizes, w)
    ensures Inv(sizes, Apply(sizes, w, Propose(x)))
  {
    PushInOrder(w.accepted + Held(w), w.ring, x, sizes.ring, w.proposed);
  }

  lemma LogGrows<T>(items: seq<T>, x: T, capacity: nat)
    ensures BoundedLog.Log(items + [x], capacity) == BoundedLog.Appended(BoundedLog.Log(items, capacity), x, capacity)
  {
    assert (items + [x])[..|items + [x]| - 1] == items;
  }

  /** Offering an entry to a channel that drops it when it is full keeps the order. */
  lemma OfferInOrder<T>(w: Wal<T>, w': Wal<T>, x: T)
    requires InOrder(Downstream(w), w.accepted) && w'.accepted == w.accepted + [x]
    requires Downstream(w') == Downstream(w) || Downstream(w') == Downstream(w) + [x]
    ensures InOrder(Downstream(w'), w'.accepted)
  {
    InOrderSnoc(Downstream(w), w.accepted, x);
  }

  lemma AcceptFlows<T>(sizes: Sizes, w: Wal<T>, e: Event<T>)
    requires sizes.ring > 0 && (e.Accept? || e.Handoff?) && Enabled(w, e)
    ensures var w' := Apply(sizes, w, e);
            && Upstream(w') == Upstream(w) && w'.overwritten == w.overwritten && w'.proposed == w.proposed
            && w'.accepted == w.accepted + [w.hold.value]
            && w'.log == BoundedLog.Appended(w.log, w.hold.value, sizes.log)
            && (if w'.dropped > w.dropped then w'.dropped == w.dropped + 1 && Downstream(w') == Downstream(w)
                else w'.dropped == w.dropped && Downstream(w') == Downstream(w) + [w.hold.value])
  {
  }

  lemma AcceptKeeps<T>(sizes: Sizes, w: Wal<T>, e: Event<T>)
    requires sizes.ring > 0 && Inv(sizes, w) && (e.Accept? || e.Handoff?) && Enabled(w, e)
    ensures Inv(sizes, Apply(sizes, w, e))
  {
    var w', x := Apply(sizes, w, e), w.hold.value;
    AcceptFlows(sizes, w, e);
    LogGrows(w.accepted, x, sizes.log);
    OfferInOrder(w, w', x);
  }

  lemma ApplyKeeps<T>(sizes: Sizes, w: Wal<T>, e: Event<T>)
    requires sizes.ring > 0 && Inv(sizes, w) && Enabled(w, e)
    ensures Inv(sizes, Apply(sizes, w, e))
  {
    match e
    case Propose(x) => ProposeKeeps(sizes, w, x);
    case Accept => AcceptKeeps(sizes, w, e);
    case Handoff => AcceptKeeps(sizes, w, e);
    case Watch => assert Upstream(Apply(sizes, w, e)) == Upstream(w) && Downstream(Apply(sizes, w, e)) == Downstream(w);
    case Fetch => assert Upstream(Apply(sizes, w, e)) == Upstream(w);
    case Receive => assert Downstream(Apply(sizes, w, e)) == Downstream(w);
  }

  lemma {:induction false} InvOverRuns<T>(sizes: Sizes, w: Wal<T>, run: seq<Event<T>>)
    requires sizes.ring > 0 && Inv(sizes, w) && Legal(sizes, w, run)
    ensures Inv(sizes, Exec(sizes, w, run))
    decreases |run|
  {
    if run != [] {
      ApplyKeeps(sizes, w, run[0]);
      InvOverRuns(sizes, Apply(sizes, w, run[0]), run[1..]);
    }
  }

  lemma ReceivedInOrder<T>(sizes: Sizes, w: Wal<T>)
    requires Inv(sizes, w)
    ensures InOrder(w.received, w.proposed) && InOrder(w.accepted, w.proposed)
  {
    assert Upstream(w) == w.accepted + (Held(w) + w.ring);
    InOrderPrefix(w.accepted, Held(w) + w.ring, w.proposed);
    InOrderPrefix(w.received, w.chan, w.accepted);
    InOrderTransitive(w.received, w.accepted, w.proposed);
  }

  /** Everything that is still on its way or has arrived, oldest first. */
  function Remaining<T>(w: Wal<T>): seq<T> {
    w.received + w.chan + Held(w) + w.ring
  }

  predicate Lossless<T>(w: Wal<T>) {
    w.overwritten == 0 && w.dropped == 0
  }

  lemma NothingMissingIff<T>(sizes: Sizes, w: Wal<T>)
    requires Inv(sizes, w)
    ensures |Remaining(w)| + w.overwritten + w.dropped == |w.proposed|
    ensures Remaining(w) == w.proposed <==> Lossless(w)
  {
    assert Remaining(w) == Downstream(w) + (Held(w) + w.ring);
    assert Upstream(w) == w.accepted + (Held(w) + w.ring);
    if Lossless(w) {
      InOrderLength(Downstream(w), w.accepted);
      InOrderLength(Upstream(w), w.proposed);
    }
  }

  /** In every run the receiver gets proposals in the order in which they were made, and the log holds the
      last accepted ones.  Nothing is missing between proposer and receiver exactly when nothing was
      overwritten in the ring and nothing dropped at the channel. */
  lemma DeliveredInOrder<T>(sizes: Sizes, watched: bool, run: seq<Event<T>>)
    requires sizes.ring > 0 && Legal(sizes, Init(watched), run)
    ensures var w := Exec(sizes, Init(watched), run);
            && InOrder(w.received, w.proposed) && InOrder(w.accepted, w.proposed)
            && |Remaining(w)| + w.overwritten + w.dropped == |w.proposed|
            && (Remaining(w) == w.proposed <==> Lossless(w))
            && w.log == if sizes.log == 0 || |w.accepted| <= sizes.log then w.accepted
                        else w.accepted[|w.accepted| - sizes.log..]
  {
    var w := Exec(sizes, Init(watched), run);
    InvOverRuns(sizes, Init(watched), run);
    BoundedLog.LogIsSuffix(w.accepted, sizes.log);
    ReceivedInOrder(sizes, w);
    NothingMissingIff(sizes, w);
  }

  // --- flow control ---------------------------------------------------------------------------

  /** Proposals not yet received. */
  function Outstanding<T>(w: Wal<T>): int {
    |w.proposed| - |w.received|
  }

  /** The proposer never has more than `k` proposals outstanding. */
  predicate Windowed<T>(sizes: Sizes, w: Wal<T>, run: seq<Event<T>>, k: nat)
    requires sizes.ring > 0 && Legal(sizes, w, run)
    decreases |run|
  {
    run == [] ||
    ((run[0].Propose? ==> Outstanding(w) < k) && Windowed(sizes, Apply(sizes, w, run[0]), run[1..], k))
  }

  lemma {:induction false} WindowSuffices<T>(sizes: Sizes, w: Wal<T>, run: seq<Event<T>>, k: nat)
    requires sizes.ring > 0 && Legal(sizes, w, run) && Windowed(sizes, w, run, k)
    requires Inv(sizes, w) && Lossless(w) && w.watched && Outstanding(w) <= k
    requires k <= sizes.ring && k <= sizes.chan
    ensures Lossless(Exec(sizes, w, run))
    decreases |run|
  {
    if run != [] {
      ApplyKeeps(sizes, w, run[0]);
      WindowSuffices(sizes, Apply(sizes, w, run[0]), run[1..], k);
    }
  }

  /** Run from `w` the windowed run loses an entry. */
  ghost predicate Loses<T>(sizes: Sizes, w: Wal<T>, run: seq<Event<T>>, k: nat)
    requires sizes.ring > 0
  {
    Legal(sizes, w, run) && Windowed(sizes, w, run, k) && !Lossless(Exec(sizes, w, run))
  }

  lemma LosesAfter<T>(sizes: Sizes, w: Wal<T>, e: Event<T>, run: seq<Event<T>>, k: nat)
    requires sizes.ring > 0 && Enabled(w, e) && (e.Propose? ==> Outstanding(w) < k)
    requires Loses(sizes, Apply(sizes, w, e), run, k)
    ensures Loses(sizes, w, [e] + run, k)
  {
    assert ([e] + run)[1..] == run;
  }

  /** A reader that lags behind: the ring overflows. */
  lemma {:induction false} RingOverflows<T>(sizes: Sizes, w: Wal<T>, x: T, k: nat) returns (run: seq<Event<T>>)
    requires 0 < sizes.ring < k && |w.ring| <= sizes.ring && Outstanding(w) == |w.ring|
    ensures Loses(sizes, w, run, k)
    decreases sizes.ring - |w.ring|
  {
    var w' := Apply(sizes, w, Propose(x));
    if |w.ring| == sizes.ring {
      assert Loses(sizes, w', [], k);
      run := [];
    } else {
      run := RingOverflows(sizes, w', x, k);
    }
    LosesAfter(sizes, w, Propose(x), run, k);
    run := [Propose(x)] + run;
  }

  /** A watcher that lags behind: its channel overflows. */
  lemma {:induction false} ChannelOverflows<T>(sizes: Sizes, w: Wal<T>, x: T, k: nat) returns (run: seq<Event<T>>)
    requires 0 < sizes.ring && sizes.chan < k && |w.chan| <= sizes.chan && Outstanding(w) == |w.chan|
    requires w.ring == [] && w.hold == None && w.watched
    ensures Loses(sizes, w, run, k)
    decreases sizes.chan - |w.chan|
  {
    var w1 := Apply(sizes, w, Propose(x));
    var w2 := Apply(sizes, w1, Fetch);
    var w3 := Apply(sizes, w2, Accept);
    if |w.chan| == sizes.chan {
      assert Loses(sizes, w3, [], k);
      run := [];
    } else {
      run := ChannelOverflows(sizes, w3, x, k);
    }
    LosesAfter(sizes, w2, Accept, run, k);
    LosesAfter(sizes, w1, Fetch, [Accept] + run, k);
    LosesAfter(sizes, w, Propose(x), [Fetch] + ([Accept] + run), k);
    run := [Propose(x)] + ([Fetch] + ([Accept] + run));
  }

  /** Before the watcher subscribes the first entry accepted is lost to it. */
  lemma UnwatchedLoses<T>(sizes: Sizes, w: Wal<T>, x: T, k: nat) returns (run: seq<Event<T>>)
    requires 0 < sizes.ring && 0 < k && w == Init(false)
    ensures Loses(sizes, w, run, k)
  {
    var w1 := Apply(sizes, w, Propose(x));
    var w2 := Apply(sizes, w1, Fetch);
    var w3 := Apply(sizes, w2, Accept);
    assert Loses(sizes, w3, [], k);
    LosesAfter(sizes, w2, Accept, [], k);
    LosesAfter(sizes, w1, Fetch, [Accept] + [], k);
    LosesAfter(sizes, w, Propose(x), [Fetch] + ([Accept] + []), k);
    run := [Propose(x)] + ([Fetch] + ([Accept] + []));
  }

  lemma {:induction false} NothingProposed<T>(sizes: Sizes, w: Wal<T>, run: seq<Event<T>>)
    requires sizes.ring > 0 && Legal(sizes, w, run) && Windowed(sizes, w, run, 0)
    requires w.ring == [] && w.hold == None && w.chan == [] && Lossless(w) && Outstanding(w) == 0
    ensures Lossless(Exec(sizes, w, run))
    decreases |run|
  {
    if run != [] {
      NothingProposed(sizes, Apply(sizes, w, run[0]), run[1..]);
    }
  }

  /** A proposer that keeps at most `k` proposals outstanding is safe from losses, under every schedule,
      exactly when `k` is 0, or the watcher is there from the start and `k` fits both the ring and its
      channel. */
  lemma WindowIsSafeIff<T(!new)>(sizes: Sizes, watched: bool, k: nat, x: T)
    requires sizes.ring > 0
    ensures (forall run: seq<Event<T>> :: !Loses(sizes, Init(watched), run, k))
       <==> k == 0 || (watched && k <= sizes.ring && k <= sizes.chan)
  {
    if k == 0 || (watched && k <= sizes.ring && k <= sizes.chan) {
      forall run: seq<Event<T>> | Legal(sizes, Init(watched), run) && Windowed(sizes, Init(watched), run, k)
        ensures Lossless(Exec(sizes, Init(watched), run))
      {
        if k == 0 {
          NothingProposed(sizes, Init(watched), run);
        } else {
          WindowSuffices(sizes, Init(watched), run, k);
        }
      }
    } else if !watched {
      var run := UnwatchedLoses(sizes, Init(watched), x, k);
    } else if k > sizes.ring {
      var run := RingOverflows(sizes, Init(watched), x, k);
    } else {
      var run := ChannelOverflows(sizes, Init(watched), x, k);
    }
  }
}
