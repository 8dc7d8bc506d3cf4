/** The worker pool (internal/util/workerpool.go): n workers share a queue of functions; after the
    terminate signal each worker drains the queue before it exits, and the done channel closes when all
    have exited.  Functions are numbered in the order in which they are enqueued. */
module WorkerPool {

  datatype Worker = Idle | Running(task: nat, draining: bool) | Draining | Exited

  /** `cap` is the capacity of the queue channel, 0 for an unbuffered one; `cut` is the number of
      functions enqueued when the terminate signal came. */
  datatype Pool = Pool(cap: nat, queue: seq<nat>, workers: seq<Worker>, terminated: bool, closed: bool, done: bool,
                       enq: nat, cut: nat, ran: seq<nat>)

  datatype Event =
    | Send
    | Handoff(w: nat)
    | Terminate
    | CloseQueue
    | Receive(w: nat)
    | SeeTerminate(w: nat)
    | FindEmpty(w: nat)
    | Finish(w: nat)
    | CloseDone

  predicate Waiting(p: Pool, w: nat) {
    w < |p.workers| && (p.workers[w].Idle? || p.workers[w].Draining?)
  }

  predicate Enabled(p: Pool, e: Event) {
    match e
    case Send => !p.closed && |p.queue| < p.cap
    case Handoff(w) => !p.closed && p.queue == [] && Waiting(p, w)
    case Terminate => !p.terminated
    case CloseQueue => !p.closed
    case Receive(w) => Waiting(p, w) && p.queue != []
    case SeeTerminate(w) => w < |p.workers| && p.workers[w].Idle? && p.terminated
    // the default case of a draining worker, or a receive from a queue that is closed and empty
    case FindEmpty(w) => Waiting(p, w) && p.queue == [] && (p.workers[w].Draining? || p.closed)
    case Finish(w) => w < |p.workers| && p.workers[w].Running?
    case CloseDone => !p.done && forall w :: 0 <= w < |p.workers| ==> p.workers[w].Exited?
  }

  function Apply(p: Pool, e: Event): Pool
    requires Enabled(p, e)
  {
    match e
    case Send => p.(queue := p.queue + [p.enq], enq := p.enq + 1)
    case Handoff(w) => p.(workers := p.workers[w := Running(p.enq, p.workers[w].Draining?)], enq := p.enq + 1)
    case Terminate => p.(terminated := true, cut := p.enq)
    case CloseQueue => p.(closed := true)
    case Receive(w) =>
      p.(workers := p.workers[w := Running(p.queue[0], p.workers[w].Draining?)], queue := p.queue[1..])
    case SeeTerminate(w) => p.(workers := p.workers[w := Draining])
    case FindEmpty(w) => p.(workers := p.workers[w := Exited])
    case Finish(w) =>
      p.(workers := p.workers[w := if p.workers[w].draining then Draining else Idle], ran := p.ran + [p.workers[w].task])
    case CloseDone => p.(done := true)
  }

  predicate Legal(p: Pool, run: seq<Event>)
    decreases |run|
  {
    run == [] || (Enabled(p, run[0]) && Legal(Apply(p, run[0]), run[1..]))
  }

  function Exec(p: Pool, run: seq<Event>): Pool
    requires Legal(p, run)
    decreases |run|
  {
    if run == [] then p else Exec(Apply(p, run[0]), run[1..])
  }

  function Init(n: nat, cap: nat): Pool {
    Pool(cap, [], seq(n, _ => Idle), false, false, false, 0, 0, [])
  }

  // --- every function is somewhere, once ------------------------------------------------------

  function Runs(w: Worker, t: nat): nat {
    if w.Running? && w.task == t then 1 else 0
  }

  /** The number of workers running function `t`. */
  function Busy(ws: seq<Worker>, t: nat): nat {
    if ws == [] then 0 else Busy(ws[..|ws| - 1], t) + Runs(ws[|ws| - 1], t)
  }

  lemma {:induction false} BusyUpdate(ws: seq<Worker>, i: nat, x: Worker, t: nat)
    requires i < |ws|
    ensures Busy(ws[i := x], t) == Busy(ws, t) - Runs(ws[i], t) + Runs(x, t)
  {
    var k := |ws| - 1;
    if i == k {
      assert ws[i := x][..k] == ws[..k];
    } else {
      BusyUpdate(ws[..k], i, x, t);
      assert ws[i := x][..k] == ws[..k][i := x];
    }
  }

  lemma {:induction false} NobodyBusy(ws: seq<Worker>, t: nat)
    requires forall w :: 0 <= w < |ws| ==> !ws[w].Running?
    ensures Busy(ws, t) == 0
  {
    if ws != [] {
      NobodyBusy(ws[..|ws| - 1], t);
    }
  }

  /** Function `t` is in the queue, with a worker, or done. */
  function Places(p: Pool, t: nat): nat {
    multiset(p.queue)[t] + Busy(p.workers, t) + multiset(p.ran)[t]
  }

  ghost predicate Conserved(p: Pool) {
    forall t: nat :: Places(p, t) == if t < p.enq then 1 else 0
  }

  /** How many functions were enqueued before the terminate signal. */
  function Before(p: Pool): nat {
    if p.terminated then p.cut else p.enq
  }

  ghost predicate Drained(p: Pool) {
    (p.closed && p.queue == []) || (p.terminated && forall t :: t in p.queue ==> t >= p.cut)
  }

  /** Once a worker has exited, nothing enqueued before the terminate signal is left in the queue. */
  ghost predicate DrainedAtExit(p: Pool) {
    && p.cut <= p.enq
    && (forall w :: 0 <= w < |p.workers| && p.workers[w].Exited? ==> Drained(p))
    && (forall w :: 0 <= w < |p.workers| && (p.workers[w].Draining? || (p.workers[w].Running? && p.workers[w].draining)) ==>
          p.terminated)
  }

  ghost predicate Inv(p: Pool) {
    && Conserved(p) && DrainedAtExit(p)
    && (p.done ==> forall w :: 0 <= w < |p.workers| ==> p.workers[w].Exited?)
  }

  lemma QueuePlaces(p: Pool, e: Event, t: nat)
    requires Enabled(p, e) && (e.Send? || e.Receive?)
    ensures Places(Apply(p, e), t) == Places(p, t) + if e.Send? && t == p.enq then 1 else 0
  {
    if e.Receive? {
      assert p.queue == [p.queue[0]] + p.queue[1..];
      BusyUpdate(p.workers, e.w, Apply(p, e).workers[e.w], t);
    }
  }

  lemma WorkerPlaces(p: Pool, e: Event, t: nat)
    requires Enabled(p, e) && (e.Handoff? || e.SeeTerminate? || e.FindEmpty? || e.Finish?)
    ensures Places(Apply(p, e), t) == Places(p, t) + if e.Handoff? && t == p.enq then 1 else 0
  {
    BusyUpdate(p.workers, e.w, Apply(p, e).workers[e.w], t);
  }

  lemma StepPlaces(p: Pool, e: Event, t: nat)
    requires Enabled(p, e)
    ensures Places(Apply(p, e), t) == Places(p, t) + if (e.Send? || e.Handoff?) && t == p.enq then 1 else 0
  {
    if e.Send? || e.Receive? {
      QueuePlaces(p, e, t);
    } else if e.Handoff? || e.SeeTerminate? || e.FindEmpty? || e.Finish? {
      WorkerPlaces(p, e, t);
    }
  }

  lemma StepConserved(p: Pool, e: Event)
    requires Enabled(p, e) && Conserved(p)
    ensures Conserved(Apply(p, e))
  {
    forall t: nat
      ensures Places(Apply(p, e), t) == if t < Apply(p, e).enq then 1 else 0
    {
      StepPlaces(p, e, t);
    }
  }

  /** What is drained stays drained. */
  lemma DrainedStays(p: Pool, e: Event)
    requires Enabled(p, e) && p.cut <= p.enq && Drained(p)
    ensures Drained(Apply(p, e))
  {
    assert forall t :: t in Apply(p, e).queue ==> t in p.queue || t == p.enq;
  }

  lemma StepDrained(p: Pool, e: Event)
    requires Enabled(p, e) && DrainedAtExit(p)
    ensures DrainedAtExit(Apply(p, e))
  {
    var q := Apply(p, e);
    forall w | 0 <= w < |q.workers| && q.workers[w].Exited?
      ensures Drained(q)
    {
      if e.FindEmpty? {
        assert p.workers[e.w].Draining? || p.closed;
      } else {
        assert p.workers[w].Exited?;
        DrainedStays(p, e);
      }
    }
  }

  lemma {:induction false} InvOverRuns(p: Pool, run: seq<Event>)
    requires Inv(p) && Legal(p, run)
    ensures Inv(Exec(p, run))
    decreases |run|
  {
    if run != [] {
      StepConserved(p, run[0]);
      StepDrained(p, run[0]);
      InvOverRuns(Apply(p, run[0]), run[1..]);
    }
  }

  lemma InitInv(n: nat, cap: nat)
    ensures Inv(Init(n, cap))
  {
    forall t: nat
      ensures Places(Init(n, cap), t) == 0
    {
      NobodyBusy(Init(n, cap).workers, t);
    }
  }

  /** No function is ever run twice, or run without having been enqueued. */
  lemma AtMostOnce(n: nat, cap: nat, run: seq<Event>, t: nat)
    requires Legal(Init(n, cap), run)
    ensures var p := Exec(Init(n, cap), run); multiset(p.ran)[t] <= if t < p.enq then 1 else 0
  {
    InitInv(n, cap);
    InvOverRuns(Init(n, cap), run);
    var p := Exec(Init(n, cap), run);
    assert Places(p, t) == if t < p.enq then 1 else 0;
  }

  /** With at least one worker, every function enqueued before the terminate signal has been run exactly
      once when the done channel closes. */
  lemma DrainedBeforeDone(n: nat, cap: nat, run: seq<Event>, t: nat)
    requires n > 0 && Legal(Init(n, cap), run)
    ensures var p := Exec(Init(n, cap), run); p.done && t < Before(p) ==> multiset(p.ran)[t] == 1
  {
    InitInv(n, cap);
    InvOverRuns(Init(n, cap), run);
    WorkersKept(Init(n, cap), run);
    var p := Exec(Init(n, cap), run);
    if p.done && t < Before(p) {
      assert p.workers[0].Exited?;
      NobodyBusy(p.workers, t);
      assert t !in p.queue;
      assert Places(p, t) == 1;
    }
  }

  lemma {:induction false} WorkersKept(p: Pool, run: seq<Event>)
    requires Legal(p, run)
    ensures |Exec(p, run).workers| == |p.workers|
    decreases |run|
  {
    if run != [] {
      WorkersKept(Apply(p, run[0]), run[1..]);
    }
  }

  // --- no workers -----------------------------------------------------------------------------

  ghost predicate DrainsInRun(n: nat, cap: nat, run: seq<Event>) {
    Legal(Init(n, cap), run) ==>
      var p := Exec(Init(n, cap), run);
      p.done ==> forall t :: 0 <= t < Before(p) ==> multiset(p.ran)[t] == 1
  }

  /** The pool drains in every run exactly when it has a worker, or an unbuffered queue that nobody
      receives from. */
  lemma DrainsIff(n: nat, cap: nat)
    ensures (forall run :: DrainsInRun(n, cap, run)) <==> n > 0 || cap == 0
  {
    if n > 0 {
      forall run
        ensures DrainsInRun(n, cap, run)
      {
        if Legal(Init(n, cap), run) {
          forall t: nat {
            DrainedBeforeDone(n, cap, run, t);
          }
        }
      }
    } else if cap == 0 {
      forall run
        ensures DrainsInRun(n, cap, run)
      {
        if Legal(Init(n, cap), run) {
          NothingEnqueued(Init(n, cap), run);
        }
      }
    } else {
      var run := [Send, CloseDone];
      var p1 := Apply(Init(n, cap), Send);
      var p2 := Apply(p1, CloseDone);
      assert run[1..] == [CloseDone] && run[1..][1..] == [];
      assert Exec(p1, run[1..]) == p2;
      assert Exec(Init(n, cap), run) == p2 && Legal(Init(n, cap), run);
      assert p2.ran == [] && Before(p2) == 1 && multiset(p2.ran)[0] == 0;
      assert !DrainsInRun(n, cap, run);
    }
  }

  lemma {:induction false} NothingEnqueued(p: Pool, run: seq<Event>)
    requires p.workers == [] && p.cap == 0 && p.enq == 0 && p.cut == 0 && Legal(p, run)
    ensures Exec(p, run).enq == 0 && Exec(p, run).cut == 0
    decreases |run|
  {
    if run != [] {
      NothingEnqueued(Apply(p, run[0]), run[1..]);
    }
  }

  // --- one worker -----------------------------------------------------------------------------

  function Current(ws: seq<Worker>): seq<nat> {
    if |ws| == 1 && ws[0].Running? then [ws[0].task] else []
  }

  function UpTo(k: nat): (r: seq<nat>)
    ensures |r| == k && forall i :: 0 <= i < k ==> r[i] == i
  {
    seq(k, i => i)
  }

  ghost predicate Fifo(p: Pool) {
    |p.workers| == 1 && p.ran + Current(p.workers) + p.queue == UpTo(p.enq)
  }

  lemma EnqueueFifo(p: Pool, e: Event)
    requires Fifo(p) && Enabled(p, e) && (e.Send? || e.Handoff?)
    ensures Fifo(Apply(p, e))
  {
    assert UpTo(p.enq + 1) == UpTo(p.enq) + [p.enq];
  }

  lemma StepFifo(p: Pool, e: Event)
    requires Fifo(p) && Enabled(p, e) && !e.Send? && !e.Handoff?
    ensures Fifo(Apply(p, e))
  {
    var q := Apply(p, e);
    if e.Receive? {
      assert p.queue == [p.queue[0]] + p.queue[1..];
      assert Current(p.workers) == [] && Current(q.workers) == [p.queue[0]];
    } else if e.Finish? {
      assert q.ran == p.ran + Current(p.workers) && Current(q.workers) == [];
    } else {
      assert q.ran == p.ran && q.queue == p.queue && Current(q.workers) == Current(p.workers);
    }
  }

  lemma {:induction false} FifoOverRuns(p: Pool, run: seq<Event>)
    requires Fifo(p) && Legal(p, run)
    ensures Fifo(Exec(p, run))
    decreases |run|
  {
    if run != [] {
      if run[0].Send? || run[0].Handoff? {
        EnqueueFifo(p, run[0]);
      } else {
        StepFifo(p, run[0]);
      }
      FifoOverRuns(Apply(p, run[0]), run[1..]);
    }
  }

  /** A single worker runs the functions one at a time in the order in which they were enqueued. */
  lemma SingleWorkerInOrder(cap: nat, run: seq<Event>)
    requires Legal(Init(1, cap), run)
    ensures var p := Exec(Init(1, cap), run); p.ran == UpTo(|p.ran|)
  {
    FifoOverRuns(Init(1, cap), run);
    var p := Exec(Init(1, cap), run);
    assert p.ran == UpTo(p.enq)[..|p.ran|];
  }
}
