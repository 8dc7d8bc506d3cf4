/** The data structure manager (internal/adapter/bpf/manager.go) as a request and reply protocol: callers
    hand events to an event loop, which queues them for a single worker, which applies them and
    replies on a channel of the event. */
module Manager {
  import opened Basics

  type Key = nat

  /** The three kernel structures, as far as userspace writes them. */
  datatype Objects = Objects(backends: seq<nat>, table: seq<nat>, sessions: map<Key, nat>)

  datatype Request =
    | Set(objects: Objects)
    | BatchUpdate(batch: map<Key, nat>)
    | BatchDelete(keys: set<Key>)

  /** How applying a request went.  A failed batch may have been carried out in part. */
  datatype Outcome = Done | Failed(error: nat, sessions: map<Key, nat>)

  function Touched(req: Request): set<Key> {
    match req
    case Set(_) => {}
    case BatchUpdate(batch) => batch.Keys
    case BatchDelete(keys) => keys
  }

  /** The outcomes a request can have: a failure leaves every session outside the batch alone. */
  predicate Possible(active: Objects, req: Request, out: Outcome) {
    out.Failed? ==>
      && (forall k :: k in active.sessions && k !in Touched(req) ==> k in out.sessions && out.sessions[k] == active.sessions[k])
      && (forall k :: k in out.sessions && k !in Touched(req) ==> k in active.sessions)
  }

  /** The active structures afterwards.  A failed Set has written passive copies only. */
  function Effect(active: Objects, req: Request, out: Outcome): Objects {
    match req
    case Set(objects) => if out.Done? then objects else active
    case BatchUpdate(batch) => active.(sessions := if out.Done? then active.sessions + batch else out.sessions)
    case BatchDelete(keys) => active.(sessions := if out.Done? then active.sessions - keys else out.sessions)
  }

  // --- the protocol ---------------------------------------------------------------------------

  const QUEUE_SIZE := 10

  datatype Reply = Nil | Error(error: nat) | Aborted

  datatype Caller = Sending | Awaiting | Returned(reply: Reply)

  datatype Worker = Idle | Handling(call: nat) | Replying(call: nat, error: nat) | Exited

  datatype Handled = Handled(call: nat, outcome: Outcome)

  /** Calls are numbered; `requests[c]` and `callers[c]` belong to call `c`.  `hand` is the event the loop
      has received and not queued yet, `closed` the calls whose reply channel is closed. */
  datatype Manager = Manager(
    requests: seq<Request>, callers: seq<Caller>, accepted: seq<nat>, hand: Option<nat>, queue: seq<nat>,
    worker: Worker, closed: set<nat>, handled: seq<Handled>, active: Objects,
    terminated: bool, loopExited: bool, done: bool)

  datatype Event =
    | Call(request: Request)
    | Accept(call: nat)
    | Enqueue
    | Take
    | Apply(outcome: Outcome)
    | SendError
    | SeeClosed(call: nat)
    | Terminate
    | ExitLoop
    | ExitWorker
    | CloseDone
    | Abort(call: nat)

  predicate Is(m: Manager, c: nat, state: Caller) {
    c < |m.callers| && m.callers[c] == state
  }

  predicate Enabled(m: Manager, e: Event) {
    match e
    case Call(_) => |m.callers| == |m.requests|
    case Accept(c) => !m.loopExited && m.hand.None? && Is(m, c, Sending)
    case Enqueue => m.hand.Some? && |m.queue| < QUEUE_SIZE
    case Take => m.worker.Idle? && m.queue != []
    case Apply(out) => m.worker.Handling? && m.worker.call < |m.requests| && Possible(m.active, m.requests[m.worker.call], out)
    case SendError => m.worker.Replying? && Is(m, m.worker.call, Awaiting)
    case SeeClosed(c) => c in m.closed && Is(m, c, Awaiting)
    case Terminate => !m.terminated
    case ExitLoop => m.terminated && m.hand.None? && !m.loopExited
    case ExitWorker => m.terminated && m.worker.Idle? && m.queue == []
    case CloseDone => m.loopExited && m.worker.Exited? && !m.done
    case Abort(c) => m.done && Is(m, c, Awaiting)
  }

  function Next(m: Manager, e: Event): Manager
    requires Enabled(m, e)
  {
    match e
    case Call(req) => m.(requests := m.requests + [req], callers := m.callers + [Sending])
    case Accept(c) => m.(callers := m.callers[c := Awaiting], hand := Some(c), accepted := m.accepted + [c])
    case Enqueue => m.(queue := m.queue + [m.hand.value], hand := None)
    case Take => m.(worker := Handling(m.queue[0]), queue := m.queue[1..])
    case Apply(out) =>
      var c := m.worker.call;
      var m' := m.(handled := m.handled + [Handled(c, out)], active := Effect(m.active, m.requests[c], out));
      if out.Done? then m'.(worker := Idle, closed := m.closed + {c}) else m'.(worker := Replying(c, out.error))
    case SendError =>
      var c := m.worker.call;
      m.(callers := m.callers[c := Returned(Error(m.worker.error))], worker := Idle, closed := m.closed + {c})
    case SeeClosed(c) => m.(callers := m.callers[c := Returned(Nil)])
    case Terminate => m.(terminated := true)
    case ExitLoop => m.(loopExited := true)
    case ExitWorker => m.(worker := Exited)
    case CloseDone => m.(done := true)
    case Abort(c) => m.(callers := m.callers[c := Returned(Aborted)])
  }

  predicate Legal(m: Manager, run: seq<Event>)
    decreases |run|
  {
    run == [] || (Enabled(m, run[0]) && Legal(Next(m, run[0]), run[1..]))
  }

  function Exec(m: Manager, run: seq<Event>): Manager
    requires Legal(m, run)
    decreases |run|
  {
    if run == [] then m else Exec(Next(m, run[0]), run[1..])
  }

  function Init(active: Objects): Manager {
    Manager([], [], [], None, [], Idle, {}, [], active, false, false, false)
  }

  // --- order ----------------------------------------------------------------------------------

  function Calls(handled: seq<Handled>): (r: seq<nat>)
    ensures |r| == |handled| && forall i :: 0 <= i < |r| ==> r[i] == handled[i].call
  {
    seq(|handled|, i requires 0 <= i < |handled| => handled[i].call)
  }

  function AtWorker(w: Worker): seq<nat> {
    if w.Handling? then [w.call] else []
  }

  function AtLoop(hand: Option<nat>): seq<nat> {
    if hand.Some? then [hand.value] else []
  }

  /** The accepted events, in order, are the handled ones, the one the worker handles, the queued ones and
      the one the loop holds. */
  ghost predicate InOrder(m: Manager) {
    m.accepted == Calls(m.handled) + AtWorker(m.worker) + m.queue + AtLoop(m.hand)
  }

  lemma MovesInOrder(m: Manager, e: Event)
    requires InOrder(m) && Enabled(m, e) && (e.Accept? || e.Enqueue? || e.Take?)
    ensures InOrder(Next(m, e))
  {
    if e.Take? {
      assert m.queue == [m.queue[0]] + m.queue[1..];
    }
  }

  lemma CallsSnoc(handled: seq<Handled>, h: Handled)
    ensures Calls(handled + [h]) == Calls(handled) + [h.call]
  {
  }

  lemma ApplyInOrder(m: Manager, e: Event)
    requires InOrder(m) && Enabled(m, e) && e.Apply?
    ensures InOrder(Next(m, e))
  {
    var m' := Next(m, e);
    CallsSnoc(m.handled, Handled(m.worker.call, e.outcome));
    assert m'.handled == m.handled + [Handled(m.worker.call, e.outcome)];
    assert AtWorker(m'.worker) == [] && AtWorker(m.worker) == [m.worker.call];
    assert m'.accepted == m.accepted && m'.queue == m.queue && m'.hand == m.hand;
    assert Calls(m.handled) + AtWorker(m.worker) == Calls(m'.handled) + AtWorker(m'.worker);
  }

  lemma StepInOrder(m: Manager, e: Event)
    requires InOrder(m) && Enabled(m, e)
    ensures InOrder(Next(m, e))
  {
    if e.Apply? {
      ApplyInOrder(m, e);
    } else if e.Accept? || e.Enqueue? || e.Take? {
      MovesInOrder(m, e);
    }
  }

  ghost predicate Distinct(s: seq<nat>) {
    forall i, j :: 0 <= i < j < |s| ==> s[i] != s[j]
  }

  // --- replies --------------------------------------------------------------------------------

  /** What the state of a call says about its event. */
  ghost predicate ReplyMeans(m: Manager, c: nat)
    requires c < |m.callers|
  {
    match m.callers[c]
    case Sending => c !in m.accepted
    case Awaiting =>
      && c in m.accepted && (c in m.closed ==> Handled(c, Done) in m.handled)
    case Returned(Nil) => c in m.accepted && Handled(c, Done) in m.handled
    case Returned(Error(err)) => c in m.accepted && exists s :: Handled(c, Failed(err, s)) in m.handled
    case Returned(Aborted) => c in m.accepted && m.done
  }

  ghost predicate Inv(m: Manager) {
    && |m.requests| == |m.callers| && InOrder(m) && Distinct(m.accepted)
    && (forall i :: 0 <= i < |m.accepted| ==> m.accepted[i] < |m.callers|)
    && (forall c :: 0 <= c < |m.callers| ==> ReplyMeans(m, c))
    && (m.worker.Replying? ==>
          && m.worker.call < |m.callers| && m.callers[m.worker.call] == Awaiting
          && exists s :: Handled(m.worker.call, Failed(m.worker.error, s)) in m.handled)
    && (m.done ==> m.worker.Exited?)
    && (forall c :: c in m.closed ==> c in Calls(m.handled))
  }

  lemma AcceptKeeps(m: Manager, e: Event)
    requires Inv(m) && Enabled(m, e) && e.Accept?
    ensures Inv(Next(m, e))
  {
    var m' := Next(m, e);
    StepInOrder(m, e);
    assert e.call !in m.accepted by { assert ReplyMeans(m, e.call); }
    forall c | 0 <= c < |m'.callers|
      ensures ReplyMeans(m', c)
    {
      assert ReplyMeans(m, c);
    }
  }

  /** The event the worker handles has not been handled before, and its caller waits. */
  lemma HandlingIsFirst(m: Manager)
    requires Inv(m) && m.worker.Handling?
    ensures m.worker.call < |m.callers| && m.callers[m.worker.call] == Awaiting
    ensures m.worker.call !in Calls(m.handled)
  {
    var c, k := m.worker.call, |m.handled|;
    assert m.accepted[k] == c;
    forall i | 0 <= i < k
      ensures Calls(m.handled)[i] != c
    {
      assert m.accepted[i] == Calls(m.handled)[i];
    }
    assert ReplyMeans(m, c);
    assert forall out :: Handled(c, out) !in m.handled;
  }

  lemma HandledGrows(m: Manager, e: Event)
    requires Enabled(m, e) && e.Apply?
    ensures var m' := Next(m, e);
            && m'.handled == m.handled + [Handled(m.worker.call, e.outcome)]
            && (forall x :: x in m.handled ==> x in m'.handled) && Handled(m.worker.call, e.outcome) in m'.handled
            && (forall c :: c in m'.closed ==> c in m.closed || (c == m.worker.call && e.outcome.Done?))
            && (forall c :: c in Calls(m.handled) ==> c in Calls(m'.handled)) && m.worker.call in Calls(m'.handled)
  {
    var m' := Next(m, e);
    CallsSnoc(m.handled, Handled(m.worker.call, e.outcome));
    assert Calls(m'.handled)[|m.handled|] == m.worker.call;
    assert m'.handled[|m.handled|] == Handled(m.worker.call, e.outcome);
  }

  lemma ApplyReplies(m: Manager, e: Event, c: nat)
    requires Enabled(m, e) && e.Apply? && c < |m.callers| && ReplyMeans(m, c)
    ensures ReplyMeans(Next(m, e), c)
  {
    HandledGrows(m, e);
  }

  lemma ApplyKeeps(m: Manager, e: Event)
    requires Inv(m) && Enabled(m, e) && e.Apply?
    ensures Inv(Next(m, e))
  {
    var m' := Next(m, e);
    StepInOrder(m, e);
    HandlingIsFirst(m);
    HandledGrows(m, e);
    forall c | 0 <= c < |m'.callers|
      ensures ReplyMeans(m', c)
    {
      ApplyReplies(m, e, c);
    }
  }

  lemma SendErrorKeeps(m: Manager, e: Event)
    requires Inv(m) && Enabled(m, e) && e.SendError?
    ensures Inv(Next(m, e))
  {
    var m', c0, err := Next(m, e), m.worker.call, m.worker.error;
    StepInOrder(m, e);
    assert ReplyMeans(m, c0);
    var s :| Handled(c0, Failed(err, s)) in m.handled;
    var i :| 0 <= i < |m.handled| && m.handled[i] == Handled(c0, Failed(err, s));
    assert Calls(m.handled)[i] == c0;
    forall c | 0 <= c < |m'.callers|
      ensures ReplyMeans(m', c)
    {
      assert ReplyMeans(m, c);
    }
  }

  /** An event is handled once, so it does not both succeed and fail. */
  lemma OneOutcome(m: Manager, c: nat, x: Outcome, y: Outcome)
    requires Inv(m) && Handled(c, x) in m.handled && Handled(c, y) in m.handled
    ensures x == y
  {
    var i :| 0 <= i < |m.handled| && m.handled[i] == Handled(c, x);
    var j :| 0 <= j < |m.handled| && m.handled[j] == Handled(c, y);
    assert m.accepted[i] == c && m.accepted[j] == c;
  }

  lemma SeeClosedKeeps(m: Manager, e: Event)
    requires Inv(m) && Enabled(m, e) && e.SeeClosed?
    ensures Inv(Next(m, e))
  {
    var m' := Next(m, e);
    StepInOrder(m, e);
    assert ReplyMeans(m, e.call);
    if m.worker.Replying? && m.worker.call == e.call {
      var s :| Handled(e.call, Failed(m.worker.error, s)) in m.handled;
      OneOutcome(m, e.call, Done, Failed(m.worker.error, s));
    }
    forall c | 0 <= c < |m'.callers|
      ensures ReplyMeans(m', c)
    {
      assert ReplyMeans(m, c);
    }
  }

  lemma OthersKeep(m: Manager, e: Event)
    requires Inv(m) && Enabled(m, e) && !e.Accept? && !e.Apply? && !e.SendError? && !e.SeeClosed?
    ensures Inv(Next(m, e))
  {
    var m' := Next(m, e);
    StepInOrder(m, e);
    forall c | 0 <= c < |m'.callers|
      ensures ReplyMeans(m', c)
    {
      if c < |m.callers| {
        assert ReplyMeans(m, c);
      }
    }
  }

  lemma {:induction false} InvOverRuns(m: Manager, run: seq<Event>)
    requires Inv(m) && Legal(m, run)
    ensures Inv(Exec(m, run))
    decreases |run|
  {
    if run != [] {
      if run[0].Accept? {
        AcceptKeeps(m, run[0]);
      } else if run[0].Apply? {
        ApplyKeeps(m, run[0]);
      } else if run[0].SendError? {
        SendErrorKeeps(m, run[0]);
      } else if run[0].SeeClosed? {
        SeeClosedKeeps(m, run[0]);
      } else {
        OthersKeep(m, run[0]);
      }
      InvOverRuns(Next(m, run[0]), run[1..]);
    }
  }

  lemma DistinctOnce(s: seq<nat>, i: nat)
    requires Distinct(s) && i < |s|
    ensures multiset(s)[s[i]] == 1
  {
    assert s == s[..i] + [s[i]] + s[i + 1..];
    assert s[i] !in s[..i] && s[i] !in s[i + 1..];
  }

  lemma HandledOnce(m: Manager, c: nat, out: Outcome)
    requires Inv(m) && Handled(c, out) in m.handled
    ensures multiset(Calls(m.handled))[c] == 1
  {
    assert Distinct(Calls(m.handled)) by {
      assert forall i :: 0 <= i < |m.handled| ==> Calls(m.handled)[i] == m.accepted[i];
    }
    var i :| 0 <= i < |m.handled| && m.handled[i] == Handled(c, out);
    DistinctOnce(Calls(m.handled), i);
  }

  ghost predicate ReplyIsTrue(m: Manager, c: nat)
    requires c < |m.callers|
  {
    && (m.callers[c] == Returned(Nil) ==> multiset(Calls(m.handled))[c] == 1 && Handled(c, Done) in m.handled)
    && (m.callers[c].Returned? && m.callers[c].reply.Error? ==>
          && multiset(Calls(m.handled))[c] == 1
          && exists s :: Handled(c, Failed(m.callers[c].reply.error, s)) in m.handled)
    && (m.callers[c] == Returned(Aborted) ==> m.done)
  }

  lemma ReplyMeansTruth(m: Manager, c: nat)
    requires Inv(m) && c < |m.callers|
    ensures ReplyIsTrue(m, c)
  {
    assert ReplyMeans(m, c);
    if out :| Handled(c, out) in m.handled {
      HandledOnce(m, c, out);
    }
  }

  /** A caller gets nil only if its event was handled exactly once and succeeded, and an error only if it
      was handled exactly once and failed with that error. */
  lemma RepliesAreTrue(active: Objects, run: seq<Event>, c: nat)
    requires Legal(Init(active), run) && c < |Exec(Init(active), run).callers|
    ensures ReplyIsTrue(Exec(Init(active), run), c)
  {
    InvOverRuns(Init(active), run);
    ReplyMeansTruth(Exec(Init(active), run), c);
  }

  /** Events are handled in the order in which they were accepted. */
  lemma HandledInAcceptanceOrder(active: Objects, run: seq<Event>)
    requires Legal(Init(active), run)
    ensures var m := Exec(Init(active), run); Calls(m.handled) <= m.accepted
  {
    InvOverRuns(Init(active), run);
  }

  /** A worker that has an error to report finds its caller waiting for it. */
  lemma ErrorIsAwaited(active: Objects, run: seq<Event>)
    requires Legal(Init(active), run) && Exec(Init(active), run).worker.Replying?
    ensures Enabled(Exec(Init(active), run), SendError)
  {
    InvOverRuns(Init(active), run);
  }

  // --- the active structures ------------------------------------------------------------------

  function Replay(active: Objects, requests: seq<Request>, handled: seq<Handled>): Objects
    requires forall i :: 0 <= i < |handled| ==> handled[i].call < |requests|
  {
    if handled == [] then active
    else
      var h := handled[|handled| - 1];
      Effect(Replay(active, requests, handled[..|handled| - 1]), requests[h.call], h.outcome)
  }

  ghost predicate Replayed(m: Manager, start: Objects) {
    && (forall i :: 0 <= i < |m.handled| ==> m.handled[i].call < |m.requests|)
    && m.active == Replay(start, m.requests, m.handled)
  }

  lemma {:induction false} MoreRequests(active: Objects, requests: seq<Request>, more: seq<Request>, handled: seq<Handled>)
    requires forall i :: 0 <= i < |handled| ==> handled[i].call < |requests|
    ensures Replay(active, requests + more, handled) == Replay(active, requests, handled)
  {
    if handled != [] {
      MoreRequests(active, requests, more, handled[..|handled| - 1]);
    }
  }

  lemma ApplyReplayed(m: Manager, out: Outcome, start: Objects)
    requires Enabled(m, Apply(out)) && Replayed(m, start)
    ensures Replayed(Next(m, Apply(out)), start)
  {
    var m', h := Next(m, Apply(out)), Handled(m.worker.call, out);
    assert m'.handled == m.handled + [h] && m'.requests == m.requests;
    assert m'.handled[..|m'.handled| - 1] == m.handled && m'.handled[|m'.handled| - 1] == h;
  }

  lemma OthersLeaveActive(m: Manager, e: Event)
    requires Enabled(m, e) && !e.Call? && !e.Apply?
    ensures var m' := Next(m, e); m'.handled == m.handled && m'.requests == m.requests && m'.active == m.active
  {
  }

  lemma StepReplayed(m: Manager, e: Event, start: Objects)
    requires Enabled(m, e) && Replayed(m, start)
    ensures Replayed(Next(m, e), start)
  {
    if e.Call? {
      MoreRequests(start, m.requests, [e.request], m.handled);
    } else if e.Apply? {
      ApplyReplayed(m, e.outcome, start);
    } else {
      OthersLeaveActive(m, e);
    }
  }

  /** At any time the active structures are what the handled events, one after the other, make of the
      initial ones. */
  lemma {:induction false} ActiveIsReplay(m: Manager, run: seq<Event>, start: Objects)
    requires Legal(m, run) && Replayed(m, start)
    ensures Replayed(Exec(m, run), start)
    decreases |run|
  {
    if run != [] {
      StepReplayed(m, run[0], start);
      ActiveIsReplay(Next(m, run[0]), run[1..], start);
    }
  }

  // --- the last triple set --------------------------------------------------------------------

  predicate SetAt(m: Manager, h: int) {
    && 0 <= h < |m.handled| && m.handled[h].call < |m.requests|
    && m.requests[m.handled[h].call].Set? && m.handled[h].outcome.Done?
  }

  /** The last of the handled events that set a triple with success. */
  predicate LastSetAt(m: Manager, h: int) {
    SetAt(m, h) && forall i :: h < i < |m.handled| ==> !SetAt(m, i)
  }

  /** No batch handled after `h` names session `k`. */
  predicate UntouchedSince(m: Manager, h: int, k: Key) {
    forall i :: h < i < |m.handled| && 0 <= i ==>
      m.handled[i].call < |m.requests| && k !in Touched(m.requests[m.handled[i].call])
  }

  predicate Agree(a: map<Key, nat>, b: map<Key, nat>, k: Key) {
    (k in a <==> k in b) && (k in a ==> a[k] == b[k])
  }

  /** The active structures come from the triple set at `h`, except for sessions batches named since. */
  predicate FromSet(m: Manager, h: int, k: Key)
    requires SetAt(m, h)
  {
    var o := m.requests[m.handled[h].call].objects;
    && m.active.backends == o.backends && m.active.table == o.table
    && (UntouchedSince(m, h, k) ==> Agree(m.active.sessions, o.sessions, k))
  }

  ghost predicate SetsStand(m: Manager, k: Key) {
    && (forall i :: 0 <= i < |m.handled| ==> m.handled[i].call < |m.requests|)
    && (forall h :: LastSetAt(m, h) ==> FromSet(m, h, k))
  }

  /** An effect other than a successful set. */
  lemma EffectKeeps(active: Objects, req: Request, out: Outcome, k: Key)
    requires Possible(active, req, out) && !(req.Set? && out.Done?)
    ensures var a := Effect(active, req, out);
            && a.backends == active.backends && a.table == active.table
            && (k !in Touched(req) ==> Agree(a.sessions, active.sessions, k))
  {
  }

  lemma ApplySetsStand(m: Manager, out: Outcome, k: Key, h: int)
    requires Enabled(m, Apply(out)) && SetsStand(m, k) && LastSetAt(Next(m, Apply(out)), h)
    ensures FromSet(Next(m, Apply(out)), h, k)
  {
    var m', n := Next(m, Apply(out)), |m.handled|;
    var req := m.requests[m.worker.call];
    assert m'.handled == m.handled + [Handled(m.worker.call, out)] && m'.requests == m.requests;
    if h < n {
      assert !SetAt(m', n) && m'.handled[h] == m.handled[h];
      assert LastSetAt(m, h) by {
        forall i | h < i < n
          ensures !SetAt(m, i)
        {
          assert !SetAt(m', i);
        }
      }
      EffectKeeps(m.active, req, out, k);
      if UntouchedSince(m', h, k) {
        assert k !in Touched(m'.requests[m'.handled[n].call]);
        assert UntouchedSince(m, h, k) by {
          assert forall i :: 0 <= i < n ==> m'.handled[i] == m.handled[i];
        }
      }
    }
  }

  lemma CallSetsStand(m: Manager, req: Request, k: Key, h: int)
    requires Enabled(m, Call(req)) && SetsStand(m, k) && LastSetAt(Next(m, Call(req)), h)
    ensures FromSet(Next(m, Call(req)), h, k)
  {
    var m' := Next(m, Call(req));
    assert forall i :: SetAt(m', i) <==> SetAt(m, i);
    assert LastSetAt(m, h);
    assert UntouchedSince(m', h, k) ==> UntouchedSince(m, h, k);
  }

  lemma StepSetsStand(m: Manager, e: Event, k: Key)
    requires Enabled(m, e) && SetsStand(m, k)
    ensures SetsStand(Next(m, e), k)
  {
    var m' := Next(m, e);
    if e.Call? || e.Apply? {
      forall h | LastSetAt(m', h)
        ensures FromSet(m', h, k)
      {
        if e.Call? {
          CallSetsStand(m, e.request, k, h);
        } else {
          ApplySetsStand(m, e.outcome, k, h);
        }
      }
    } else {
      OthersLeaveActive(m, e);
      assert forall h :: SetAt(m', h) <==> SetAt(m, h);
      assert forall h :: LastSetAt(m', h) ==> LastSetAt(m, h);
      assert forall h :: UntouchedSince(m', h, k) ==> UntouchedSince(m, h, k);
    }
  }

  /** In every run the active backend list and lookup table are those of the last triple that was set with
      success, and so is the entry of every session that no batch has named since; failed calls of
      SetObjects leave no trace. */
  lemma {:induction false} LastSetWins(m: Manager, run: seq<Event>, k: Key)
    requires SetsStand(m, k) && Legal(m, run)
    ensures SetsStand(Exec(m, run), k)
    decreases |run|
  {
    if run != [] {
      StepSetsStand(m, run[0], k);
      LastSetWins(Next(m, run[0]), run[1..], k);
    }
  }

  /** What nil promises a caller of SetObjects: its triple was made active, and unless another one has been
      since, it still is. */
  lemma NilMeansInstalled(active: Objects, run: seq<Event>, c: nat, k: Key) returns (h: nat)
    requires Legal(Init(active), run)
    requires var m := Exec(Init(active), run);
             c < |m.callers| && m.callers[c] == Returned(Nil) && c < |m.requests| && m.requests[c].Set?
    ensures var m := Exec(Init(active), run);
            && SetAt(m, h) && m.handled[h].call == c
            && (LastSetAt(m, h) ==> FromSet(m, h, k))
  {
    var m := Exec(Init(active), run);
    InvOverRuns(Init(active), run);
    LastSetWins(Init(active), run, k);
    assert ReplyMeans(m, c);
    h :| 0 <= h < |m.handled| && m.handled[h] == Handled(c, Done);
  }

  // --- the entry of a session -----------------------------------------------------------------

  function RequestAt(m: Manager, h: nat): Request
    requires h < |m.handled| && m.handled[h].call < |m.requests|
  {
    m.requests[m.handled[h].call]
  }

  /** The event handled at `h` has a say about session `k`. */
  predicate Concerns(m: Manager, h: nat, k: Key)
    requires h < |m.handled| && m.handled[h].call < |m.requests|
  {
    if RequestAt(m, h).Set? then m.handled[h].outcome.Done? else k in Touched(RequestAt(m, h))
  }

  ghost predicate Numbered(m: Manager) {
    forall i :: 0 <= i < |m.handled| ==> m.handled[i].call < |m.requests|
  }

  /** The event handled at `h` succeeded, and is the last one with a say about session `k`. */
  ghost predicate Decides(m: Manager, h: nat, k: Key)
    requires Numbered(m)
  {
    && h < |m.handled| && m.handled[h].outcome.Done? && Concerns(m, h, k)
    && forall i :: h < i < |m.handled| ==> !Concerns(m, i, k)
  }

  /** The active entry of session `k` is what the request says: the entry of the triple, the value in the
      batch, or none. */
  predicate EntryIs(sessions: map<Key, nat>, k: Key, req: Request) {
    match req
    case Set(o) => if k in o.sessions then k in sessions && sessions[k] == o.sessions[k] else k !in sessions
    case BatchUpdate(batch) => k in batch && k in sessions && sessions[k] == batch[k]
    case BatchDelete(_) => k !in sessions
  }

  ghost predicate EntriesStand(m: Manager, k: Key) {
    Numbered(m) && forall h: nat :: Decides(m, h, k) ==> EntryIs(m.active.sessions, k, RequestAt(m, h))
  }

  /** A success with a say about the session gives it its entry. */
  lemma DoneGivesEntry(active: Objects, req: Request, k: Key)
    requires req.Set? || k in Touched(req)
    ensures EntryIs(Effect(active, req, Done).sessions, k, req)
  {
  }

  /** An event without a say about the session leaves its entry alone. */
  lemma OthersKeepEntry(active: Objects, req: Request, out: Outcome, k: Key, by0: Request)
    requires Possible(active, req, out) && !(req.Set? && out.Done?) && k !in Touched(req)
    requires EntryIs(active.sessions, k, by0)
    ensures EntryIs(Effect(active, req, out).sessions, k, by0)
  {
    EffectKeeps(active, req, out, k);
  }

  lemma ApplyEntriesStand(m: Manager, out: Outcome, k: Key)
    requires Enabled(m, Apply(out)) && EntriesStand(m, k)
    ensures EntriesStand(Next(m, Apply(out)), k)
  {
    var m', n, req := Next(m, Apply(out)), |m.handled|, m.requests[m.worker.call];
    assert m'.handled == m.handled + [Handled(m.worker.call, out)] && m'.requests == m.requests;
    assert m'.active == Effect(m.active, req, out);
    forall h: nat | Decides(m', h, k)
      ensures EntryIs(m'.active.sessions, k, RequestAt(m', h))
    {
      if h == n {
        DoneGivesEntry(m.active, req, k);
      } else {
        assert forall i :: 0 <= i < n ==> m'.handled[i] == m.handled[i] && (Concerns(m', i, k) <==> Concerns(m, i, k));
        assert !Concerns(m', n, k);
        assert Decides(m, h, k);
        OthersKeepEntry(m.active, req, out, k, RequestAt(m, h));
      }
    }
  }

  lemma StepEntriesStand(m: Manager, e: Event, k: Key)
    requires Enabled(m, e) && EntriesStand(m, k)
    ensures EntriesStand(Next(m, e), k)
  {
    if e.Apply? {
      ApplyEntriesStand(m, e.outcome, k);
    } else {
      var m' := Next(m, e);
      assert m'.handled == m.handled && m.requests <= m'.requests && m'.active == m.active;
      assert forall i :: 0 <= i < |m.handled| ==> (Concerns(m', i, k) <==> Concerns(m, i, k));
      assert forall h: nat :: Decides(m', h, k) ==> Decides(m, h, k);
    }
  }

  /** In every run the entry of a session is what the last successful event with a say about it gave it. */
  lemma {:induction false} LastWordStands(m: Manager, run: seq<Event>, k: Key)
    requires EntriesStand(m, k) && Legal(m, run)
    ensures EntriesStand(Exec(m, run), k)
    decreases |run|
  {
    if run != [] {
      StepEntriesStand(m, run[0], k);
      LastWordStands(Next(m, run[0]), run[1..], k);
    }
  }

  /** What nil promises the caller of a batch: as long as no later event sets a triple or names the session, an
      updated session has the value of the batch, and a deleted one has no entry. */
  lemma NilMeansBatchDone(active: Objects, run: seq<Event>, c: nat, k: Key) returns (h: nat)
    requires Legal(Init(active), run)
    requires var m := Exec(Init(active), run);
             && c < |m.callers| && m.callers[c] == Returned(Nil) && c < |m.requests|
             && !m.requests[c].Set? && k in Touched(m.requests[c])
    ensures var m := Exec(Init(active), run);
            && Numbered(m) && h < |m.handled| && m.handled[h] == Handled(c, Done)
            && ((forall i :: h < i < |m.handled| ==> !Concerns(m, i, k)) ==>
                  && (m.requests[c].BatchUpdate? ==>
                        k in m.active.sessions && m.active.sessions[k] == m.requests[c].batch[k])
                  && (m.requests[c].BatchDelete? ==> k !in m.active.sessions))
  {
    var m := Exec(Init(active), run);
    InvOverRuns(Init(active), run);
    LastWordStands(Init(active), run, k);
    assert ReplyMeans(m, c);
    h :| 0 <= h < |m.handled| && m.handled[h] == Handled(c, Done);
    assert RequestAt(m, h) == m.requests[c];
    if forall i :: h < i < |m.handled| ==> !Concerns(m, i, k) {
      assert Decides(m, h, k);
    }
  }

  /** Once the done channel is closed, nothing is applied any more. */
  lemma {:induction false} FrozenAfterDone(m: Manager, run: seq<Event>)
    requires Inv(m) && m.done && Legal(m, run)
    ensures Exec(m, run).active == m.active && Exec(m, run).handled == m.handled
    decreases |run|
  {
    if run != [] {
      InvOverRuns(m, [run[0]]);
      assert Exec(m, [run[0]]) == Next(m, run[0]);
      FrozenAfterDone(Next(m, run[0]), run[1..]);
    }
  }

  // --- setObjects -----------------------------------------------------------------------------

  /** The structures in two copies each.  One pointer, shared by all three, says which the kernel reads. */
  class Structures {
    var backendLists: (seq<nat>, seq<nat>)
    var lookupTables: (seq<nat>, seq<nat>)
    var sessionMaps: (map<Key, nat>, map<Key, nat>)
    var activePointer: bool

    function Copy(first: bool): Objects
      reads this
    {
      if first then Objects(backendLists.0, lookupTables.0, sessionMaps.0)
      else Objects(backendLists.1, lookupTables.1, sessionMaps.1)
    }

    function Active(): Objects
      reads this
    {
      Copy(activePointer)
    }

    /** setObjects: write the three passive copies, then run the three switchovers, each of which points the
        shared pointer to the copy written; the first write that fails ends the call before any switchover.
        `okB`, `okL` and `okS` say which writes succeed. */
    method SetObjects(objs: Objects, okB: bool, okL: bool, okS: bool) returns (failed: bool)
      modifies this
      ensures failed == !(okB && okL && okS) && activePointer == (old(activePointer) == failed)
      ensures Active() == Effect(old(Active()), Set(objs), if failed then Failed(0, map[]) else Done)
      ensures Copy(old(activePointer)) == old(Active())
    {
      failed := true;
      var written := !activePointer;
      if !okB {
        return;
      }
      backendLists := if written then (objs.backends, backendLists.1) else (backendLists.0, objs.backends);
      if !okL {
        return;
      }
      lookupTables := if written then (objs.table, lookupTables.1) else (lookupTables.0, objs.table);
      if !okS {
        return;
      }
      sessionMaps := if written then (objs.sessions, sessionMaps.1) else (sessionMaps.0, objs.sessions);
      activePointer := written;  // bSwitchover
      activePointer := written;  // lupSwitchover
      activePointer := written;  // sSwitchover
      failed := false;
    }
  }
}
