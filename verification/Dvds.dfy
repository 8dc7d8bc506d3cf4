/** The distributed volatile data structure (internal/controller/dvds/dvds.go) over the map state machine
    (internal/adapter/statemachine/map.go): entries received from the command log are executed on the map,
    snapshots received from the snapshot log are decoded into it. */
module Dvds {
  import opened Basics
  import opened Histories
  import Wal

  datatype Verb = Put | Delete | Other

  /** What the state machine is given.  A snapshot of None is a nil map, which is encoded as null. */
  datatype Input<T, K, V> = Command(verb: Verb, entry: T) | Snapshot(state: Option<map<K, V>>)

  /** The state is a map or nil; writing to a nil map is a panic. */
  datatype Machine<K, V> = Live(state: Option<map<K, V>>) | Crashed

  datatype Outcome = Executed | TransformFailed | Unsupported | Panicked

  /** A map decoded into a map adds to it; null sets it to nil. */
  function Decoded<K, V>(state: Option<map<K, V>>, snapshot: Option<map<K, V>>): Option<map<K, V>> {
    match (state, snapshot)
    case (Some(m), Some(s)) => Some(m + s)
    case _ => snapshot
  }

  /** State returns a copy of the map, which is empty when it is nil. */
  function Copy<K, V>(state: Option<map<K, V>>): map<K, V> {
    if state.Some? then state.value else map[]
  }

  class HashMap<T, K(==), V> {
    var state: Option<map<K, V>>
    const transform: T -> Option<(K, V)>

    constructor (transform: T -> Option<(K, V)>)
      ensures state == Some(map[]) && this.transform == transform
    {
      state, this.transform := Some(map[]), transform;
    }

    /** The error names the reason, and whatever it is the state is then unchanged. */
    method Execute(verb: Verb, entry: T) returns (r: Outcome)
      modifies this`state
      ensures r == Panicked ==> Step(transform, Live(old(state)), Command(verb, entry)) == Crashed
      ensures r != Panicked ==> Step(transform, Live(old(state)), Command(verb, entry)) == Live(state)
      ensures r != Executed ==> state == old(state)
      ensures r == TransformFailed <==> transform(entry).None?
      ensures r == Unsupported <==> transform(entry).Some? && verb == Other
    {
      var kv := transform(entry);
      if kv.None? {
        return TransformFailed;
      }
      match verb
      case Other => r := Unsupported;
      case Put =>
        if state.None? {
          return Panicked;
        }
        state := Some(state.value[kv.value.0 := kv.value.1]);
        r := Executed;
      case Delete =>
        if state.Some? {
          state := Some(state.value - {kv.value.0});
        }
        r := Executed;
    }

    method Decode(snapshot: Option<map<K, V>>)
      modifies this`state
      ensures Step(transform, Live(old(state)), Snapshot(snapshot)) == Live(state)
    {
      if snapshot.Some? && state.Some? {
        state := Some(state.value + snapshot.value);
      } else {
        state := snapshot;
      }
    }
  }

  function Step<T, K, V>(transform: T -> Option<(K, V)>, m: Machine<K, V>, input: Input<T, K, V>): Machine<K, V> {
    match m
    case Crashed => Crashed
    case Live(state) =>
      match input
      case Snapshot(s) => Live(Decoded(state, s))
      case Command(verb, entry) =>
        match transform(entry)
        case None => m
        case Some((k, v)) =>
          if verb.Put? then (if state.None? then Crashed else Live(Some(state.value[k := v])))
          else if verb.Delete? && state.Some? then Live(Some(state.value - {k}))
          else m
  }

  /** The machine after some inputs. */
  function After<T, K, V>(transform: T -> Option<(K, V)>, m: Machine<K, V>, inputs: seq<Input<T, K, V>>): Machine<K, V> {
    if inputs == [] then m
    else Step(transform, After(transform, m, inputs[..|inputs| - 1]), inputs[|inputs| - 1])
  }

  function Replay<T, K, V>(transform: T -> Option<(K, V)>, inputs: seq<Input<T, K, V>>): Machine<K, V> {
    After(transform, Live(Some(map[])), inputs)
  }

  function Puts<T, K, V>(entries: seq<T>): seq<Input<T, K, V>> {
    seq(|entries|, i requires 0 <= i < |entries| => Command(Put, entries[i]))
  }

  lemma AfterPut<T, K, V>(transform: T -> Option<(K, V)>, m: Machine<K, V>, entries: seq<T>, i: nat)
    requires i < |entries|
    ensures After(transform, m, Puts(entries[..i + 1]))
         == Step(transform, After(transform, m, Puts(entries[..i])), Command(Put, entries[i]))
  {
    var inputs: seq<Input<T, K, V>> := Puts(entries[..i + 1]);
    assert inputs[..i] == Puts(entries[..i]);
  }

  lemma {:induction false} CrashStays<T, K, V>(transform: T -> Option<(K, V)>, m: Machine<K, V>, entries: seq<T>, i: nat)
    requires i <= |entries| && After(transform, m, Puts(entries[..i])).Crashed?
    ensures After(transform, m, Puts(entries)).Crashed?
    decreases |entries| - i
  {
    if i == |entries| {
      assert entries[..i] == entries;
    } else {
      AfterPut(transform, m, entries, i);
      CrashStays(transform, m, entries, i + 1);
    }
  }

  /** The two cases of the event loop.  What they return is dispatched to the watchers, None standing for
      a panic. */
  class EventLoop<T, K(==), V> {
    const machine: HashMap<T, K, V>

    constructor (machine: HashMap<T, K, V>)
      ensures this.machine == machine
    {
      this.machine := machine;
    }

    /** A failing entry is skipped, the others are put in order. */
    method OnCommands(entries: seq<T>) returns (published: Option<map<K, V>>)
      modifies machine
      ensures var m := After(machine.transform, Live(old(machine.state)), Puts(entries));
              if published.Some? then m == Live(machine.state) && published.value == Copy(machine.state) else m == Crashed
    {
      ghost var start, transform := Live(machine.state), machine.transform;
      for i := 0 to |entries|
        invariant After(transform, start, Puts(entries[..i])) == Live(machine.state)
      {
        AfterPut(transform, start, entries, i);
        var outcome := machine.Execute(Put, entries[i]);
        if outcome.Panicked? {
          CrashStays(transform, start, entries, i + 1);
          return None;
        }
      }
      assert entries[..|entries|] == entries;
      return Some(Copy(machine.state));
    }

    /** Of several snapshots only the last one counts. */
    method OnSnapshots(snapshots: seq<Option<map<K, V>>>) returns (published: Option<map<K, V>>)
      modifies machine
      ensures snapshots == [] ==> published.None? && machine.state == old(machine.state)
      ensures snapshots != [] ==> published == Some(Copy(machine.state))
      ensures snapshots != [] ==>
                Live(machine.state)
                == Step(machine.transform, Live(old(machine.state)), Snapshot(snapshots[|snapshots| - 1]))
    {
      if |snapshots| == 0 {
        return None;
      }
      machine.Decode(snapshots[|snapshots| - 1]);
      return Some(Copy(machine.state));
    }
  }

  // --- last writer wins -----------------------------------------------------------------------

  /** What an input says about a key: nothing, or the value it leaves there, or that it leaves none. */
  function Says<T, K(==), V>(transform: T -> Option<(K, V)>, input: Input<T, K, V>, k: K): Option<Option<V>> {
    match input
    case Snapshot(None) => Some(None)
    case Snapshot(Some(s)) => if k in s then Some(Some(s[k])) else None
    case Command(verb, entry) =>
      var kv := transform(entry);
      if kv.None? || kv.value.0 != k || verb.Other? then None
      else Some(if verb.Put? then Some(kv.value.1) else None)
  }

  /** The value that the last input with something to say about the key leaves there. */
  function LastWrite<T, K(==), V>(transform: T -> Option<(K, V)>, inputs: seq<Input<T, K, V>>, k: K): Option<V> {
    if inputs == [] then None
    else
      var said := Says(transform, inputs[|inputs| - 1], k);
      if said.Some? then said.value else LastWrite(transform, inputs[..|inputs| - 1], k)
  }

  function Lookup<K(==), V>(m: Machine<K, V>, k: K): Option<V> {
    if m.Live? && k in Copy(m.state) then Some(Copy(m.state)[k]) else None
  }

  lemma {:induction false} LastWriterWins<T, K, V>(transform: T -> Option<(K, V)>, inputs: seq<Input<T, K, V>>, k: K)
    requires Replay(transform, inputs).Live?
    ensures Lookup(Replay(transform, inputs), k) == LastWrite(transform, inputs, k)
  {
    if inputs != [] {
      LastWriterWins(transform, inputs[..|inputs| - 1], k);
    }
  }

  /** A put that goes through transform. */
  predicate Writes<T, K, V>(transform: T -> Option<(K, V)>, input: Input<T, K, V>) {
    input.Command? && input.verb.Put? && transform(input.entry).Some?
  }

  /** A nil snapshot at `i` is followed at `j` by a put, with no proper snapshot between the two. */
  predicate PutOnNil<T, K, V>(transform: T -> Option<(K, V)>, inputs: seq<Input<T, K, V>>, i: int, j: int) {
    && 0 <= i < j < |inputs| && inputs[i].Snapshot? && inputs[i].state.None? && Writes(transform, inputs[j])
    && forall l :: i < l < j ==> !(inputs[l].Snapshot? && inputs[l].state.Some?)
  }

  /** The map is nil when the last snapshot was. */
  predicate NilSince<T, K, V>(inputs: seq<Input<T, K, V>>, i: int) {
    && 0 <= i < |inputs| && inputs[i].Snapshot? && inputs[i].state.None?
    && forall l :: i < l < |inputs| ==> !(inputs[l].Snapshot? && inputs[l].state.Some?)
  }

  lemma {:induction false} NilIff<T, K, V>(transform: T -> Option<(K, V)>, inputs: seq<Input<T, K, V>>)
    requires Replay(transform, inputs).Live?
    ensures Replay(transform, inputs).state.None? <==> exists i :: NilSince(inputs, i)
  {
    if inputs != [] {
      var front, n := inputs[..|inputs| - 1], |inputs| - 1;
      NilIff(transform, front);
      if inputs[n] == Snapshot(None) {
        assert NilSince(inputs, n);
      } else if !inputs[n].Snapshot? {
        forall i | 0 <= i < n ensures NilSince(inputs, i) <==> NilSince(front, i) {
          assert forall l :: 0 <= l < n ==> front[l] == inputs[l];
        }
        assert !NilSince(inputs, n);
      }
    }
  }

  /** The state machine panics exactly when a put follows a nil snapshot before the next proper one. */
  lemma {:induction false} CrashesIff<T, K, V>(transform: T -> Option<(K, V)>, inputs: seq<Input<T, K, V>>)
    ensures Replay(transform, inputs).Crashed? <==> exists i, j :: PutOnNil(transform, inputs, i, j)
  {
    if inputs != [] {
      var front, n := inputs[..|inputs| - 1], |inputs| - 1;
      CrashesIff(transform, front);
      forall i, j | j != n ensures PutOnNil(transform, inputs, i, j) <==> PutOnNil(transform, front, i, j) {}
      if Replay(transform, front).Live? {
        NilIff(transform, front);
        forall i ensures PutOnNil(transform, inputs, i, n) <==> NilSince(front, i) && Writes(transform, inputs[n]) {}
      }
    }
  }

  // --- the whole pipeline ---------------------------------------------------------------------

  /** The sizes of the command log and of the snapshot log. */
  datatype Config = Config(cmd: Wal.Sizes, snap: Wal.Sizes) {
    predicate Valid() {
      cmd.ring > 0 && snap.ring > 0
    }
  }

  datatype System<T, K, V> = System(cmd: Wal.Wal<T>, snap: Wal.Wal<Option<map<K, V>>>, machine: Machine<K, V>,
                                    inputs: seq<Input<T, K, V>>)

  datatype Event<T, K, V> = OnCommands(c: Wal.Event<T>) | OnSnapshots(s: Wal.Event<Option<map<K, V>>>)

  function Init<T, K, V>(): System<T, K, V> {
    System(Wal.Init(false), Wal.Init(false), Live(Some(map[])), [])
  }

  /** A panic ends the process. */
  predicate Enabled<T, K, V>(sys: System<T, K, V>, e: Event<T, K, V>) {
    sys.machine.Live? &&
    match e
    case OnCommands(c) => Wal.Enabled(sys.cmd, c)
    case OnSnapshots(s) => Wal.Enabled(sys.snap, s)
  }

  predicate Delivers<T>(e: Wal.Event<T>) {
    e.Receive? || e.Handoff?
  }

  /** Received entries are executed with the put verb; the log does not pass the verb on. */
  function Apply<T, K, V>(cfg: Config, transform: T -> Option<(K, V)>, sys: System<T, K, V>, e: Event<T, K, V>)
    : System<T, K, V>
    requires cfg.Valid() && Enabled(sys, e)
  {
    match e
    case OnCommands(c) =>
      var sys' := sys.(cmd := Wal.Apply(cfg.cmd, sys.cmd, c));
      if Delivers(c) then Fed(transform, sys', Command(Put, sys'.cmd.received[|sys'.cmd.received| - 1])) else sys'
    case OnSnapshots(s) =>
      var sys' := sys.(snap := Wal.Apply(cfg.snap, sys.snap, s));
      if Delivers(s) then Fed(transform, sys', Snapshot(sys'.snap.received[|sys'.snap.received| - 1])) else sys'
  }

  function Fed<T, K, V>(transform: T -> Option<(K, V)>, sys: System<T, K, V>, input: Input<T, K, V>): System<T, K, V> {
    sys.(machine := Step(transform, sys.machine, input), inputs := sys.inputs + [input])
  }

  predicate Legal<T, K, V>(cfg: Config, transform: T -> Option<(K, V)>, sys: System<T, K, V>,
                           run: seq<Event<T, K, V>>)
    requires cfg.Valid()
    decreases |run|
  {
    run == [] || (Enabled(sys, run[0]) && Legal(cfg, transform, Apply(cfg, transform, sys, run[0]), run[1..]))
  }

  function Exec<T, K, V>(cfg: Config, transform: T -> Option<(K, V)>, sys: System<T, K, V>,
                         run: seq<Event<T, K, V>>): System<T, K, V>
    requires cfg.Valid() && Legal(cfg, transform, sys, run)
    decreases |run|
  {
    if run == [] then sys else Exec(cfg, transform, Apply(cfg, transform, sys, run[0]), run[1..])
  }

  /** The entries and the snapshots among the inputs. */
  function Entries<T, K, V>(inputs: seq<Input<T, K, V>>): seq<T> {
    if inputs == [] then []
    else
      var front, last := Entries(inputs[..|inputs| - 1]), inputs[|inputs| - 1];
      if last.Command? then front + [last.entry] else front
  }

  function Snapshots<T, K, V>(inputs: seq<Input<T, K, V>>): seq<Option<map<K, V>>> {
    if inputs == [] then []
    else
      var front, last := Snapshots(inputs[..|inputs| - 1]), inputs[|inputs| - 1];
      if last.Snapshot? then front + [last.state] else front
  }

  predicate OnlyPuts<T, K, V>(inputs: seq<Input<T, K, V>>) {
    forall i :: 0 <= i < |inputs| && inputs[i].Command? ==> inputs[i].verb.Put?
  }

  ghost predicate Replayed<T, K, V>(transform: T -> Option<(K, V)>, sys: System<T, K, V>) {
    && sys.machine == Replay(transform, sys.inputs) && OnlyPuts(sys.inputs)
    && Entries(sys.inputs) == sys.cmd.received && Snapshots(sys.inputs) == sys.snap.received
  }

  ghost predicate Inv<T, K, V>(cfg: Config, transform: T -> Option<(K, V)>, sys: System<T, K, V>) {
    Wal.Inv(cfg.cmd, sys.cmd) && Wal.Inv(cfg.snap, sys.snap) && Replayed(transform, sys)
  }

  lemma InputsSnoc<T, K, V>(inputs: seq<Input<T, K, V>>, input: Input<T, K, V>)
    ensures Entries(inputs + [input]) == Entries(inputs) + (if input.Command? then [input.entry] else [])
    ensures Snapshots(inputs + [input]) == Snapshots(inputs) + (if input.Snapshot? then [input.state] else [])
  {
    assert (inputs + [input])[..|inputs + [input]| - 1] == inputs;
  }

  lemma FedReplays<T, K, V>(transform: T -> Option<(K, V)>, sys: System<T, K, V>, input: Input<T, K, V>)
    requires sys.machine == Replay(transform, sys.inputs)
    ensures Fed(transform, sys, input).machine == Replay(transform, sys.inputs + [input])
  {
    assert (sys.inputs + [input])[..|sys.inputs + [input]| - 1] == sys.inputs;
  }

  lemma CommandReplays<T, K, V>(cfg: Config, transform: T -> Option<(K, V)>, sys: System<T, K, V>, c: Wal.Event<T>)
    requires cfg.Valid() && Replayed(transform, sys) && Enabled(sys, OnCommands(c))
    ensures Replayed(transform, Apply(cfg, transform, sys, OnCommands(c)))
  {
    var cmd := Wal.Apply(cfg.cmd, sys.cmd, c);
    if Delivers(c) {
      var x := cmd.received[|cmd.received| - 1];
      assert cmd.received == sys.cmd.received + [x];
      FedReplays(transform, sys.(cmd := cmd), Command(Put, x));
      InputsSnoc(sys.inputs, Command(Put, x));
    } else {
      assert cmd.received == sys.cmd.received;
    }
  }

  lemma SnapshotReplays<T, K, V>(cfg: Config, transform: T -> Option<(K, V)>, sys: System<T, K, V>,
                                 s: Wal.Event<Option<map<K, V>>>)
    requires cfg.Valid() && Replayed(transform, sys) && Enabled(sys, OnSnapshots(s))
    ensures Replayed(transform, Apply(cfg, transform, sys, OnSnapshots(s)))
  {
    var snap := Wal.Apply(cfg.snap, sys.snap, s);
    if Delivers(s) {
      var x := snap.received[|snap.received| - 1];
      assert snap.received == sys.snap.received + [x];
      FedReplays(transform, sys.(snap := snap), Snapshot(x));
      InputsSnoc(sys.inputs, Snapshot(x));
    } else {
      assert snap.received == sys.snap.received;
    }
  }

  lemma {:induction false} InvOverRuns<T, K, V>(cfg: Config, transform: T -> Option<(K, V)>, sys: System<T, K, V>,
                                                run: seq<Event<T, K, V>>)
    requires cfg.Valid() && Inv(cfg, transform, sys) && Legal(cfg, transform, sys, run)
    ensures Inv(cfg, transform, Exec(cfg, transform, sys, run))
    decreases |run|
  {
    if run != [] {
      if run[0].OnCommands? {
        Wal.ApplyKeeps(cfg.cmd, sys.cmd, run[0].c);
        CommandReplays(cfg, transform, sys, run[0].c);
      } else {
        Wal.ApplyKeeps(cfg.snap, sys.snap, run[0].s);
        SnapshotReplays(cfg, transform, sys, run[0].s);
      }
      InvOverRuns(cfg, transform, Apply(cfg, transform, sys, run[0]), run[1..]);
    }
  }

  /** In every run the state gives each key the value of the last entry or snapshot that wrote it, among
      entries that are proposals in their order and snapshots likewise. */
  lemma StateIsLastWriter<T, K, V>(cfg: Config, transform: T -> Option<(K, V)>, run: seq<Event<T, K, V>>, k: K)
    requires cfg.Valid() && Legal(cfg, transform, Init(), run)
    ensures var sys := Exec(cfg, transform, Init(), run);
            && InOrder(Entries(sys.inputs), sys.cmd.proposed) && InOrder(Snapshots(sys.inputs), sys.snap.proposed)
            && OnlyPuts(sys.inputs)
            && (sys.machine.Live? ==> Lookup(sys.machine, k) == LastWrite(transform, sys.inputs, k))
  {
    var sys := Exec(cfg, transform, Init(), run);
    InvOverRuns(cfg, transform, Init(), run);
    Wal.ReceivedInOrder(cfg.cmd, sys.cmd);
    Wal.ReceivedInOrder(cfg.snap, sys.snap);
    if sys.machine.Live? {
      LastWriterWins(transform, sys.inputs, k);
    }
  }

  // --- convergence ----------------------------------------------------------------------------

  /** Every proposal has been received. */
  predicate Settled<T, K, V>(sys: System<T, K, V>) {
    && sys.cmd.ring == [] && sys.cmd.chan == [] && sys.cmd.hold.None? && Wal.Lossless(sys.cmd)
    && sys.snap.proposed == []
  }

  lemma {:induction false} NoSnapshots<T, K, V>(inputs: seq<Input<T, K, V>>)
    requires Snapshots(inputs) == [] && OnlyPuts(inputs)
    ensures inputs == Puts(Entries(inputs))
  {
    if inputs != [] {
      NoSnapshots(inputs[..|inputs| - 1]);
    }
  }

  lemma SettledReceived<T, K, V>(cfg: Config, transform: T -> Option<(K, V)>, sys: System<T, K, V>)
    requires cfg.Valid() && Inv(cfg, transform, sys) && Settled(sys)
    ensures sys.cmd.received == sys.cmd.proposed && sys.snap.received == []
  {
    Wal.ReceivedInOrder(cfg.cmd, sys.cmd);
    InOrderLength(sys.cmd.received, sys.cmd.proposed);
    Wal.ReceivedInOrder(cfg.snap, sys.snap);
    InOrderLength(sys.snap.received, sys.snap.proposed);
  }

  lemma PutsAlive<T, K, V>(transform: T -> Option<(K, V)>, entries: seq<T>)
    ensures Replay(transform, Puts(entries)).Live?
  {
    CrashesIff(transform, Puts(entries));
  }

  /** Without snapshots, and once everything has arrived without loss, the state is a function of the
      proposals alone: the last put of each key, whatever the interleaving was. */
  lemma Converges<T, K, V>(cfg: Config, transform: T -> Option<(K, V)>, run: seq<Event<T, K, V>>, k: K)
    requires cfg.Valid() && Legal(cfg, transform, Init(), run) && Settled(Exec(cfg, transform, Init(), run))
    ensures var sys := Exec(cfg, transform, Init(), run);
            sys.machine.Live? && Lookup(sys.machine, k) == LastWrite(transform, Puts(sys.cmd.proposed), k)
  {
    var sys := Exec(cfg, transform, Init(), run);
    InvOverRuns(cfg, transform, Init(), run);
    SettledReceived(cfg, transform, sys);
    NoSnapshots(sys.inputs);
    PutsAlive(transform, sys.cmd.proposed);
    LastWriterWins(transform, sys.inputs, k);
  }
}
