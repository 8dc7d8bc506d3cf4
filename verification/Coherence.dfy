/** The controller and the XDP program together: what every run of assignments, health events and
    packets keeps.  SetObjects installs a triple as a whole or fails and leaves the active maps alone
    (internal/adapter/bpf/manager.go). */
module Coherence {
  import opened Basics
  import opened Checksum
  import opened Controller
  import opened ControllerLoops
  import opened KernelPath
  import opened KernelProperties
  import opened Frames

  /** The controller, the active maps, and the backend list they were filled from. */
  datatype System = System(ctl: Ctl, maps: Maps, installed: seq<Backend>)

  /** transformBackendList for one backend: the port is truncated to 16 bits. */
  function SpecOf(b: Backend): Spec {
    Spec(b.id, b.ip, b.port % 0x1_0000, b.mac[..6])
  }

  /** `maps` hold the triple; array entries beyond it may be left over from earlier triples. */
  ghost predicate Holds(maps: Maps, t: Triple) {
    && Sized(maps) && |t.backends| <= MAX_BACKENDS && |t.table| <= MAX_SLOTS
    && (forall i :: 0 <= i < |t.backends| ==> maps.backends[i] == SpecOf(t.backends[i]))
    && (forall k :: 0 <= k < |t.table| ==> maps.table[k] == t.table[k])
    && (forall s :: s in maps.sessions <==> s in t.sessions)
    && (forall s :: s in maps.sessions ==> maps.sessions[s] == t.sessions[s])
  }

  /** A controller event.  If it leads to SetObjects with some triple, either the triple is installed
      or the call fails. */
  ghost predicate ControlStep(s: System, s': System, cfg: Config, e: Event) {
    && s'.ctl == Next(s.ctl, e)
    && (|| (s'.maps == s.maps && s'.installed == s.installed)
        || (Applies(s.ctl.backends, e) && Installs(s', cfg)))
  }

  /** The maps hold a triple of the current backends and sessions. */
  ghost predicate Installs(s: System, cfg: Config) {
    && s.installed == FilterAvailable(s.ctl.backends)
    && exists table :: IsTable(table, s.installed, cfg.size) && Holds(s.maps, Triple(s.installed, table, s.ctl.sessions))
  }

  ghost predicate PacketStep(s: System, s': System, cfg: Config, p: Packet)
    requires cfg.size > 0
  {
    s' == s.(maps := KernelProperties.After(s.maps, cfg, p))
  }

  /** The maps as they are loaded: all entries zero. */
  ghost predicate Initial(s: System, cfg: Config) {
    && |s.ctl.backends| <= MAX_BACKENDS && s.ctl.sessions == map[] && s.installed == []
    && Sized(s.maps) && s.maps.sessions == map[] && (forall k :: 0 <= k < MAX_SLOTS ==> s.maps.table[k] == 0)
    && cfg.size == ComputeLookupTableSize(|s.ctl.backends|)
  }

  /** The backends the maps can lead to: the installed ones, or before that the zero entry. */
  function Live(s: System): nat {
    if s.installed == [] then 1 else |s.installed|
  }

  ghost predicate Inv(s: System, cfg: Config) {
    && |s.ctl.backends| <= MAX_BACKENDS
    && Sound(s.maps, cfg, Live(s))
    && (forall i :: 0 <= i < |s.installed| && i < |s.maps.backends| ==> s.maps.backends[i] == SpecOf(s.installed[i]))
  }

  lemma InitialHolds(s: System, cfg: Config)
    requires Initial(s, cfg)
    ensures Inv(s, cfg)
  {
  }

  /** What the kernel finds after an install: the filtered backends, and the remapped sessions, all of them
      and the table entries in range. */
  ghost predicate InstalledMaps(s: System, cfg: Config) {
    && Sized(s.maps) && |s.installed| <= MAX_BACKENDS && cfg.size <= MAX_SLOTS
    && (forall k :: 0 <= k < |s.installed| ==> s.maps.backends[k] == SpecOf(s.installed[k]))
    && (forall k :: 0 <= k < cfg.size ==> s.maps.table[k] < |s.installed|)
    && (forall x :: x in s.maps.sessions <==> x in s.ctl.sessions)
    && (forall x :: x in s.maps.sessions ==> s.maps.sessions[x] == s.ctl.sessions[x] < |s.installed|)
  }

  lemma AfterInstall(s: System, s': System, cfg: Config, e: Event)
    requires s'.ctl == Next(s.ctl, e) && Applies(s.ctl.backends, e) && Installs(s', cfg)
    ensures InstalledMaps(s', cfg) && s'.installed != []
  {
    var table :| IsTable(table, s'.installed, cfg.size) && Holds(s'.maps, Triple(s'.installed, table, s'.ctl.sessions));
    HandedOverCoherent(s'.ctl.backends, s.ctl.sessions, table, cfg.size);
    assert s'.ctl.sessions == Remap(s'.ctl.backends, s.ctl.sessions);
  }

  lemma ControlKeeps(s: System, s': System, cfg: Config, e: Event)
    requires Inv(s, cfg) && ControlStep(s, s', cfg, e)
    ensures Inv(s', cfg)
  {
    if Applies(s.ctl.backends, e) && Installs(s', cfg) {
      AfterInstall(s, s', cfg, e);
    }
  }

  lemma PacketKeeps(s: System, s': System, cfg: Config, p: Packet)
    requires Inv(s, cfg) && cfg.size > 0 && PacketStep(s, s', cfg, p)
    ensures Inv(s', cfg)
  {
    SessionsStaySound(s.maps, cfg, Live(s), p);
  }

  datatype Step = Control(event: Event) | Frame(packet: Packet)

  /** A run from the loaded maps. */
  ghost predicate IsRun(states: seq<System>, steps: seq<Step>, cfg: Config) {
    && |states| == |steps| + 1 && cfg.size > 0 && Initial(states[0], cfg)
    && forall i :: 0 <= i < |steps| ==> TakesStep(states[i], states[i + 1], cfg, steps[i])
  }

  ghost predicate TakesStep(s: System, s': System, cfg: Config, step: Step)
    requires cfg.size > 0
  {
    match step
    case Control(e) => ControlStep(s, s', cfg, e)
    case Frame(p) => PacketStep(s, s', cfg, p)
  }

  lemma {:induction false} InvOverRuns(states: seq<System>, steps: seq<Step>, cfg: Config, i: nat)
    requires IsRun(states, steps, cfg) && i < |states|
    ensures Inv(states[i], cfg)
  {
    if i == 0 {
      InitialHolds(states[0], cfg);
    } else {
      InvOverRuns(states, steps, cfg, i - 1);
      assert TakesStep(states[i - 1], states[i], cfg, steps[i - 1]);
      match steps[i - 1]
      case Control(e) => ControlKeeps(states[i - 1], states[i], cfg, e);
      case Frame(p) => PacketKeeps(states[i - 1], states[i], cfg, p);
    }
  }

  /** In every reachable state every frame for the balancer is forwarded or dropped by the loop guards,
      every frame that is passed on leaves unmodified, and once a triple is installed forwarded frames
      go to a backend of that triple. */
  lemma EndToEnd(states: seq<System>, steps: seq<Step>, cfg: Config, i: nat, p: Packet)
    requires IsRun(states, steps, cfg) && i < |states|
    ensures var s := states[i]; var r := Process(p.frame, cfg, s.maps, p.reserve, p.update);
            && (r.verdict.Pass? ==> r.frame == p.frame && !MustLoadbalance(p.frame, cfg.ip, cfg.port))
            && (r.verdict.Tx? <==> Balanced(p.frame, cfg))
            && (r.verdict.Tx? && s.installed != [] ==>
                  exists k :: 0 <= k < |s.installed| && r.frame == Forwarded(p.frame, cfg, SpecOf(s.installed[k])))
  {
    InvOverRuns(states, steps, cfg, i);
    SoundMapsNeverFail(states[i].maps, cfg, Live(states[i]), p);
  }

  /** `g` is the frame `x` sent on to backend `b`: to its hardware address, address and port, with one hop less
      and a header that verifies, and otherwise unchanged. */
  ghost predicate AddressedTo(g: seq<Byte>, x: Fields, cfg: Config, b: Backend) {
    exists spec :: IsSent(g, x, cfg, spec) && Identifies(spec, b)
  }

  predicate Identifies(spec: Spec, b: Backend) {
    && spec.id == b.id && spec.ip == b.ip && spec.mac == b.mac[..6]
    && (0 <= b.port < 0x1_0000 ==> spec.port == b.port)
  }

  lemma ForwardedReaches(f: seq<Byte>, x: Fields, cfg: Config, b: Backend)
    requires f == Wire(x) && f[22] >= 1
    ensures AddressedTo(Forwarded(f, cfg, SpecOf(b)), x, cfg, b)
  {
    ForwardedIsSent(f, x, cfg, SpecOf(b));
    SpecIdentifies(b);
  }

  lemma SpecIdentifies(b: Backend)
    ensures Identifies(SpecOf(b), b)
  {
  }

  lemma ForwardedFrameReaches(f: seq<Byte>, cfg: Config, b: Backend)
    requires |f| >= 62 && f[22] >= 1
    ensures AddressedTo(Forwarded(f, cfg, SpecOf(b)), Parse(f), cfg, b)
  {
    EveryFrame(f);
    ForwardedReaches(f, Parse(f), cfg, b);
  }

  /** The same in the fields of the frame: in every reachable state a frame is passed on, unmodified, if and only
      if it is not for the balancer, dropped if and only if it is and loops, and otherwise sent on, to an
      installed backend if there is one. */
  lemma EndToEndFields(states: seq<System>, steps: seq<Step>, cfg: Config, i: nat, x: Fields, p: Packet)
    requires IsRun(states, steps, cfg) && i < |states| && p.frame == Wire(x)
    ensures var s := states[i]; var r := Process(p.frame, cfg, s.maps, p.reserve, p.update);
            && (r.verdict.Pass? <==> !ForBalancer(x, cfg)) && (r.verdict.Pass? ==> r.frame == p.frame)
            && (r.verdict.Drop? <==> ForBalancer(x, cfg) && Looping(x, cfg))
            && (r.verdict.Tx? && s.installed != [] ==>
                  exists k :: 0 <= k < |s.installed| && AddressedTo(r.frame, x, cfg, s.installed[k]))
  {
    EndToEnd(states, steps, cfg, i, p);
    VerdictIff(x, cfg, states[i].maps, p.reserve, p.update);
    GuardIs(x, cfg);
    GuardsAre(x, cfg);
    var s := states[i];
    var r := Process(p.frame, cfg, s.maps, p.reserve, p.update);
    if r.verdict.Tx? && s.installed != [] {
      var k :| 0 <= k < |s.installed| && r.frame == Forwarded(p.frame, cfg, SpecOf(s.installed[k]));
      ForwardedReaches(p.frame, x, cfg, s.installed[k]);
    }
  }

  // --- session affinity across switchovers ----------------------------------------------------

  /** The active session map sends the session to the backend with this specification. */
  ghost predicate Pinned(s: System, session: Uuid, spec: Spec) {
    && session in s.maps.sessions && s.maps.sessions[session] < |s.maps.backends|
    && s.maps.backends[s.maps.sessions[session]] == spec
  }

  ghost predicate InstallsSucceed(states: seq<System>, steps: seq<Step>, cfg: Config, i: nat)
    requires |states| == |steps| + 1
  {
    forall j :: i <= j < |steps| ==> InstallSucceeds(states[j], states[j + 1], cfg, steps[j])
  }

  ghost predicate InstallSucceeds(s: System, s': System, cfg: Config, step: Step) {
    step.Control? && Applies(s.ctl.backends, step.event) ==> Installs(s', cfg)
  }

  /** The controller events of a run from step `i` on. */
  function Events(steps: seq<Step>, i: nat): seq<Event>
    requires i <= |steps|
    decreases |steps| - i
  {
    if i == |steps| then []
    else if steps[i].Control? then [steps[i].event] + Events(steps, i + 1)
    else Events(steps, i + 1)
  }

  /** With unique ids, an entry of the filtered list is backend `b` exactly when it has its id. */
  lemma FilteredIsBackend(bs: seq<Backend>, k: nat, b: nat)
    requires UniqueIds(bs) && b < |bs| && k < |FilterAvailable(bs)|
    ensures SpecOf(FilterAvailable(bs)[k]) == SpecOf(bs[b]) <==> FilterAvailable(bs)[k].id == bs[b].id
  {
    var b' := FilteredFrom(bs, k);
  }

  lemma PinnedAfterInstall(s: System, s': System, cfg: Config, e: Event, session: Uuid, b: nat)
    requires UniqueIds(s'.ctl.backends) && b < |s'.ctl.backends|
    requires s'.ctl == Next(s.ctl, e) && Applies(s.ctl.backends, e) && Installs(s', cfg)
    ensures Pinned(s', session, SpecOf(s'.ctl.backends[b]))
       <==> Sends(Applied(FilterAvailable(s'.ctl.backends), s'.ctl.sessions), session, s'.ctl.backends[b].id)
  {
    AfterInstall(s, s', cfg, e);
    if session in s'.ctl.sessions {
      FilteredIsBackend(s'.ctl.backends, s'.ctl.sessions[session], b);
    }
  }

  lemma PinnedAfterPacket(s: System, s': System, cfg: Config, p: Packet, session: Uuid, spec: Spec)
    requires cfg.size > 0 && PacketStep(s, s', cfg, p) && Pinned(s, session, spec)
    ensures Pinned(s', session, spec) && s'.ctl == s.ctl
  {
  }

  /** What an event that installs nothing does to the condition of an undisturbed run. */
  lemma QuietStep(c: Ctl, e: Event, rest: seq<Event>, session: Uuid, b: nat)
    requires UniqueIds(c.backends) && b < |c.backends| && !Applies(c.backends, e)
    ensures var c' := Next(c, e);
            && UniqueIds(c'.backends)
            && (Undisturbed(c.backends, [e] + rest, session, b, StoredAt(c, session, b))
                <==> Undisturbed(c'.backends, rest, session, b, StoredAt(c', session, b)))
  {
    assert ([e] + rest)[1..] == rest;
  }

  /** An event that installs a triple. */
  lemma InstallStep(c: Ctl, e: Event, rest: seq<Event>, session: Uuid, b: nat)
    requires UniqueIds(c.backends) && b < |c.backends| && Applies(c.backends, e)
    ensures var c' := Next(c, e); var a := Applied(FilterAvailable(c'.backends), c'.sessions);
            && UniqueIds(c'.backends)
            && (Undisturbed(c.backends, [e] + rest, session, b, StoredAt(c, session, b))
                <==> && Sends(a, session, c.backends[b].id)
                     && Undisturbed(c'.backends, rest, session, b, StoredAt(c', session, b)))
  {
    assert ([e] + rest)[1..] == rest;
    AppliedStep(c, e, session, b);
  }

  /** One controller event, as seen by the kernel and by the condition. */
  lemma ControlPinned(s: System, s': System, cfg: Config, e: Event, rest: seq<Event>, session: Uuid, b: nat)
    requires UniqueIds(s.ctl.backends) && b < |s.ctl.backends| && Pinned(s, session, SpecOf(s.ctl.backends[b]))
    requires ControlStep(s, s', cfg, e) && (Applies(s.ctl.backends, e) ==> Installs(s', cfg))
    ensures UniqueIds(s'.ctl.backends) && |s'.ctl.backends| == |s.ctl.backends|
    ensures SpecOf(s'.ctl.backends[b]) == SpecOf(s.ctl.backends[b])
    ensures Undisturbed(s.ctl.backends, [e] + rest, session, b, StoredAt(s.ctl, session, b))
       <==> && Pinned(s', session, SpecOf(s.ctl.backends[b]))
            && Undisturbed(s'.ctl.backends, rest, session, b, StoredAt(s'.ctl, session, b))
  {
    assert s'.ctl.backends[b] == s.ctl.backends[b].(status := s'.ctl.backends[b].status);
    if Applies(s.ctl.backends, e) {
      InstallStep(s.ctl, e, rest, session, b);
      PinnedAfterInstall(s, s', cfg, e, session, b);
    } else {
      QuietStep(s.ctl, e, rest, session, b);
    }
  }

  ghost predicate PinnedFrom(states: seq<System>, i: nat, session: Uuid, spec: Spec) {
    forall j :: i <= j < |states| ==> Pinned(states[j], session, spec)
  }

  lemma PinnedFromNext(states: seq<System>, i: nat, session: Uuid, spec: Spec)
    requires i < |states| && Pinned(states[i], session, spec)
    ensures PinnedFrom(states, i, session, spec) <==> PinnedFrom(states, i + 1, session, spec)
  {
  }

  /** Affinity of a session across switchovers, exactly: once the kernel sends a session to backend `b`, and
      as long as installs succeed, it does so in every later state if and only if the controller events
      leave the session undisturbed. */
  lemma {:induction false} PinnedIff(states: seq<System>, steps: seq<Step>, cfg: Config, i: nat, session: Uuid, b: nat)
    requires IsRun(states, steps, cfg) && i < |states| && InstallsSucceed(states, steps, cfg, i)
    requires UniqueIds(states[i].ctl.backends) && b < |states[i].ctl.backends|
    requires Pinned(states[i], session, SpecOf(states[i].ctl.backends[b]))
    ensures PinnedFrom(states, i, session, SpecOf(states[i].ctl.backends[b]))
       <==> Undisturbed(states[i].ctl.backends, Events(steps, i), session, b, StoredAt(states[i].ctl, session, b))
    decreases |steps| - i
  {
    if i < |steps| {
      var s, s' := states[i], states[i + 1];
      var spec := SpecOf(s.ctl.backends[b]);
      PinnedFromNext(states, i, session, spec);
      assert TakesStep(s, s', cfg, steps[i]) && InstallSucceeds(s, s', cfg, steps[i]);
      match steps[i]
      case Frame(p) =>
        PinnedAfterPacket(s, s', cfg, p, session, spec);
        PinnedIff(states, steps, cfg, i + 1, session, b);
      case Control(e) =>
        ControlPinned(s, s', cfg, e, Events(steps, i + 1), session, b);
        if Pinned(s', session, spec) {
          PinnedIff(states, steps, cfg, i + 1, session, b);
        } else {
          assert !PinnedFrom(states, i + 1, session, spec);
        }
    }
  }

  lemma PinnedForwards(s: System, cfg: Config, p: Packet, spec: Spec)
    requires cfg.size > 0 && |p.frame| >= 62 && Pinned(s, SessionId(p.frame), spec)
    ensures var r := Process(p.frame, cfg, s.maps, p.reserve, p.update);
            r.verdict.Tx? ==> p.frame[22] >= 1 && r.frame == Forwarded(p.frame, cfg, spec)
  {
  }

  /** In an undisturbed run every frame of the session that is transmitted, before, between and after
      switchovers, is the one forwarded to backend `b`. */
  lemma SessionAffinity(states: seq<System>, steps: seq<Step>, cfg: Config, i: nat, b: nat, j: nat, p: Packet)
    requires IsRun(states, steps, cfg) && i <= j < |states| && InstallsSucceed(states, steps, cfg, i)
    requires UniqueIds(states[i].ctl.backends) && b < |states[i].ctl.backends| && |p.frame| >= 62
    requires Pinned(states[i], SessionId(p.frame), SpecOf(states[i].ctl.backends[b]))
    requires Undisturbed(states[i].ctl.backends, Events(steps, i), SessionId(p.frame), b,
                         StoredAt(states[i].ctl, SessionId(p.frame), b))
    ensures var r := Process(p.frame, cfg, states[j].maps, p.reserve, p.update);
            r.verdict.Tx? ==>
              && p.frame[22] >= 1 && r.frame == Forwarded(p.frame, cfg, SpecOf(states[i].ctl.backends[b]))
              && AddressedTo(r.frame, Parse(p.frame), cfg, states[i].ctl.backends[b])
  {
    PinnedIff(states, steps, cfg, i, SessionId(p.frame), b);
    PinnedForwards(states[j], cfg, p, SpecOf(states[i].ctl.backends[b]));
    if p.frame[22] >= 1 {
      ForwardedFrameReaches(p.frame, cfg, states[i].ctl.backends[b]);
    }
  }
}
