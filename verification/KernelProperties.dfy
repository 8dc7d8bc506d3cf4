/** What the XDP program keeps over runs of packets and over chains of load balancers. */
module KernelProperties {
  import opened Basics
  import opened Checksum
  import opened KernelPath

  // --- affinity of the data path --------------------------------------------------------------

  /** A frame together with the fate of its ring-buffer reservation and session-map insert. */
  datatype Packet = Packet(frame: seq<Byte>, reserve: bool, update: bool)

  function After(maps: Maps, cfg: Config, p: Packet): Maps
    requires cfg.size > 0
  {
    maps.(sessions := Process(p.frame, cfg, maps, p.reserve, p.update).sessions)
  }

  /** The maps once the first `k` packets are through. */
  function AfterAll(maps: Maps, cfg: Config, run: seq<Packet>, k: nat): Maps
    requires cfg.size > 0 && k <= |run|
  {
    if k == 0 then maps else After(AfterAll(maps, cfg, run, k - 1), cfg, run[k - 1])
  }

  lemma LowByte(a: Byte, x: nat, b: Byte, y: nat)
    requires a as int + 256 * x == b as int + 256 * y
    ensures a == b && x == y
  {
  }

  lemma WordDeterminesBytes(f: seq<Byte>, g: seq<Byte>, at: nat)
    requires at + 3 < |f| && at + 3 < |g| && Word32At(f, at) == Word32At(g, at)
    ensures f[at] == g[at] && f[at + 1] == g[at + 1] && f[at + 2] == g[at + 2] && f[at + 3] == g[at + 3]
  {
    var a: nat, b: nat, c: nat := f[at + 1], f[at + 2], f[at + 3];
    var x: nat, y: nat, z: nat := g[at + 1], g[at + 2], g[at + 3];
    LowByte(f[at], a + 256 * (b + 256 * c), g[at], x + 256 * (y + 256 * z));
    LowByte(f[at + 1], b + 256 * c, g[at + 1], y + 256 * z);
    LowByte(f[at + 2], c, g[at + 2], z);
  }

  /** Frames of one session hash to the same slot. */
  lemma SessionDeterminesKey(f: seq<Byte>, g: seq<Byte>, size: U32)
    requires |f| >= 62 && |g| >= 62 && size > 0 && SessionId(f) == SessionId(g)
    ensures LupKey(f, size) == LupKey(g, size)
  {
    assert SessionId(f)[0] == SessionId(g)[0] && SessionId(f)[1] == SessionId(g)[1];
    assert SessionId(f)[2] == SessionId(g)[2] && SessionId(f)[3] == SessionId(g)[3];
    WordDeterminesBytes(f, g, 46);
    WordDeterminesBytes(f, g, 50);
    WordDeterminesBytes(f, g, 54);
    WordDeterminesBytes(f, g, 58);
    assert f[46..62] == g[46..62];
  }

  /** The backend index for a frame of some session. */
  function IndexFor(maps: Maps, cfg: Config, f: seq<Byte>): Option<U32>
    requires |f| >= 62 && cfg.size > 0
  {
    Index(maps, SessionId(f), LupKey(f, cfg.size))
  }

  lemma {:induction false} IndexNeverChanges(maps: Maps, cfg: Config, run: seq<Packet>, k: nat, f: seq<Byte>)
    requires cfg.size > 0 && k <= |run| && |f| >= 62
    ensures IndexFor(AfterAll(maps, cfg, run, k), cfg, f) == IndexFor(maps, cfg, f)
    ensures AfterAll(maps, cfg, run, k).backends == maps.backends
  {
    if k > 0 {
      IndexNeverChanges(maps, cfg, run, k - 1, f);
      var g := run[k - 1].frame;
      if |g| >= 62 && SessionId(g) == SessionId(f) {
        SessionDeterminesKey(f, g, cfg.size);
      }
    }
  }

  /** The index written out: the one the session is mapped to, or else the table entry at the hash. */
  ghost predicate Picks(maps: Maps, cfg: Config, session: Uuid, bytes: seq<Byte>, idx: U32)
    requires cfg.size > 0
  {
    if session in maps.sessions then idx == maps.sessions[session]
    else
      var slot := Weighted(bytes, |bytes|, |bytes|) % WIDTH % cfg.size;
      slot < |maps.table| && idx == maps.table[slot]
  }

  lemma IndexPicks(maps: Maps, cfg: Config, f: seq<Byte>, idx: U32)
    requires cfg.size > 0 && |f| >= 62
    ensures IndexFor(maps, cfg, f) == Some(idx) <==> Picks(maps, cfg, SessionId(f), f[46..62], idx)
  {
    HashIsPolynomial(f[46..62], 16);
  }

  /** Between two switchovers every forwarded packet goes to the backend its session was mapped to at
      the start, or else to the one in the lookup table at its hash, whichever inserts and notifications
      failed. */
  lemma DataPathAffinity(maps: Maps, cfg: Config, run: seq<Packet>, k: nat) returns (idx: U32)
    requires cfg.size > 0 && k < |run|
    ensures var p := run[k]; var r := Process(p.frame, cfg, AfterAll(maps, cfg, run, k), p.reserve, p.update);
            r.verdict.Tx? ==>
              && |p.frame| >= 62 && p.frame[22] >= 1
              && Picks(maps, cfg, SessionId(p.frame), p.frame[46..62], idx) && idx < |maps.backends|
              && r.frame == Forwarded(p.frame, cfg, maps.backends[idx])
  {
    var p := run[k];
    idx := 0;
    if |p.frame| >= 62 {
      IndexNeverChanges(maps, cfg, run, k, p.frame);
      if IndexFor(maps, cfg, p.frame).Some? {
        idx := IndexFor(maps, cfg, p.frame).value;
        IndexPicks(maps, cfg, p.frame, idx);
      }
    }
  }

  /** Packet `k` of the run is transmitted. */
  ghost predicate Transmitted(maps: Maps, cfg: Config, run: seq<Packet>, k: nat)
    requires cfg.size > 0 && k < |run|
  {
    ResultAt(maps, cfg, run, k).verdict.Tx?
  }

  function ResultAt(maps: Maps, cfg: Config, run: seq<Packet>, k: nat): Outcome
    requires cfg.size > 0 && k < |run|
  {
    Process(run[k].frame, cfg, AfterAll(maps, cfg, run, k), run[k].reserve, run[k].update)
  }

  /** Any two packets of one session that are transmitted in a run between two switchovers go to one
      backend. */
  lemma OneBackendPerSession(maps: Maps, cfg: Config, run: seq<Packet>, i: nat, k: nat) returns (spec: Spec)
    requires cfg.size > 0 && i < |run| && k < |run| && |run[i].frame| >= 62 && |run[k].frame| >= 62
    requires Transmitted(maps, cfg, run, i) && Transmitted(maps, cfg, run, k)
    requires SessionId(run[i].frame) == SessionId(run[k].frame)
    ensures spec in maps.backends && run[i].frame[22] >= 1 && run[k].frame[22] >= 1
    ensures ResultAt(maps, cfg, run, i).frame == Forwarded(run[i].frame, cfg, spec)
    ensures ResultAt(maps, cfg, run, k).frame == Forwarded(run[k].frame, cfg, spec)
  {
    var a := DataPathAffinity(maps, cfg, run, i);
    var b := DataPathAffinity(maps, cfg, run, k);
    SessionDeterminesKey(run[i].frame, run[k].frame, cfg.size);
    IndexPicks(maps, cfg, run[i].frame, a);
    IndexPicks(maps, cfg, run[k].frame, b);
    spec := maps.backends[a];
  }

  // --- forwarding ends ------------------------------------------------------------------------

  datatype Hop = Hop(cfg: Config, maps: Maps, packet: Packet)

  function Result(h: Hop): Outcome
    requires h.cfg.size > 0
  {
    Process(h.packet.frame, h.cfg, h.maps, h.packet.reserve, h.packet.update)
  }

  function Ttl(f: seq<Byte>): int {
    if |f| >= 62 then f[22] else 0
  }

  /** Load balancers that transmit one after the other; on the way the TTL does not grow. */
  ghost predicate Chain(hops: seq<Hop>) {
    hops == [] ||
    (&& hops[0].cfg.size > 0 && Result(hops[0]).verdict.Tx?
     && (|hops| > 1 ==> Ttl(hops[1].packet.frame) <= Ttl(Result(hops[0]).frame))
     && Chain(hops[1..]))
  }

  /** Transmitting takes a TTL above 1 and lowers it. */
  lemma TransmittingLowersTtl(h: Hop)
    requires h.cfg.size > 0 && Result(h).verdict.Tx?
    ensures Ttl(h.packet.frame) >= 2 && Ttl(Result(h).frame) == Ttl(h.packet.frame) - 1
    ensures Result(h).frame[6..12] == h.cfg.mac
  {
    var idx := IndexFor(h.maps, h.cfg, h.packet.frame);
    ForwardedFields(h.packet.frame, h.cfg, h.maps.backends[idx.value]);
  }

  /** A frame that enters with TTL t is transmitted at most t - 1 times. */
  lemma {:induction false} ForwardingEnds(hops: seq<Hop>)
    requires Chain(hops) && hops != []
    ensures |hops| <= Ttl(hops[0].packet.frame) - 1
  {
    TransmittingLowersTtl(hops[0]);
    if |hops| > 1 {
      ForwardingEnds(hops[1..]);
    }
  }

  /** A frame that comes back to the node that sent it is not transmitted again. */
  lemma ReflectionEnds(h: Hop, maps: Maps, reserve: bool, update: bool)
    requires h.cfg.size > 0 && Result(h).verdict.Tx?
    ensures !Process(Result(h).frame, h.cfg, maps, reserve, update).verdict.Tx?
  {
    TransmittingLowersTtl(h);
  }

  // --- frames that are passed on --------------------------------------------------------------

  /** Every index the program can look up is the index of one of the first `live` backends. */
  ghost predicate Sound(maps: Maps, cfg: Config, live: nat) {
    && Sized(maps) && live <= MAX_BACKENDS && 0 < cfg.size <= MAX_SLOTS
    && (forall k :: 0 <= k < cfg.size ==> maps.table[k] < live)
    && (forall s :: s in maps.sessions ==> maps.sessions[s] < live)
  }

  /** With sound maps neither lookup fails: a frame is passed on only if it is not for us, and then
      it leaves as it came; a forwarded one goes to a live backend; and the maps stay sound. */
  lemma SoundMapsNeverFail(maps: Maps, cfg: Config, live: nat, p: Packet)
    requires Sound(maps, cfg, live)
    ensures var r := Process(p.frame, cfg, maps, p.reserve, p.update);
            && (r.verdict.Pass? ==> r.frame == p.frame && !MustLoadbalance(p.frame, cfg.ip, cfg.port))
            && (r.verdict.Drop? ==> r.frame == p.frame)
            && (r.verdict.Tx? <==> Balanced(p.frame, cfg))
            && (r.verdict.Tx? ==> exists i: nat :: i < live && r.frame == Forwarded(p.frame, cfg, maps.backends[i]))
    ensures Sound(After(maps, cfg, p), cfg, live)
  {
    SessionsStaySound(maps, cfg, live, p);
  }

  lemma SessionsStaySound(maps: Maps, cfg: Config, live: nat, p: Packet)
    requires Sound(maps, cfg, live)
    ensures Sound(After(maps, cfg, p), cfg, live)
  {
  }

  /** The table has no entry for the session, or the entry is no index of the backend array. */
  predicate LookupFails(maps: Maps, cfg: Config, f: seq<Byte>)
    requires |f| >= 62 && cfg.size > 0
  {
    var idx := IndexFor(maps, cfg, f);
    idx.None? || idx.value >= |maps.backends|
  }

  /** In a run between two switchovers the program passes on a frame it has already modified exactly when
      it should have forwarded it and the lookup fails in the maps of the start: no packet repairs or
      breaks the lookup of another. */
  lemma ModifiedPassIff(maps: Maps, cfg: Config, run: seq<Packet>, k: nat)
    requires cfg.size > 0 && k < |run|
    ensures ResultAt(maps, cfg, run, k).verdict.Pass? && ResultAt(maps, cfg, run, k).frame != run[k].frame
       <==> Balanced(run[k].frame, cfg) && LookupFails(maps, cfg, run[k].frame)
  {
    var f := run[k].frame;
    if |f| >= 62 && f[22] >= 1 {
      assert f[22 := f[22] - 1][22] != f[22];
      IndexNeverChanges(maps, cfg, run, k, f);
    }
  }
}
