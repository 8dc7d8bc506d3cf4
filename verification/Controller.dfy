/** The controller (internal/controller/controller.go): it tracks backend health and the backend of
    each session, and hands a fresh triple of backend list, lookup table and session map to the
    kernel whenever the health of a backend changes. */
module Controller {
  import opened Basics
  import opened Checksum
  import RT = ReverseTable
  import RTP = ReverseTableProperties

  /** A uuid as its four 32-bit words, which are also the coordinates of a backend. */
  type Uuid = RT.Coordinates

  /** A hardware address; the data path uses its first six bytes. */
  type HardwareAddr = m: seq<Byte> | |m| >= 6 witness [0, 0, 0, 0, 0, 0]

  datatype State = Unknown | Available | Unschedulable | Unavailable

  datatype Backend = Backend(id: Uuid, ip: U32, port: int, mac: HardwareAddr, spec: State, status: State) {
    predicate Usable() {
      spec == Available && status == Available
    }
  }

  /** What is passed to SetObjects. */
  datatype Triple = Triple(backends: seq<Backend>, table: seq<nat>, sessions: map<Uuid, nat>)

  const LOOKUP_TABLE_PRIMES: seq<U32> := [7, 13, 23, 47, 97, 197, 397, 797]

  /** The position of the first entry that reaches the target, or else of the last entry. */
  function FirstAtLeast(list: seq<U32>, target: U32, i: nat): (k: nat)
    requires i < |list| && forall h :: 0 <= h < i ==> list[h] < target
    ensures i <= k < |list| && (list[k] >= target || k == |list| - 1)
    ensures forall h :: 0 <= h < k ==> list[h] < target
    decreases |list| - i
  {
    if list[i] >= target || i == |list| - 1 then i else FirstAtLeast(list, target, i + 1)
  }

  /** The smallest listed prime that is at least twice the number of backends, or else the largest. */
  function ComputeLookupTableSize(n: nat): (r: U32)
    requires 2 * n < WIDTH
    ensures r in LOOKUP_TABLE_PRIMES && 7 <= r <= 797
    ensures forall p :: p in LOOKUP_TABLE_PRIMES && p >= 2 * n ==> r <= p
    ensures r >= 2 * n || r == 797
    ensures r > 7 ==> r <= 4 * n + 1
  {
    var k := FirstAtLeast(LOOKUP_TABLE_PRIMES, 2 * n, 0);
    assert k > 0 ==> LOOKUP_TABLE_PRIMES[k - 1] < 2 * n;
    LOOKUP_TABLE_PRIMES[k]
  }

  // --- filtering ------------------------------------------------------------------------------

  function FilterAvailable(bs: seq<Backend>): (r: seq<Backend>) {
    if bs == [] then []
    else
      var front, last := bs[..|bs| - 1], bs[|bs| - 1];
      if last.Usable() then FilterAvailable(front) + [last] else FilterAvailable(front)
  }

  /** The number of usable backends before index `b`. */
  function Rank(bs: seq<Backend>, b: nat): (r: nat)
    requires b <= |bs|
    ensures r <= b
  {
    if b == 0 then 0 else Rank(bs, b - 1) + if bs[b - 1].Usable() then 1 else 0
  }

  lemma {:induction false} RankOfPrefix(bs: seq<Backend>, k: nat, b: nat)
    requires b <= k <= |bs|
    ensures Rank(bs[..k], b) == Rank(bs, b)
  {
    if b > 0 {
      RankOfPrefix(bs, k, b - 1);
    }
  }

  /** A usable backend is found in the filtered list at its rank. */
  lemma {:induction false} FilteredAtRank(bs: seq<Backend>, b: nat)
    requires b <= |bs|
    ensures |FilterAvailable(bs)| == Rank(bs, |bs|)
    ensures b < |bs| && bs[b].Usable() ==>
              Rank(bs, b) < |FilterAvailable(bs)| && FilterAvailable(bs)[Rank(bs, b)] == bs[b]
  {
    if bs != [] {
      var k := |bs| - 1;
      FilteredAtRank(bs[..k], if b < k then b else k);
      RankOfPrefix(bs, k, k);
      RankOfPrefix(bs, k, if b < k then b else k);
    }
  }

  /** Every entry of the filtered list is a usable backend of the full list. */
  lemma {:induction false} FilteredFrom(bs: seq<Backend>, i: nat) returns (b: nat)
    requires i < |FilterAvailable(bs)|
    ensures b < |bs| && bs[b].Usable() && FilterAvailable(bs)[i] == bs[b] && Rank(bs, b) == i
  {
    var k := |bs| - 1;
    FilteredAtRank(bs[..k], k);
    RankOfPrefix(bs, k, k);
    if i < |FilterAvailable(bs[..k])| {
      b := FilteredFrom(bs[..k], i);
      RankOfPrefix(bs, k, b);
    } else {
      b := k;
    }
  }

  /** No backend before index `b` is unusable. */
  predicate AllUsableBelow(bs: seq<Backend>, b: nat)
    requires b <= |bs|
  {
    forall i :: 0 <= i < b ==> bs[i].Usable()
  }

  /** The rank is the index exactly when nobody before is unusable. */
  lemma {:induction false} RankIsIndexIff(bs: seq<Backend>, b: nat)
    requires b <= |bs|
    ensures Rank(bs, b) == b <==> AllUsableBelow(bs, b)
  {
    if b > 0 {
      RankIsIndexIff(bs, b - 1);
    }
  }

  // --- recompute ------------------------------------------------------------------------------

  /** The index of each id in the list; the last one counts. */
  function IndexById(bs: seq<Backend>): (m: map<Uuid, nat>)
    ensures forall id :: id in m ==> m[id] < |bs| && bs[m[id]].id == id
    ensures forall i :: 0 <= i < |bs| ==> bs[i].id in m && i <= m[bs[i].id]
  {
    if bs == [] then map[]
    else
      assert bs == bs[..|bs| - 1] + [bs[|bs| - 1]];
      IndexById(bs[..|bs| - 1])[bs[|bs| - 1].id := |bs| - 1]
  }

  /** A session survives if its stored index denotes, in the full list, a backend that is in the
      filtered list; it is stored again as an index into the filtered list. */
  function Remap(bs: seq<Backend>, sessions: map<Uuid, nat>): (r: map<Uuid, nat>) {
    RemapWith(bs, sessions, IndexById(FilterAvailable(bs)))
  }

  function RemapWith(bs: seq<Backend>, sessions: map<Uuid, nat>, index: map<Uuid, nat>): (r: map<Uuid, nat>) {
    map s | s in sessions && sessions[s] < |bs| && bs[sessions[s]].id in index :: index[bs[sessions[s]].id]
  }

  ghost predicate UniqueIds(bs: seq<Backend>) {
    forall i, j :: 0 <= i < j < |bs| ==> bs[i].id != bs[j].id
  }

  lemma IndexOfUsable(bs: seq<Backend>, b: nat)
    requires UniqueIds(bs) && b < |bs|
    ensures bs[b].id in IndexById(FilterAvailable(bs)) <==> bs[b].Usable()
    ensures bs[b].Usable() ==> IndexById(FilterAvailable(bs))[bs[b].id] == Rank(bs, b)
  {
    var avail := FilterAvailable(bs);
    var index := IndexById(avail);
    FilteredAtRank(bs, b);
    if bs[b].id in index {
      var c := FilteredFrom(bs, index[bs[b].id]);
    }
  }

  /** Which sessions survive a recompute: those whose stored index is in range and denotes a usable backend. */
  lemma RemapKeys(bs: seq<Backend>, sessions: map<Uuid, nat>, s: Uuid)
    requires UniqueIds(bs)
    ensures s in Remap(bs, sessions) <==> s in sessions && sessions[s] < |bs| && bs[sessions[s]].Usable()
  {
    if s in sessions && sessions[s] < |bs| {
      RecomputeKeepsIff(bs, sessions, s, sessions[s]);
    }
  }

  /** One recompute keeps a session stored under its full index exactly when its backend is usable,
      and then it still denotes the same backend, now in the filtered list. */
  lemma RecomputeKeepsIff(bs: seq<Backend>, sessions: map<Uuid, nat>, s: Uuid, b: nat)
    requires UniqueIds(bs) && s in sessions && sessions[s] == b < |bs|
    ensures s in Remap(bs, sessions) <==> bs[b].Usable()
    ensures bs[b].Usable() ==>
              && Remap(bs, sessions)[s] == Rank(bs, b) < |FilterAvailable(bs)|
              && FilterAvailable(bs)[Rank(bs, b)] == bs[b]
  {
    IndexOfUsable(bs, b);
    FilteredAtRank(bs, b);
  }

  // --- the controller as a transition system --------------------------------------------------

  datatype Ctl = Ctl(backends: seq<Backend>, sessions: map<Uuid, nat>)

  datatype Event =
    | Assigned(session: Uuid, backend: Uuid)
    | Health(id: Uuid, state: State)
    | Recompute

  /** What a recompute hands over, apart from the lookup table. */
  datatype Applied = Applied(backends: seq<Backend>, sessions: map<Uuid, nat>)

  /** The first backend with the given id. */
  function Find(bs: seq<Backend>, id: Uuid): (r: Option<nat>)
    ensures r.Some? ==> r.value < |bs| && bs[r.value].id == id
    ensures r.Some? ==> forall i :: 0 <= i < r.value ==> bs[i].id != id
    ensures r.None? ==> forall i :: 0 <= i < |bs| ==> bs[i].id != id
  {
    FindFrom(bs, id, 0)
  }

  function FindFrom(bs: seq<Backend>, id: Uuid, i: nat): (r: Option<nat>)
    requires i <= |bs| && forall k :: 0 <= k < i ==> bs[k].id != id
    ensures r.Some? ==> r.value < |bs| && bs[r.value].id == id
    ensures r.Some? ==> forall k :: 0 <= k < r.value ==> bs[k].id != id
    ensures r.None? ==> forall k :: 0 <= k < |bs| ==> bs[k].id != id
    decreases |bs| - i
  {
    if i == |bs| then None else if bs[i].id == id then Some(i) else FindFrom(bs, id, i + 1)
  }

  /** The backends after an event: only a health event changes them. */
  function NextBackends(bs: seq<Backend>, e: Event): (r: seq<Backend>)
    ensures |r| == |bs| && forall i :: 0 <= i < |bs| ==> r[i] == bs[i].(status := r[i].status)
  {
    if e.Health? && Find(bs, e.id).Some? then
      var i := Find(bs, e.id).value;
      bs[i := bs[i].(status := e.state)]
    else bs
  }

  /** The event leads to SetObjects: the initial recompute, or a health event that changes a state,
      provided some backend is usable afterwards. */
  predicate Applies(bs: seq<Backend>, e: Event) {
    (e.Recompute? || NextBackends(bs, e) != bs) && FilterAvailable(NextBackends(bs, e)) != []
  }

  function Next(c: Ctl, e: Event): (r: Ctl)
    ensures r.backends == NextBackends(c.backends, e)
  {
    var bs := NextBackends(c.backends, e);
    if e.Assigned? && Find(c.backends, e.backend).Some? then
      Ctl(bs, c.sessions[e.session := Find(c.backends, e.backend).value])
    else if Applies(c.backends, e) then Ctl(bs, Remap(bs, c.sessions))
    else Ctl(bs, c.sessions)
  }

  /** What is handed over in a run, in order. */
  function Handed(c: Ctl, run: seq<Event>): seq<Applied>
    decreases |run|
  {
    if run == [] then []
    else
      var c' := Next(c, run[0]);
      (if Applies(c.backends, run[0]) then [Applied(FilterAvailable(c'.backends), c'.sessions)] else [])
      + Handed(c', run[1..])
  }

  /** `b` is the backend a message with this id is about: the first one that has it. */
  predicate Names(bs: seq<Backend>, id: Uuid, b: nat) {
    b < |bs| && bs[b].id == id && forall i :: 0 <= i < b ==> bs[i].id != id
  }

  /** A health event that tells nothing new, or names nobody, changes nothing and hands nothing over. */
  lemma NoNewsNoHandover(c: Ctl, id: Uuid, state: State)
    requires forall b: nat :: Names(c.backends, id, b) ==> c.backends[b].status == state
    ensures Next(c, Health(id, state)) == c && Handed(c, [Health(id, state)]) == []
  {
    var e, bs := Health(id, state), c.backends;
    if Find(bs, id).Some? {
      assert Names(bs, id, Find(bs, id).value);
      assert NextBackends(bs, e) == bs;
    }
    assert Handed(Next(c, e), []) == [];
  }

  lemma SomebodyUsable(bs: seq<Backend>)
    ensures FilterAvailable(bs) != [] <==> exists i :: 0 <= i < |bs| && bs[i].spec == Available && bs[i].status == Available
  {
    if FilterAvailable(bs) != [] {
      var b := FilteredFrom(bs, 0);
    }
    if i :| 0 <= i < |bs| && bs[i].spec == Available && bs[i].status == Available {
      FilteredAtRank(bs, i);
    }
  }

  /** A health event that changes the status of backend `b` changes that and no other, and hands over exactly
      one triple if some backend is then available by specification and by status, and otherwise none. */
  lemma NewsHandsOver(c: Ctl, id: Uuid, state: State, b: nat)
    requires Names(c.backends, id, b) && c.backends[b].status != state
    ensures var c', h := Next(c, Health(id, state)), Handed(c, [Health(id, state)]);
            && c'.backends == c.backends[b := c.backends[b].(status := state)]
            && |h| == (if exists i :: 0 <= i < |c'.backends| && c'.backends[i].spec == c'.backends[i].status == Available
                       then 1 else 0)
            && (h == [] ==> c'.sessions == c.sessions)
            && (h != [] ==> h[0].backends == FilterAvailable(c'.backends)
                            && h[0].sessions == c'.sessions == Remap(c'.backends, c.sessions))
  {
    var e, bs := Health(id, state), c.backends;
    assert Find(bs, id) == Some(b);
    var bs' := bs[b := bs[b].(status := state)];
    assert NextBackends(bs, e) == bs' && bs'[b] != bs[b];
    SomebodyUsable(bs');
    assert Handed(Next(c, e), []) == [];
  }

  /** An assignment stores the index of the backend it names, and hands nothing over. */
  lemma AssignmentStores(c: Ctl, session: Uuid, id: Uuid)
    ensures var c' := Next(c, Assigned(session, id));
            && c'.backends == c.backends && Handed(c, [Assigned(session, id)]) == []
            && (forall b: nat :: Names(c.backends, id, b) ==> c'.sessions == c.sessions[session := b])
            && ((forall b: nat :: !Names(c.backends, id, b)) ==> c' == c)
  {
    var e := Assigned(session, id);
    if Find(c.backends, id).Some? {
      assert Names(c.backends, id, Find(c.backends, id).value);
    }
    assert Handed(Next(c, e), []) == [];
  }

  /** The handed-over session map sends the session to the backend with this id. */
  predicate Sends(a: Applied, s: Uuid, id: Uuid) {
    s in a.sessions && a.sessions[s] < |a.backends| && a.backends[a.sessions[s]].id == id
  }

  // --- session affinity -----------------------------------------------------------------------

  /** A condition on the events and the health of the backends alone: at every recompute that is
      applied, backend `b` is usable, and the index stored for the session is still the full one.
      It stops being the full one once a recompute is applied while a lower backend is unusable, or
      an assignment names another backend; an assignment that names `b` makes it so again. */
  predicate Undisturbed(bs: seq<Backend>, run: seq<Event>, s: Uuid, b: nat, full: bool)
    requires b < |bs|
    decreases |run|
  {
    run == [] ||
    var e := run[0];
    var bs' := NextBackends(bs, e);
    if Applies(bs, e) then
      full && bs'[b].Usable() && Undisturbed(bs', run[1..], s, b, AllUsableBelow(bs', b))
    else if e.Assigned? && e.session == s && Find(bs, e.backend).Some? then
      Undisturbed(bs', run[1..], s, b, Find(bs, e.backend).value == b)
    else Undisturbed(bs', run[1..], s, b, full)
  }

  predicate StoredAt(c: Ctl, s: Uuid, b: nat) {
    s in c.sessions && c.sessions[s] == b
  }

  /** Session affinity over runs, exactly, for stored sessions and for those first assigned during the
      run: every triple handed over sends the session to backend `b` if and only if the run leaves it
      undisturbed. */
  lemma {:induction false} AffinityIff(c: Ctl, run: seq<Event>, s: Uuid, b: nat)
    requires UniqueIds(c.backends) && b < |c.backends|
    ensures (forall a :: a in Handed(c, run) ==> Sends(a, s, c.backends[b].id))
       <==> Undisturbed(c.backends, run, s, b, StoredAt(c, s, b))
    decreases |run|
  {
    if run != [] {
      var e := run[0];
      var c' := Next(c, e);
      if Applies(c.backends, e) {
        AppliedStep(c, e, s, b);
        var a := Applied(FilterAvailable(c'.backends), c'.sessions);
        assert Handed(c, run) == [a] + Handed(c', run[1..]);
        if Sends(a, s, c.backends[b].id) {
          AffinityIff(c', run[1..], s, b);
        } else {
          assert a in Handed(c, run);
        }
      } else {
        assert Handed(c, run) == Handed(c', run[1..]);
        AffinityIff(c', run[1..], s, b);
      }
    }
  }

  /** One applied recompute. */
  lemma AppliedStep(c: Ctl, e: Event, s: Uuid, b: nat)
    requires UniqueIds(c.backends) && b < |c.backends| && Applies(c.backends, e)
    ensures var c' := Next(c, e); var a := Applied(FilterAvailable(c'.backends), c'.sessions);
            && UniqueIds(c'.backends)
            && (Sends(a, s, c.backends[b].id) <==> StoredAt(c, s, b) && c'.backends[b].Usable())
            && (Sends(a, s, c.backends[b].id) ==> (StoredAt(c', s, b) <==> AllUsableBelow(c'.backends, b)))
  {
    var bs := NextBackends(c.backends, e);
    if s in c.sessions && c.sessions[s] < |bs| {
      var v := c.sessions[s];
      RecomputeKeepsIff(bs, c.sessions, s, v);
      RankIsIndexIff(bs, v);
    }
  }

  /** A run in which backend `b` and everybody before it is usable at every applied recompute, and no
      assignment gives the session to another backend. */
  predicate Calm(bs: seq<Backend>, run: seq<Event>, s: Uuid, b: nat)
    requires b < |bs|
    decreases |run|
  {
    run == [] ||
    var e := run[0];
    var bs' := NextBackends(bs, e);
    && (Applies(bs, e) ==> AllUsableBelow(bs', b + 1))
    && (e.Assigned? && e.session == s ==> Find(bs, e.backend) in {None, Some(b)})
    && Calm(bs', run[1..], s, b)
  }

  lemma {:induction false} CalmIsUndisturbed(bs: seq<Backend>, run: seq<Event>, s: Uuid, b: nat)
    requires b < |bs| && Calm(bs, run, s, b)
    ensures Undisturbed(bs, run, s, b, true)
    decreases |run|
  {
    if run != [] {
      CalmIsUndisturbed(NextBackends(bs, run[0]), run[1..], s, b);
    }
  }

  /** A session keeps its backend through every calm run. */
  lemma AffinityKept(c: Ctl, run: seq<Event>, s: Uuid, b: nat)
    requires UniqueIds(c.backends) && b < |c.backends| && s in c.sessions && c.sessions[s] == b
    requires Calm(c.backends, run, s, b)
    ensures forall a :: a in Handed(c, run) ==> Sends(a, s, c.backends[b].id)
  {
    CalmIsUndisturbed(c.backends, run, s, b);
    AffinityIff(c, run, s, b);
  }

  /** A health event that changes another backend leads to a recompute. */
  lemma FlipApplies(bs: seq<Backend>, i: nat, state: State, b: nat)
    requires UniqueIds(bs) && i < |bs| && bs[i].status != state
    requires b < |bs| && b != i && bs[b].Usable()
    ensures NextBackends(bs, Health(bs[i].id, state)) == bs[i := bs[i].(status := state)]
    ensures Applies(bs, Health(bs[i].id, state))
  {
    assert Find(bs, bs[i].id) == Some(i);
    var bs' := bs[i := bs[i].(status := state)];
    assert bs'[i] != bs[i] && bs'[b] == bs[b];
    FilteredAtRank(bs', b);
  }

  lemma FlapDisturbs(bs: seq<Backend>, s: Uuid, b: nat, i: nat)
    requires UniqueIds(bs) && i < b < |bs| && bs[i].Usable() && bs[b].Usable()
    ensures !Undisturbed(bs, [Health(bs[i].id, Unavailable), Health(bs[i].id, Available)], s, b, true)
  {
    var id := bs[i].id;
    var bs1 := bs[i := bs[i].(status := Unavailable)];
    FlipApplies(bs, i, Unavailable, b);
    FlipApplies(bs1, i, Available, b);
    assert !AllUsableBelow(bs1, b) by {
      assert !bs1[i].Usable();
    }
    var run := [Health(id, Unavailable), Health(id, Available)];
    assert run[1..] == [Health(id, Available)];
    assert !Undisturbed(bs1, run[1..], s, b, false);
  }

  /** If any backend before `b` goes down and comes back, the session is sent elsewhere, although its
      own backend was usable all along. */
  lemma AffinityLost(c: Ctl, s: Uuid, b: nat, i: nat)
    requires UniqueIds(c.backends) && i < b < |c.backends| && s in c.sessions && c.sessions[s] == b
    requires c.backends[i].Usable() && c.backends[b].Usable()
    ensures var id := c.backends[i].id;
            var run := [Health(id, Unavailable), Health(id, Available)];
            !(forall a :: a in Handed(c, run) ==> Sends(a, s, c.backends[b].id))
  {
    FlapDisturbs(c.backends, s, b, i);
    var id := c.backends[i].id;
    AffinityIff(c, [Health(id, Unavailable), Health(id, Available)], s, b);
  }
}
