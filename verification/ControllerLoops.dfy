/** The controller's event handlers, as methods that update its fields. */
module ControllerLoops {
  import opened Basics
  import opened Controller
  import RT = ReverseTable
  import RTP = ReverseTableProperties

  function Ids(bs: seq<Backend>): (ids: seq<Uuid>)
    ensures |ids| == |bs| && forall i :: 0 <= i < |bs| ==> ids[i] == bs[i].id
  {
    seq(|bs|, i requires 0 <= i < |bs| => bs[i].id)
  }

  /** A table the reverse-coordinates builder can return for these backends. */
  ghost predicate IsTable(table: seq<nat>, bs: seq<Backend>, m: U32) {
    exists order :: RT.OrderOf(order, RT.Coordinated(Ids(bs), m).slots) && table == RT.Table(Ids(bs), m, order)
  }

  /** All table entries and all session values are indices of the backend list. */
  ghost predicate Coherent(t: Triple) {
    && (forall k :: 0 <= k < |t.table| ==> t.table[k] < |t.backends|)
    && (forall s :: s in t.sessions ==> t.sessions[s] < |t.backends|)
  }

  /** What a recompute hands over is coherent, whatever the stored sessions were. */
  lemma HandedOverCoherent(bs: seq<Backend>, sessions: map<Uuid, nat>, table: seq<nat>, m: U32)
    requires FilterAvailable(bs) != [] && IsTable(table, FilterAvailable(bs), m)
    ensures |table| == m && Coherent(Triple(FilterAvailable(bs), table, Remap(bs, sessions)))
  {
    var ids := Ids(FilterAvailable(bs));
    var order :| RT.OrderOf(order, RT.Coordinated(ids, m).slots) && table == RT.Table(ids, m, order);
    RTP.TableInRange(ids, m, order);
  }

  class Loops {
    var backends: seq<Backend>
    var sessionMap: map<Uuid, nat>
    const lookupTableSize: U32

    constructor (backends: seq<Backend>)
      requires 2 * |backends| < WIDTH
      ensures this.backends == backends && sessionMap == map[]
      ensures lookupTableSize == ComputeLookupTableSize(|backends|)
    {
      this.backends, sessionMap := backends, map[];
      lookupTableSize := ComputeLookupTableSize(|backends|);
    }

    function View(): Ctl
      reads this
    {
      Ctl(backends, sessionMap)
    }

    /** recomputeAndApply, up to the call of SetObjects with the returned triple. */
    method RecomputeAndApply() returns (applied: Option<Triple>)
      requires |backends| < WIDTH
      modifies this
      ensures View() == Next(old(View()), Recompute)
      ensures applied.Some? <==> Applies(backends, Recompute)
      ensures applied.Some? ==>
                && applied.value.backends == FilterAvailable(backends) && applied.value.sessions == sessionMap
                && IsTable(applied.value.table, FilterAvailable(backends), lookupTableSize)
                && |applied.value.table| == lookupTableSize && Coherent(applied.value)
    {
      var available := FilterAvailable(backends);
      if |available| == 0 {
        return None;
      }
      FilteredAtRank(backends, 0);
      var table, order := RT.ReverseCoordinatesLookupTable(Ids(available), lookupTableSize);
      assert IsTable(table, available, lookupTableSize);
      HandedOverCoherent(backends, sessionMap, table, lookupTableSize);

      var newIndexByID := BuildIndex(available);
      var remapped := RemapSessions(backends, sessionMap, newIndexByID);
      sessionMap := remapped;
      applied := Some(Triple(available, table, sessionMap));
    }

    /** The body of assignmentLoop. */
    method OnAssignment(sessionId: Uuid, backendId: Uuid)
      modifies this
      ensures View() == Next(old(View()), Assigned(sessionId, backendId))
    {
      for i := 0 to |backends|
        invariant View() == old(View())
        invariant forall k :: 0 <= k < i ==> backends[k].id != backendId
      {
        if backends[i].id == backendId {
          sessionMap := sessionMap[sessionId := i];
          return;
        }
      }
    }

    /** The body of healthLoop. */
    method OnHealth(id: Uuid, state: State) returns (applied: Option<Triple>)
      requires |backends| < WIDTH
      modifies this
      ensures View() == Next(old(View()), Health(id, state))
      ensures (forall i :: 0 <= i < |backends| ==> backends[i].status == old(backends)[i].status) ==>
                applied.None? && View() == old(View())
      ensures applied.Some? <==>
                && (exists i :: 0 <= i < |backends| && backends[i].status != old(backends)[i].status)
                && (exists i :: 0 <= i < |backends| && backends[i].spec == backends[i].status == Available)
      ensures applied.Some? ==>
                && applied.value.backends == FilterAvailable(backends) && applied.value.sessions == sessionMap
                && IsTable(applied.value.table, FilterAvailable(backends), lookupTableSize)
                && |applied.value.table| == lookupTableSize && Coherent(applied.value)
    {
      var changed := false;
      applied := None;
      ghost var e := Health(id, state);
      ghost var before := backends;
      for i := 0 to |backends|
        invariant View() == old(View()) && !changed
        invariant forall k :: 0 <= k < i ==> backends[k].id != id
      {
        if backends[i].id == id {
          assert Find(backends, id) == Some(i);
          if backends[i].status != state {
            backends := backends[i := backends[i].(status := state)];
            changed := true;
            assert backends[i] != before[i];
          }
          break;
        }
      }
      assert backends == NextBackends(before, e) && (changed <==> backends != before);
      assert changed <==> exists i :: 0 <= i < |backends| && backends[i].status != before[i].status;
      SomebodyUsable(backends);
      if changed {
        applied := RecomputeAndApply();
      }
    }
  }

  /** The loop over the available backends. */
  method BuildIndex(available: seq<Backend>) returns (index: map<Uuid, nat>)
    ensures index == IndexById(available)
  {
    index := map[];
    for i := 0 to |available|
      invariant index == IndexById(available[..i])
    {
      assert available[..i + 1][..i] == available[..i];
      index := index[available[i].id := i];
    }
    assert available[..|available|] == available;
  }

  /** The loop over the session map, in any order. */
  method RemapSessions(bs: seq<Backend>, sessions: map<Uuid, nat>, index: map<Uuid, nat>) returns (remapped: map<Uuid, nat>)
    ensures remapped == RemapWith(bs, sessions, index)
  {
    remapped := map[];
    var rest := sessions.Keys;
    ghost var target := RemapWith(bs, sessions, index);
    while rest != {}
      invariant rest <= sessions.Keys
      invariant forall s :: s in remapped <==> s in target && s !in rest
      invariant forall s :: s in remapped ==> remapped[s] == target[s]
      decreases |rest|
    {
      var s :| s in rest;
      rest := rest - {s};
      var oldIdx := sessions[s];
      if oldIdx >= |bs| {
        continue;
      }
      var oldBackend := bs[oldIdx];
      if oldBackend.id in index {
        remapped := remapped[s := index[oldBackend.id]];
      }
    }
  }
}
