/** When a backend can take more than its share: the quota is tested once per coordinate, not once
    per slot, so the unsigned quota can wrap below zero. */
module ReverseTableQuota {
  import opened Basics
  import opened ReverseTable
  import opened ReverseTableProperties

  /** No quota has wrapped: claims and quota add up to the share exactly, not just modulo 2^32. */
  ghost predicate Solvent(s: Claims, share: nat) {
    forall i :: 0 <= i < |s.quota| ==> Held(s.slots, i) + s.quota[i] == share
  }

  ghost predicate InTable(idx: seq<nat>, s: Claims) {
    forall q :: 0 <= q < |idx| ==> idx[q] < |s.slots|
  }

  /** The distinct free slots among the first `k` targets. */
  ghost function FreeTargets(s: Claims, idx: seq<nat>, k: nat): set<nat>
    requires k <= |idx| && InTable(idx, s)
  {
    set q | 0 <= q < k && s.slots[idx[q]].Free? :: idx[q]
  }

  lemma {:induction false} TouchAllAt(s: Claims, i: nat, idx: seq<nat>, k: nat, x: nat)
    requires i < |s.quota| && k <= |idx| && InTable(idx, s) && x < |s.slots|
    ensures TouchAll(s, i, idx, k).slots[x] == if x in FreeTargets(s, idx, k) then Owned(i) else s.slots[x]
  {
    if k > 0 {
      TouchAllAt(s, i, idx, k - 1, x);
    }
  }

  /** Visiting the targets gains exactly the distinct free ones. */
  lemma {:induction false} TouchAllGains(s: Claims, i: nat, idx: seq<nat>, k: nat)
    requires i < |s.quota| && k <= |idx| && InTable(idx, s)
    ensures Held(TouchAll(s, i, idx, k).slots, i) == Held(s.slots, i) + |FreeTargets(s, idx, k)|
  {
    if k == 0 {
      assert FreeTargets(s, idx, 0) == {};
    } else {
      TouchAllGains(s, i, idx, k - 1);
      var at := idx[k - 1];
      TouchAllAt(s, i, idx, k - 1, at);
      if TouchAll(s, i, idx, k - 1).slots[at].Free? {
        assert FreeTargets(s, idx, k) == FreeTargets(s, idx, k - 1) + {at};
      } else {
        assert FreeTargets(s, idx, k) == FreeTargets(s, idx, k - 1);
      }
    }
  }

  lemma {:induction false} TouchAllOthers(s: Claims, i: nat, idx: seq<nat>, k: nat, c: nat)
    requires i < |s.quota| && k <= |idx| && InTable(idx, s) && c != i && c < |s.quota|
    ensures var r := TouchAll(s, i, idx, k);
            Held(r.slots, c) == Held(s.slots, c) && r.quota[c] == s.quota[c]
  {
    if k > 0 {
      TouchAllOthers(s, i, idx, k - 1, c);
    }
  }

  lemma OthersStaySolvent(s: Claims, share: nat, i: nat, idx: seq<nat>, k: nat)
    requires i < |s.quota| && k <= |idx| && InTable(idx, s) && Solvent(s, share)
    ensures var r := TouchAll(s, i, idx, k);
            Solvent(r, share) <==> Held(r.slots, i) + r.quota[i] == share
  {
    var r := TouchAll(s, i, idx, k);
    forall c | 0 <= c < |s.quota| && c != i
      ensures Held(r.slots, c) + r.quota[c] == share
    {
      TouchAllOthers(s, i, idx, k, c);
    }
  }

  lemma WordsAddUp(held: nat, quota: U32, share: nat)
    requires held < WIDTH && share < WIDTH && (held + quota) % WIDTH == share
    ensures held + quota == share <==> held <= share
  {
    assert held + quota == share || held + quota == share + WIDTH;
  }

  lemma SolventIffWithin(s: Claims, share: nat, i: nat, idx: seq<nat>, k: nat)
    requires i < |s.quota| && k <= |idx| && InTable(idx, s)
    requires Held(s.slots, i) + s.quota[i] == share < WIDTH && |s.slots| < WIDTH
    ensures var r := TouchAll(s, i, idx, k);
            Held(r.slots, i) + r.quota[i] == share <==> Held(r.slots, i) <= share
  {
    var r := TouchAll(s, i, idx, k);
    assert Account(r, i) == Account(s, i) by {
      TouchAllExtends(s, i, idx, k);
    }
    assert Held(r.slots, i) < WIDTH by {
      HeldAtMost(r.slots, Owned(i));
    }
    WordsAddUp(Held(r.slots, i), r.quota[i], share);
  }

  lemma VisitingOverspendsIff(s: Claims, share: nat, i: nat, idx: seq<nat>)
    requires i < |s.quota| && InTable(idx, s)
    requires Solvent(s, share) && share < WIDTH && |s.slots| < WIDTH
    ensures Solvent(TouchAll(s, i, idx, |idx|), share) <==> |FreeTargets(s, idx, |idx|)| <= s.quota[i]
  {
    TouchAllGains(s, i, idx, |idx|);
    OthersStaySolvent(s, share, i, idx, |idx|);
    SolventIffWithin(s, share, i, idx, |idx|);
  }

  /** A coordinate visited with quota left overspends exactly when it leads to more distinct free
      slots than there is quota. */
  lemma OverspendsIff(s: Claims, share: nat, i: nat, c: U32, prime: U32)
    requires i < |s.quota| && prime > 0 && s.quota[i] > 0
    requires Solvent(s, share) && share < WIDTH && |s.slots| < WIDTH
    ensures var idx := Targets(c, prime, |s.slots|);
            Solvent(Coordinate(s, i, c, prime), share) <==> |FreeTargets(s, idx, |idx|)| <= s.quota[i]
  {
    VisitingOverspendsIff(s, share, i, Targets(c, prime, |s.slots|));
  }

  /** A round whose prime exceeds half the table visits one slot per coordinate: nobody overspends. */
  lemma {:induction false} SingleVisitsStaySolvent(s: Claims, share: nat, coords: seq<Coordinates>, prime: U32, i: nat)
    requires i <= |coords| == |s.quota| && prime > 0 && |s.slots| / prime == 1
    requires Solvent(s, share) && share < WIDTH && |s.slots| < WIDTH
    ensures Solvent(Round(s, coords, prime, i), share)
  {
    if i > 0 {
      SingleVisitsStaySolvent(s, share, coords, prime, i - 1);
      VisitStaysSolvent(Round(s, coords, prime, i - 1), share, i - 1, coords[i - 1], prime, N_COORDINATES);
    }
  }

  lemma {:induction false} VisitStaysSolvent(s: Claims, share: nat, i: nat, cs: Coordinates, prime: U32, j: nat)
    requires i < |s.quota| && j <= N_COORDINATES && prime > 0 && |s.slots| / prime == 1
    requires Solvent(s, share) && share < WIDTH && |s.slots| < WIDTH
    ensures Solvent(Visit(s, i, cs, prime, j), share)
  {
    if j > 0 {
      VisitStaysSolvent(s, share, i, cs, prime, j - 1);
      var t := Visit(s, i, cs, prime, j - 1);
      if t.quota[i] > 0 {
        OverspendsIff(t, share, i, cs[j - 1], prime);
        var idx := Targets(cs[j - 1], prime, |t.slots|);
        assert FreeTargets(t, idx, 1) <= {idx[0]};
        Singleton(FreeTargets(t, idx, 1), idx[0]);
      }
    }
  }

  lemma Singleton(s: set<nat>, x: nat)
    requires s <= {x}
    ensures |s| <= 1
  {
    assert s == {} || s == {x};
  }

  // --- over the whole build -------------------------------------------------------------------

  /** Backend `i` has quota for every free slot that coordinate `c` leads to, if it looks at it at all. */
  ghost predicate Affords(s: Claims, i: nat, c: U32, prime: U32)
    requires i < |s.quota|
  {
    s.quota[i] > 0 && prime > 0 ==>
      var idx := Targets(c, prime, |s.slots|);
      |FreeTargets(s, idx, |idx|)| <= s.quota[i]
  }

  ghost predicate VisitAffords(s: Claims, i: nat, cs: Coordinates, prime: U32, j: nat)
    requires i < |s.quota| && j <= N_COORDINATES
  {
    j == 0 || (VisitAffords(s, i, cs, prime, j - 1) && Affords(Visit(s, i, cs, prime, j - 1), i, cs[j - 1], prime))
  }

  ghost predicate RoundAffords(s: Claims, coords: seq<Coordinates>, prime: U32, i: nat)
    requires i <= |coords| == |s.quota|
  {
    i == 0 ||
    (&& RoundAffords(s, coords, prime, i - 1)
     && VisitAffords(Round(s, coords, prime, i - 1), i - 1, coords[i - 1], prime, N_COORDINATES))
  }

  /** Every coordinate visited in the rounds is affordable at that time. */
  ghost predicate RoundsAfford(s: Claims, coords: seq<Coordinates>, prime: U32)
    requires |coords| == |s.quota|
    decreases prime
  {
    var s' := Round(s, coords, prime, |coords|);
    var next := NextPrime(prime);
    && RoundAffords(s, coords, prime, |coords|)
    && (next.Some? && !Spent(s'.quota) ==> RoundsAfford(s', coords, next.value))
  }

  ghost predicate Accounted(s: Claims, share: nat) {
    share < WIDTH && |s.slots| < WIDTH && forall i :: 0 <= i < |s.quota| ==> Account(s, i) == share
  }

  lemma {:induction false} CountGrows(a: seq<Slot>, b: seq<Slot>, x: Slot)
    requires |a| == |b| && forall k :: 0 <= k < |a| && a[k] == x ==> b[k] == x
    ensures multiset(a)[x] <= multiset(b)[x]
  {
    if a != [] {
      var last := |a| - 1;
      CountGrows(a[..last], b[..last], x);
      assert a == a[..last] + [a[last]] && b == b[..last] + [b[last]];
    }
  }

  lemma SolventAccounted(s: Claims, share: nat)
    requires Solvent(s, share) && share < WIDTH && |s.slots| < WIDTH
    ensures Accounted(s, share)
  {
  }

  lemma ExtendsAccounted(s: Claims, r: Claims, share: nat)
    requires Accounted(s, share) && Extends(s, r)
    ensures Accounted(r, share)
  {
  }

  /** With the accounts in order, nobody has overspent exactly when nobody holds more than the share. */
  lemma SolventIffNobodyOver(s: Claims, share: nat)
    requires Accounted(s, share)
    ensures Solvent(s, share) <==> forall i :: 0 <= i < |s.quota| ==> Held(s.slots, i) <= share
  {
    forall i | 0 <= i < |s.quota|
      ensures Held(s.slots, i) + s.quota[i] == share <==> Held(s.slots, i) <= share
    {
      HeldAtMost(s.slots, Owned(i));
      assert Account(s, i) == share;
      WordsAddUp(Held(s.slots, i), s.quota[i], share);
    }
  }

  /** Claims are never given back, so one overspending stays. */
  lemma OverspentStays(s: Claims, r: Claims, share: nat)
    requires Accounted(s, share) && Extends(s, r) && !Solvent(s, share)
    ensures !Solvent(r, share)
  {
    SolventIffNobodyOver(s, share);
    ExtendsAccounted(s, r, share);
    SolventIffNobodyOver(r, share);
    var i :| 0 <= i < |s.quota| && Held(s.slots, i) > share;
    CountGrows(s.slots, r.slots, Owned(i));
    assert Held(r.slots, i) > share && i < |r.quota|;
  }

  lemma CoordinateSolventIff(s: Claims, share: nat, i: nat, c: U32, prime: U32)
    requires Accounted(s, share) && i < |s.quota|
    ensures Solvent(Coordinate(s, i, c, prime), share) <==> Solvent(s, share) && Affords(s, i, c, prime)
    ensures Accounted(Coordinate(s, i, c, prime), share)
  {
    CoordinateExtends(s, i, c, prime);
    ExtendsAccounted(s, Coordinate(s, i, c, prime), share);
    if !Solvent(s, share) {
      OverspentStays(s, Coordinate(s, i, c, prime), share);
    } else if s.quota[i] > 0 && prime > 0 {
      OverspendsIff(s, share, i, c, prime);
    }
  }

  lemma {:induction false} VisitSolventIff(s: Claims, share: nat, i: nat, cs: Coordinates, prime: U32, j: nat)
    requires Accounted(s, share) && i < |s.quota| && j <= N_COORDINATES
    ensures Solvent(Visit(s, i, cs, prime, j), share) <==> Solvent(s, share) && VisitAffords(s, i, cs, prime, j)
    ensures Accounted(Visit(s, i, cs, prime, j), share)
  {
    if j > 0 {
      VisitSolventIff(s, share, i, cs, prime, j - 1);
      CoordinateSolventIff(Visit(s, i, cs, prime, j - 1), share, i, cs[j - 1], prime);
    }
  }

  lemma {:induction false} RoundSolventIff(s: Claims, share: nat, coords: seq<Coordinates>, prime: U32, i: nat)
    requires Accounted(s, share) && i <= |coords| == |s.quota|
    ensures Solvent(Round(s, coords, prime, i), share) <==> Solvent(s, share) && RoundAffords(s, coords, prime, i)
    ensures Accounted(Round(s, coords, prime, i), share)
  {
    if i > 0 {
      RoundSolventIff(s, share, coords, prime, i - 1);
      VisitSolventIff(Round(s, coords, prime, i - 1), share, i - 1, coords[i - 1], prime, N_COORDINATES);
    }
  }

  lemma {:induction false} RoundsSolventIff(s: Claims, share: nat, coords: seq<Coordinates>, prime: U32)
    requires Accounted(s, share) && |coords| == |s.quota|
    ensures Solvent(Rounds(s, coords, prime), share) <==> Solvent(s, share) && RoundsAfford(s, coords, prime)
    ensures Accounted(Rounds(s, coords, prime), share)
    decreases prime
  {
    RoundSolventIff(s, share, coords, prime, |coords|);
    var s' := Round(s, coords, prime, |coords|);
    var next := NextPrime(prime);
    if next.Some? && !Spent(s'.quota) {
      RoundsSolventIff(s', share, coords, next.value);
    }
  }

  lemma StartSolvent(n: nat, m: U32)
    requires n > 0
    ensures Solvent(Start(n, m), m / n) && m / n < WIDTH
  {
    forall i | 0 <= i < n
      ensures Held(Start(n, m).slots, i) + Start(n, m).quota[i] == m / n
    {
      NoneHeld(m, Owned(i));
    }
    DivMonotone(m, m, n);
    assert m / n <= m;
  }

  /** The exact condition for a build: no backend claims more than its fair share, and no quota wraps, if
      and only if every coordinate visited with quota left leads to at most that many distinct free slots. */
  lemma BuildSolventIff(coords: seq<Coordinates>, m: U32)
    requires |coords| > 0
    ensures var c, share := Coordinated(coords, m), m / |coords|;
            && (Solvent(c, share) <==> RoundsAfford(Start(|coords|, m), coords, m))
            && ((forall i :: 0 <= i < |coords| ==> Held(c.slots, i) <= share)
                <==> RoundsAfford(Start(|coords|, m), coords, m))
  {
    var s, share := Start(|coords|, m), m / |coords|;
    StartSolvent(|coords|, m);
    SolventAccounted(s, share);
    RoundsSolventIff(s, share, coords, m);
    SolventIffNobodyOver(Coordinated(coords, m), share);
  }
}
