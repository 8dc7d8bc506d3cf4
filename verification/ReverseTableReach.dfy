/** The other half of why a slot is owned: a backend that still has quota when the rounds stop has got to every
    slot its coordinates lead to before them, or somebody else has. */
module ReverseTableReach {
  import opened Basics
  import opened ReverseTable
  import opened ReverseTableProperties
  import opened ReverseTableQuota

  /** Every slot coordinate `c` leads to at this prime is owned. */
  ghost predicate Covered(slots: seq<Slot>, c: U32, prime: U32)
    requires prime > 0 && |slots| < WIDTH
  {
    var idx := Targets(c, prime, |slots|);
    forall q :: 0 <= q < |idx| ==> slots[idx[q]].Owned?
  }

  lemma CoveredStays(s: Claims, r: Claims, c: U32, prime: U32)
    requires prime > 0 && |s.slots| < WIDTH && Extends(s, r) && Covered(s.slots, c, prime)
    ensures Covered(r.slots, c, prime)
  {
  }

  lemma CoordinateCovers(s: Claims, i: nat, c: U32, prime: U32)
    requires i < |s.quota| && prime > 0 && s.quota[i] > 0 && |s.slots| < WIDTH
    ensures Covered(Coordinate(s, i, c, prime).slots, c, prime)
  {
    var idx := Targets(c, prime, |s.slots|);
    forall q | 0 <= q < |idx|
      ensures TouchAll(s, i, idx, |idx|).slots[idx[q]].Owned?
    {
      TouchAllAt(s, i, idx, |idx|, idx[q]);
    }
  }

  // --- a quota of zero stays ------------------------------------------------------------------

  lemma CoordinateZero(s: Claims, v: nat, c: U32, prime: U32, i: nat)
    requires v < |s.quota| && i < |s.quota| && s.quota[i] == 0
    ensures Coordinate(s, v, c, prime).quota[i] == 0
  {
    if v != i && s.quota[v] > 0 && prime > 0 {
      var idx := Targets(c, prime, |s.slots|);
      TouchAllOthers(s, v, idx, |idx|, i);
    }
  }

  lemma {:induction false} VisitZero(s: Claims, v: nat, cs: Coordinates, prime: U32, j: nat, i: nat)
    requires v < |s.quota| && j <= N_COORDINATES && i < |s.quota| && s.quota[i] == 0
    ensures Visit(s, v, cs, prime, j).quota[i] == 0
  {
    if j > 0 {
      VisitZero(s, v, cs, prime, j - 1, i);
      CoordinateZero(Visit(s, v, cs, prime, j - 1), v, cs[j - 1], prime, i);
    }
  }

  lemma {:induction false} RoundZero(s: Claims, coords: seq<Coordinates>, prime: U32, n: nat, i: nat)
    requires n <= |coords| == |s.quota| && i < |s.quota| && s.quota[i] == 0
    ensures Round(s, coords, prime, n).quota[i] == 0
  {
    if n > 0 {
      RoundZero(s, coords, prime, n - 1, i);
      VisitZero(Round(s, coords, prime, n - 1), n - 1, coords[n - 1], prime, N_COORDINATES, i);
    }
  }

  lemma {:induction false} RoundsZero(s: Claims, coords: seq<Coordinates>, prime: U32, i: nat)
    requires |coords| == |s.quota| && i < |s.quota| && s.quota[i] == 0
    ensures Rounds(s, coords, prime).quota[i] == 0
    decreases prime
  {
    var s', next := Round(s, coords, prime, |coords|), NextPrime(prime);
    RoundZero(s, coords, prime, |coords|, i);
    if next.Some? && !Spent(s'.quota) {
      RoundsZero(s', coords, next.value, i);
    }
  }

  // --- a backend with quota left has been everywhere ------------------------------------------

  lemma {:induction false} VisitCovers(s: Claims, i: nat, cs: Coordinates, prime: U32, j: nat, c: nat)
    requires i < |s.quota| && c < j <= N_COORDINATES && prime > 0 && |s.slots| < WIDTH
    requires Visit(s, i, cs, prime, j).quota[i] > 0
    ensures Covered(Visit(s, i, cs, prime, j).slots, cs[c], prime)
  {
    var t := Visit(s, i, cs, prime, j - 1);
    assert t.quota[i] > 0;
    if c == j - 1 {
      CoordinateCovers(t, i, cs[c], prime);
    } else {
      VisitCovers(s, i, cs, prime, j - 1, c);
      CoordinateExtends(t, i, cs[j - 1], prime);
      CoveredStays(t, Coordinate(t, i, cs[j - 1], prime), cs[c], prime);
    }
  }

  lemma {:induction false} RoundCovers(s: Claims, coords: seq<Coordinates>, prime: U32, n: nat, i: nat, c: nat)
    requires i < n <= |coords| == |s.quota| && c < N_COORDINATES && prime > 0 && |s.slots| < WIDTH
    requires Round(s, coords, prime, n).quota[i] > 0
    ensures Covered(Round(s, coords, prime, n).slots, coords[i][c], prime)
  {
    var t := Round(s, coords, prime, n - 1);
    if i == n - 1 {
      VisitCovers(t, i, coords[i], prime, N_COORDINATES, c);
    } else {
      if t.quota[i] == 0 {
        VisitZero(t, n - 1, coords[n - 1], prime, N_COORDINATES, i);
      }
      RoundCovers(s, coords, prime, n - 1, i, c);
      VisitExtends(t, n - 1, coords[n - 1], prime, N_COORDINATES);
      CoveredStays(t, Round(s, coords, prime, n), coords[i][c], prime);
    }
  }

  lemma {:induction false} RoundsCover(s: Claims, coords: seq<Coordinates>, prime: U32, i: nat, c: nat, p: U32)
    requires i < |coords| == |s.quota| && c < N_COORDINATES && |s.slots| < WIDTH
    requires p in RoundPrimes(prime) && p > 0 && Rounds(s, coords, prime).quota[i] > 0
    ensures Covered(Rounds(s, coords, prime).slots, coords[i][c], p)
    decreases prime
  {
    var s', next := Round(s, coords, prime, |coords|), NextPrime(prime);
    if s'.quota[i] == 0 && next.Some? && !Spent(s'.quota) {
      RoundsZero(s', coords, next.value, i);
    }
    assert s'.quota[i] > 0;
    if p == prime {
      RoundCovers(s, coords, prime, |coords|, i, c);
      if next.Some? {
        RoundsExtends(s', coords, next.value);
        CoveredStays(s', Rounds(s', coords, next.value), coords[i][c], p);
      }
    } else {
      RoundsCover(s', coords, next.value, i, c, p);
    }
  }

  /** A slot that is still free when the rounds stop is out of reach of every backend with quota left: no
      coordinate of it leads there, at the table size or at any listed prime. */
  lemma LeftoverOutOfReach(coords: seq<Coordinates>, m: U32, i: nat, k: nat)
    requires i < |coords| && k < m
    requires Coordinated(coords, m).slots[k].Free? && Coordinated(coords, m).quota[i] > 0
    ensures !Reached(coords[i], m, k)
  {
    if Reached(coords[i], m, k) {
      var j, p: U32 :| 0 <= j < N_COORDINATES && RoundPrime(p, m) && LeadsTo(coords[i][j], p, m, k);
      var q :| 1 <= q <= m / p && k == q * (coords[i][j] % p);
      TargetOwned(coords, m, i, j, p, q, k);
    }
  }

  lemma TargetOwned(coords: seq<Coordinates>, m: U32, i: nat, j: nat, p: U32, q: nat, k: nat)
    requires i < |coords| && j < N_COORDINATES && RoundPrime(p, m) && 1 <= q <= m / p
    requires k < m && k == q * (coords[i][j] % p) && Coordinated(coords, m).quota[i] > 0
    ensures Coordinated(coords, m).slots[k].Owned?
  {
    var c := coords[i][j];
    assert p <= m by {
      if p > m {
        DivModUnique(m, p, 0, m);
      }
    }
    RoundPrimesAre(m, p);
    RoundsCover(Start(|coords|, m), coords, m, i, j, p);
    MultipleAt(c % p, m / p, q - 1);
    assert Targets(c, p, m)[q - 1] == k;
  }
}
