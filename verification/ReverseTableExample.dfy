/** Builds worked out: seven slots, the size the controller picks for two or three backends, and two
    backends with different ids.  They show that what fails for the production builder fails on inputs
    it is really given, and that the quotas can be used up. */
module ReverseTableExample {
  import opened Basics
  import opened ReverseTable
  import opened ReverseTableProperties
  import opened ReverseTableQuota

  const M: U32 := 7

  function Same(c: U32): Coordinates {
    [c, c, c, c]
  }

  /** All words of the first id are 13, all words of the second are 0. */
  const GREEDY: seq<Coordinates> := [Same(13), Same(0)]

  // --- steps ----------------------------------------------------------------------------------

  lemma {:induction false} IdleOnOwned(s: Claims, i: nat, idx: seq<nat>, k: nat)
    requires i < |s.quota| && k <= |idx| && InTable(idx, s)
    requires forall q :: 0 <= q < |idx| ==> s.slots[idx[q]].Owned?
    ensures TouchAll(s, i, idx, k) == s
  {
    if k > 0 {
      IdleOnOwned(s, i, idx, k - 1);
    }
  }

  /** Visiting a coordinate again changes nothing. */
  lemma CoordinateTwice(s: Claims, i: nat, c: U32, prime: U32)
    requires i < |s.quota|
    ensures var t := Coordinate(s, i, c, prime); Coordinate(t, i, c, prime) == t
  {
    if s.quota[i] > 0 && prime > 0 {
      var idx := Targets(c, prime, |s.slots|);
      var t := TouchAll(s, i, idx, |idx|);
      forall q | 0 <= q < |idx|
        ensures t.slots[idx[q]].Owned?
      {
        TouchAllAt(s, i, idx, |idx|, idx[q]);
      }
      IdleOnOwned(t, i, idx, |idx|);
    }
  }

  lemma VisitSame(s: Claims, i: nat, c: U32, prime: U32)
    requires i < |s.quota|
    ensures Visit(s, i, Same(c), prime, N_COORDINATES) == Coordinate(s, i, c, prime)
  {
    CoordinateTwice(s, i, c, prime);
    var t := Coordinate(s, i, c, prime);
    assert Visit(s, i, Same(c), prime, 1) == t;
    assert Visit(s, i, Same(c), prime, 2) == t;
    assert Visit(s, i, Same(c), prime, 3) == t;
  }

  lemma RoundOfTwo(s: Claims, a: U32, b: U32, prime: U32)
    requires |s.quota| == 2
    ensures Round(s, [Same(a), Same(b)], prime, 2) == Coordinate(Coordinate(s, 0, a, prime), 1, b, prime)
  {
    var coords := [Same(a), Same(b)];
    VisitSame(s, 0, a, prime);
    assert Round(s, coords, prime, 1) == Coordinate(s, 0, a, prime);
    VisitSame(Coordinate(s, 0, a, prime), 1, b, prime);
  }

  lemma ZeroIdle(s: Claims, i: nat, prime: U32)
    requires i < |s.quota| && s.slots != [] && s.slots[0].Owned?
    ensures Coordinate(s, i, 0, prime) == s
  {
    if prime > 0 {
      var idx := Targets(0, prime, |s.slots|);
      forall q | 0 <= q < |idx|
        ensures idx[q] == 0
      {
        MultipleAt(0 % prime, |s.slots| / prime, q);
      }
      IdleOnOwned(s, i, idx, |idx|);
    }
  }

  lemma SmallPrimes(p: U32)
    requires p in PRIMES && p < 7
    ensures p == 2 || p == 3 || p == 5
  {
    var k :| 0 <= k < |PRIMES| && PRIMES[k] == p;
  }

  lemma SmallListed(p: U32)
    requires p == 2 || p == 3 || p == 5
    ensures p in PRIMES
  {
    assert PRIMES[0] == 2 && PRIMES[1] == 3 && PRIMES[2] == 5;
  }

  lemma NextPrimeIs(current: U32, next: U32)
    requires (current == 7 && next == 5) || (current == 5 && next == 3) || (current == 3 && next == 2)
    ensures NextPrime(current) == Some(next)
  {
    NextPrimeIsLargest(current);
    SmallListed(next);
    SmallPrimes(NextPrime(current).value);
  }

  /** One round of the two backends leads from `s` over `mid` to `t`, with quota left at the end. */
  ghost predicate GreedyStep(s: Claims, mid: Claims, t: Claims, prime: U32, next: U32) {
    && |s.quota| == |mid.quota| == |t.quota| == 2
    && Coordinate(s, 0, 13, prime) == mid && Coordinate(mid, 1, 0, prime) == t
    && NextPrime(prime) == Some(next) && t.quota[1] > 0
  }

  lemma GreedyRound(s: Claims, mid: Claims, t: Claims, prime: U32, next: U32)
    requires GreedyStep(s, mid, t, prime, next)
    ensures Rounds(s, GREEDY, prime) == Rounds(t, GREEDY, next)
  {
    RoundOfTwo(s, 13, 0, prime);
    assert GREEDY == [Same(13), Same(0)];
  }

  /** One slot per coordinate while the prime exceeds half the table. */
  lemma TakesOne(s: Claims, i: nat, c: U32, prime: U32, at: nat)
    requires i < |s.quota| && s.quota[i] > 0 && |s.slots| == M && prime in {5, 7} && c % prime == at < M
    requires s.slots[at].Free?
    ensures Coordinate(s, i, c, prime) == Claims(s.slots[at := Owned(i)], s.quota[i := s.quota[i] - 1])
  {
    var idx := Targets(c, prime, M);
    MultipleAt(at, 1, 0);
    assert idx == [at];
    assert TouchAll(s, i, idx, 0) == s;
    assert TouchAll(s, i, idx, 1) == Touch(s, i, at);
  }

  // --- a quota that wraps ---------------------------------------------------------------------

  function State(slots: seq<Slot>, q0: U32, q1: U32): Claims {
    Claims(slots, [q0, q1])
  }

  const F := Free
  const A := Owned(0)
  const B := Owned(1)

  // States, primes and the size are parameters: on literals the verifier would unfold the whole build.

  lemma FirstClaim(s0: Claims, s1: Claims, prime: U32)
    requires s0 == State([F, F, F, F, F, F, F], 3, 3) && s1 == State([F, F, F, F, F, F, A], 2, 3) && prime == 7
    ensures Coordinate(s0, 0, 13, prime) == s1
  {
    TakesOne(s0, 0, 13, prime, 6);
  }

  lemma SecondClaim(s1: Claims, s2: Claims, prime: U32)
    requires s1 == State([F, F, F, F, F, F, A], 2, 3) && s2 == State([B, F, F, F, F, F, A], 2, 2) && prime == 7
    ensures Coordinate(s1, 1, 0, prime) == s2
  {
    TakesOne(s1, 1, 0, prime, 0);
  }

  lemma ThirdClaim(s2: Claims, s3: Claims, prime: U32)
    requires s2 == State([B, F, F, F, F, F, A], 2, 2) && s3 == State([B, F, F, A, F, F, A], 1, 2) && prime == 5
    ensures Coordinate(s2, 0, 13, prime) == s3
  {
    TakesOne(s2, 0, 13, prime, 3);
  }

  lemma FirstRound(s0: Claims, s1: Claims, s2: Claims, prime: U32, next: U32)
    requires s0 == State([F, F, F, F, F, F, F], 3, 3) && s1 == State([F, F, F, F, F, F, A], 2, 3)
    requires s2 == State([B, F, F, F, F, F, A], 2, 2) && prime == 7 && next == 5
    ensures GreedyStep(s0, s1, s2, prime, next)
  {
    FirstClaim(s0, s1, prime);
    SecondClaim(s1, s2, prime);
    NextPrimeIs(prime, next);
  }

  lemma SecondRound(s2: Claims, s3: Claims, prime: U32, next: U32)
    requires s2 == State([B, F, F, F, F, F, A], 2, 2) && s3 == State([B, F, F, A, F, F, A], 1, 2)
    requires prime == 5 && next == 3
    ensures GreedyStep(s2, s3, s3, prime, next)
  {
    ThirdClaim(s2, s3, prime);
    ZeroIdle(s3, 1, prime);
    NextPrimeIs(prime, next);
  }

  /** At prime 3 the first backend has one unit of quota left and is led to two free slots. */
  lemma TakesTwo()
    ensures Coordinate(State([B, F, F, A, F, F, A], 1, 2), 0, 13, 3) == State([B, A, A, A, F, F, A], WIDTH - 1, 2)
  {
    var s, idx := State([B, F, F, A, F, F, A], 1, 2), Targets(13, 3, M);
    MultipleAt(1, 2, 0);
    MultipleAt(1, 2, 1);
    assert idx == [1, 2];
    assert TouchAll(s, 0, idx, 0) == s;
    assert TouchAll(s, 0, idx, 1) == State([B, A, F, A, F, F, A], 0, 2);
    assert TouchAll(s, 0, idx, 2) == State([B, A, A, A, F, F, A], WIDTH - 1, 2);
  }

  lemma ThirdRound(s3: Claims, t: Claims, prime: U32, next: U32)
    requires s3 == State([B, F, F, A, F, F, A], 1, 2) && t == State([B, A, A, A, F, F, A], WIDTH - 1, 2)
    requires prime == 3 && next == 2
    ensures GreedyStep(s3, t, t, prime, next)
  {
    TakesTwo();
    ZeroIdle(t, 1, prime);
    NextPrimeIs(prime, next);
  }

  lemma LastRound(t: Claims, prime: U32)
    requires t == State([B, A, A, A, F, F, A], WIDTH - 1, 2) && prime == 2
    ensures Rounds(t, GREEDY, prime) == t
  {
    var idx := Targets(13, prime, M);
    MultipleAt(1, 3, 0);
    MultipleAt(1, 3, 1);
    MultipleAt(1, 3, 2);
    assert idx == [1, 2, 3];
    IdleOnOwned(t, 0, idx, 3);
    assert Coordinate(t, 0, 13, prime) == t;
    ZeroIdle(t, 1, prime);
    RoundOfTwo(t, 13, 0, prime);
    assert GREEDY == [Same(13), Same(0)];
  }

  lemma GreedyBuild(s0: Claims, s1: Claims, s2: Claims, s3: Claims, t: Claims, p: U32, q: U32, r: U32, u: U32)
    requires GreedyStep(s0, s1, s2, p, q) && GreedyStep(s2, s3, s3, q, r) && GreedyStep(s3, t, t, r, u)
    requires Rounds(t, GREEDY, u) == t
    ensures Rounds(s0, GREEDY, p) == t
  {
    GreedyRound(s0, s1, s2, p, q);
    GreedyRound(s2, s3, s3, q, r);
    GreedyRound(s3, t, t, r, u);
  }

  lemma GreedyClaims(m: U32)
    requires m == M
    ensures Coordinated(GREEDY, m) == State([B, A, A, A, F, F, A], WIDTH - 1, 2)
  {
    var s0, s1 := Start(2, m), State([F, F, F, F, F, F, A], 2, 3);
    var s2, s3 := State([B, F, F, F, F, F, A], 2, 2), State([B, F, F, A, F, F, A], 1, 2);
    var t := State([B, A, A, A, F, F, A], WIDTH - 1, 2);
    FirstRound(s0, s1, s2, m, 5);
    SecondRound(s2, s3, 5, 3);
    ThirdRound(s3, t, 3, 2);
    LastRound(t, 2);
    GreedyBuild(s0, s1, s2, s3, t, m, 5, 3, 2);
  }

  /** The first backend ends with four claims although its fair share is three, and its quota has wrapped. */
  lemma QuotaWraps(m: U32)
    requires m == M
    ensures var c := Coordinated(GREEDY, m);
            && c == State([B, A, A, A, F, F, A], WIDTH - 1, 2)
            && Held(c.slots, 0) == 4 && m / |GREEDY| == 3 && Residue(c.slots) == 2
            && !RoundsAfford(Start(|GREEDY|, m), GREEDY, m)
  {
    GreedyClaims(m);
    var c := Coordinated(GREEDY, m);
    assert c.slots == [B, A, A, A, F, F, A];
    BuildSolventIff(GREEDY, m);
  }

  // --- tables that differ, and a removal ------------------------------------------------------

  /** Two nodes with these backends can build different tables. */
  lemma TablesDiffer(m: U32) returns (o1: seq<nat>, o2: seq<nat>)
    requires m == M
    ensures OrderOf(o1, Coordinated(GREEDY, m).slots) && OrderOf(o2, Coordinated(GREEDY, m).slots)
    ensures Table(GREEDY, m, o1) != Table(GREEDY, m, o2)
  {
    QuotaWraps(m);
    o1, o2 := DifferentDeals(Coordinated(GREEDY, m).slots, |GREEDY|);
  }

  lemma MovedToTheOther(before: seq<nat>, after: seq<nat>)
    requires |before| == |after|
    requires forall k :: 0 <= k < |before| ==> before[k] < 2 && after[k] == 0
    ensures |Moved(before, after, 0)| == multiset(before)[0]
  {
    assert Moved(before, after, 0) == SlotsOf(before, 0);
    SlotsOfCount(before, 0);
  }

  /** Of two backends the second one gets everything the first one had. */
  lemma FirstOfTwoRemoved(coords: seq<Coordinates>, m: U32, o1: seq<nat>, o2: seq<nat>)
    requires |coords| == 2
    requires OrderOf(o1, Coordinated(coords, m).slots) && OrderOf(o2, Coordinated(Without(coords, 0), m).slots)
    ensures |Moved(Table(coords, m, o1), Table(Without(coords, 0), m, o2), 0)| == multiset(Table(coords, m, o1))[0]
  {
    TableInRange(coords, m, o1);
    TableInRange(Without(coords, 0), m, o2);
    MovedToTheOther(Table(coords, m, o1), Table(Without(coords, 0), m, o2));
  }

  /** Whatever the orders, removing the first of the two backends moves five of the seven slots. */
  lemma RemovalMovesFive(m: U32, o1: seq<nat>, o2: seq<nat>)
    requires m == M
    requires OrderOf(o1, Coordinated(GREEDY, m).slots) && OrderOf(o2, Coordinated(Without(GREEDY, 0), m).slots)
    ensures |Moved(Table(GREEDY, m, o1), Table(Without(GREEDY, 0), m, o2), 0)| == 5
  {
    GreedyHolds(m, o1);
    FirstOfTwoRemoved(GREEDY, m, o1, o2);
  }

  lemma GreedyHolds(m: U32, order: seq<nat>)
    requires m == M && OrderOf(order, Coordinated(GREEDY, m).slots)
    ensures multiset(Table(GREEDY, m, order))[0] == 5
  {
    QuotaWraps(m);
    TableCounts(GREEDY, m, order, 0);
  }

  // --- quotas used up -------------------------------------------------------------------------

  const FAIR: seq<Coordinates> := [[6, 3, 1, 1], [0, 2, 4, 4]]

  lemma TakesThree(s: Claims, i: nat, cs: Coordinates, t: Claims)
    requires i < |s.quota| && s.quota[i] == 3 && |s.slots| == M
    requires forall j :: 0 <= j < 3 ==> cs[j] < M && s.slots[cs[j]].Free?
    requires cs[0] != cs[1] && cs[0] != cs[2] && cs[1] != cs[2]
    requires t == Claims(s.slots[cs[0] := Owned(i)][cs[1] := Owned(i)][cs[2] := Owned(i)], s.quota[i := 0])
    ensures Visit(s, i, cs, M, N_COORDINATES) == t
  {
    var s1 := Claims(s.slots[cs[0] := Owned(i)], s.quota[i := 2]);
    var s2 := Claims(s1.slots[cs[1] := Owned(i)], s.quota[i := 1]);
    TakesOne(s, i, cs[0], M, cs[0]);
    TakesOne(s1, i, cs[1], M, cs[1]);
    TakesOne(s2, i, cs[2], M, cs[2]);
    assert Visit(s, i, cs, M, 1) == s1;
    assert Visit(s, i, cs, M, 2) == s2;
    assert Visit(s, i, cs, M, 3) == t;
  }

  lemma FairRound(s: Claims, t: Claims, u: Claims, m: U32)
    requires m == M && s == State([F, F, F, F, F, F, F], 3, 3)
    requires t == State([F, A, F, A, F, F, A], 0, 3) && u == State([B, A, B, A, B, F, A], 0, 0)
    ensures Round(s, FAIR, m, 2) == u
  {
    TakesThree(s, 0, FAIR[0], t);
    assert Round(s, FAIR, m, 1) == t;
    TakesThree(t, 1, FAIR[1], u);
  }

  lemma SpentAtOnce(coords: seq<Coordinates>, m: U32)
    requires Spent(Round(Start(|coords|, m), coords, m, |coords|).quota)
    ensures Spent(Coordinated(coords, m).quota)
  {
  }

  /** Here the quotas are used up in the first round, so every node builds the same table. */
  lemma QuotasUsedUp(m: U32)
    requires m == M
    ensures Spent(Coordinated(FAIR, m).quota)
    ensures forall o1, o2 :: SameTable(FAIR, m, o1, o2)
  {
    FairRound(Start(2, m), State([F, A, F, A, F, F, A], 0, 3), State([B, A, B, A, B, F, A], 0, 0), m);
    SpentAtOnce(FAIR, m);
    IdenticalWhenSpentIff(FAIR, m);
  }
}
