/** What the reverse-coordinates builder promises for every list of backends and every size. */
module ReverseTableProperties {
  import opened Basics
  import opened ReverseTable

  // --- accounting -----------------------------------------------------------------------------

  lemma NoneHeld(m: nat, x: Slot)
    requires x.Owned?
    ensures multiset(seq(m, _ => Free))[x] == 0
  {
    assert x !in seq(m, _ => Free);
  }

  /** Slots claimed plus quota left equal the fair share, modulo the word width, however often
      the quota wrapped on the way. */
  lemma ClaimsAccounted(coords: seq<Coordinates>, m: U32, i: nat)
    requires i < |coords|
    ensures var c := Coordinated(coords, m);
            (Held(c.slots, i) + c.quota[i]) % WIDTH == m / |coords|
  {
    var s := Start(|coords|, m);
    RoundsExtends(s, coords, m);
    NoneHeld(m, Owned(i));
    assert Account(s, i) == m / |coords|;
    assert Account(Coordinated(coords, m), i) == Account(s, i);
  }

  /** Every slot is free or owned by a listed backend. */
  lemma ClaimsPartition(coords: seq<Coordinates>, m: U32)
    ensures OwnersBelow(Coordinated(coords, m).slots, |coords|)
  {
    RoundsExtends(Start(|coords|, m), coords, m);
  }

  ghost predicate OwnersBelow(slots: seq<Slot>, n: nat) {
    forall k :: 0 <= k < |slots| && slots[k].Owned? ==> slots[k].owner < n
  }

  function HeldByAll(slots: seq<Slot>, n: nat): nat {
    if n == 0 then 0 else HeldByAll(slots, n - 1) + Held(slots, n - 1)
  }

  lemma {:induction false} HeldByAllSnoc(slots: seq<Slot>, x: Slot, n: nat)
    ensures HeldByAll(slots + [x], n) == HeldByAll(slots, n) + if x.Owned? && x.owner < n then 1 else 0
  {
    if n > 0 {
      HeldByAllSnoc(slots, x, n - 1);
    }
  }

  lemma {:induction false} HeldByAllEmpty(n: nat)
    ensures HeldByAll([], n) == 0
  {
    if n > 0 {
      HeldByAllEmpty(n - 1);
    }
  }

  /** Nothing is lost: the slots held by the backends and the residue add up to the table. */
  lemma {:induction false} SlotsAddUp(slots: seq<Slot>, n: nat)
    requires OwnersBelow(slots, n)
    ensures HeldByAll(slots, n) + Residue(slots) == |slots|
  {
    if slots == [] {
      HeldByAllEmpty(n);
    } else {
      var last := |slots| - 1;
      assert slots == slots[..last] + [slots[last]];
      SlotsAddUp(slots[..last], n);
      HeldByAllSnoc(slots[..last], slots[last], n);
    }
  }

  lemma {:induction false} EqualShares(slots: seq<Slot>, n: nat, share: nat)
    requires forall i :: 0 <= i < n ==> Held(slots, i) == share
    ensures HeldByAll(slots, n) == n * share
  {
    if n > 0 {
      EqualShares(slots, n - 1, share);
    }
  }

  lemma HeldAtMost(slots: seq<Slot>, x: Slot)
    ensures multiset(slots)[x] <= |slots|
  {
    assert multiset(slots)[x := 0] <= multiset(slots);
    assert |multiset(slots)| == |slots|;
  }

  lemma QuotaUsedUp(coords: seq<Coordinates>, m: U32, i: nat)
    requires i < |coords| && Coordinated(coords, m).quota[i] == 0
    ensures Held(Coordinated(coords, m).slots, i) == m / |coords|
  {
    ClaimsAccounted(coords, m, i);
    HeldAtMost(Coordinated(coords, m).slots, Owned(i));
  }

  /** If the rounds stop because every wrapped quota reads zero, every backend has claimed its fair
      share exactly, and the residue is the remainder. */
  lemma SpentMeansFair(coords: seq<Coordinates>, m: U32)
    requires |coords| > 0 && Spent(Coordinated(coords, m).quota)
    ensures forall i :: 0 <= i < |coords| ==> Held(Coordinated(coords, m).slots, i) == m / |coords|
    ensures Residue(Coordinated(coords, m).slots) == m % |coords|
  {
    var slots, n := Coordinated(coords, m).slots, |coords|;
    forall i | 0 <= i < n
      ensures Held(slots, i) == m / n
    {
      QuotaUsedUp(coords, m, i);
    }
    ClaimsPartition(coords, m);
    FairResidue(slots, n);
  }

  lemma FairResidue(slots: seq<Slot>, n: nat)
    requires n > 0 && OwnersBelow(slots, n)
    requires forall i :: 0 <= i < n ==> Held(slots, i) == |slots| / n
    ensures Residue(slots) == |slots| % n
  {
    EqualShares(slots, n, |slots| / n);
    SlotsAddUp(slots, n);
  }

  // --- the finished table ---------------------------------------------------------------------

  /** How many of the first `p` residue slots go to backend `c`. */
  function DealtTo(p: nat, n: nat, c: nat): nat {
    if p == 0 then 0 else DealtTo(p - 1, n, c) + if Dealt(p - 1, n) == c then 1 else 0
  }

  lemma {:induction false} DealtToFormula(p: nat, n: nat, c: nat)
    requires c < n
    ensures DealtTo(p, n, c) == p / n + if c < p % n then 1 else 0
  {
    if p == 0 {
      DivModUnique(0, n, 0, 0);
    } else {
      DealtToFormula(p - 1, n, c);
      DealtFormula(p - 1, n);
      ModStep(p - 1, n);
    }
  }

  lemma {:induction false} DealCounts(slots: seq<Slot>, order: seq<nat>, n: nat, c: nat)
    requires FreeSlots(order, slots)
    ensures Held(Deal(slots, order, n), c) == Held(slots, c) + DealtTo(|order|, n, c)
  {
    if order != [] {
      var last := |order| - 1;
      DealCounts(slots, order[..last], n, c);
      DealLast(slots, order, n);
      CountAfterUpdate(Deal(slots, order[..last], n), order[last], Owned(Dealt(last, n)), Owned(c));
    }
  }

  /** The finished deal, slot by slot. */
  lemma PositionOf(slots: seq<Slot>, order: seq<nat>, n: nat, k: nat) returns (p: nat)
    requires OrderOf(order, slots) && k < |slots|
    ensures slots[k].Owned? ==> Deal(slots, order, n)[k] == slots[k]
    ensures slots[k].Free? ==> p < |order| && order[p] == k && Deal(slots, order, n)[k] == Owned(Dealt(p, n))
  {
    p := 0;
    if slots[k].Owned? {
      DealKeeps(slots, order, n, k);
    } else {
      p :| p < |order| && order[p] == k;
      DealGives(slots, order, n, p);
    }
  }

  lemma DealtCompletely(slots: seq<Slot>, order: seq<nat>, n: nat)
    requires OrderOf(order, slots)
    ensures forall k :: 0 <= k < |slots| ==> Deal(slots, order, n)[k].Owned?
    ensures |order| == Residue(slots)
  {
    var r := Deal(slots, order, n);
    forall k | 0 <= k < |slots|
      ensures r[k].Owned?
    {
      var p := PositionOf(slots, order, n, k);
    }
    DealResidue(slots, order, n);
    assert Free !in r;
  }

  lemma {:induction false} OwnersCount(slots: seq<Slot>, c: nat)
    requires forall k :: 0 <= k < |slots| ==> slots[k].Owned?
    ensures multiset(Owners(slots))[c] == Held(slots, c)
  {
    if slots != [] {
      var last := |slots| - 1;
      OwnersCount(slots[..last], c);
      assert slots == slots[..last] + [slots[last]];
      assert Owners(slots) == Owners(slots[..last]) + [slots[last].owner];
    }
  }

  lemma DealtCount(slots: seq<Slot>, order: seq<nat>, n: nat, c: nat)
    requires OrderOf(order, slots)
    ensures multiset(Owners(Deal(slots, order, n)))[c] == Held(slots, c) + DealtTo(Residue(slots), n, c)
  {
    DealtCompletely(slots, order, n);
    OwnersCount(Deal(slots, order, n), c);
    DealCounts(slots, order, n, c);
  }

  /** The number of slots of each backend, whatever the iteration order was: its claims, plus an
      even share of the residue, plus one for the first backends. */
  lemma TableCounts(coords: seq<Coordinates>, m: U32, order: seq<nat>, c: nat)
    requires c < |coords| && OrderOf(order, Coordinated(coords, m).slots)
    ensures var slots, n := Coordinated(coords, m).slots, |coords|;
            multiset(Table(coords, m, order))[c]
              == Held(slots, c) + Residue(slots) / n + if c < Residue(slots) % n then 1 else 0
  {
    var slots, n := Coordinated(coords, m).slots, |coords|;
    DealtCount(slots, order, n, c);
    DealtToFormula(Residue(slots), n, c);
  }

  /** Perfect balance whenever the quotas were used up. */
  lemma PerfectBalance(coords: seq<Coordinates>, m: U32, order: seq<nat>, c: nat)
    requires c < |coords| && OrderOf(order, Coordinated(coords, m).slots)
    requires Spent(Coordinated(coords, m).quota)
    ensures multiset(Table(coords, m, order))[c] == m / |coords| + if c < m % |coords| then 1 else 0
  {
    SpentMeansFair(coords, m);
    TableCounts(coords, m, order, c);
    var rem, n := m % |coords|, |coords|;
    DivModUnique(rem, n, 0, rem);
  }

  lemma TableInRange(coords: seq<Coordinates>, m: U32, order: seq<nat>)
    requires |coords| > 0 && OrderOf(order, Coordinated(coords, m).slots)
    ensures forall k :: 0 <= k < m ==> Table(coords, m, order)[k] < |coords|
  {
    var slots, n := Coordinated(coords, m).slots, |coords|;
    ClaimsPartition(coords, m);
    forall k | 0 <= k < m
      ensures Table(coords, m, order)[k] < n
    {
      var p := PositionOf(slots, order, n, k);
    }
  }

  // --- iteration order ------------------------------------------------------------------------

  lemma DealsAgree(slots: seq<Slot>, o1: seq<nat>, o2: seq<nat>, n: nat)
    requires OrderOf(o1, slots) && OrderOf(o2, slots)
    ensures multiset(Owners(Deal(slots, o1, n))) == multiset(Owners(Deal(slots, o2, n)))
  {
    forall c: nat
      ensures multiset(Owners(Deal(slots, o1, n)))[c] == multiset(Owners(Deal(slots, o2, n)))[c]
    {
      DealtCount(slots, o1, n, c);
      DealtCount(slots, o2, n, c);
    }
  }

  /** Two runs with any two iteration orders agree on every claimed slot and give every backend
      the same number of slots. */
  lemma OrderIndependence(coords: seq<Coordinates>, m: U32, o1: seq<nat>, o2: seq<nat>)
    requires OrderOf(o1, Coordinated(coords, m).slots) && OrderOf(o2, Coordinated(coords, m).slots)
    ensures var slots := Coordinated(coords, m).slots;
            forall k :: 0 <= k < m && slots[k].Owned? ==>
              Table(coords, m, o1)[k] == slots[k].owner == Table(coords, m, o2)[k]
    ensures multiset(Table(coords, m, o1)) == multiset(Table(coords, m, o2))
  {
    var slots, n := Coordinated(coords, m).slots, |coords|;
    forall k | 0 <= k < m && slots[k].Owned?
      ensures Table(coords, m, o1)[k] == slots[k].owner == Table(coords, m, o2)[k]
    {
      DealKeeps(slots, o1, n, k);
      DealKeeps(slots, o2, n, k);
    }
    DealsAgree(slots, o1, o2, n);
  }

  /** The free slots in ascending order. */
  function FreeOf(slots: seq<Slot>): (order: seq<nat>)
    ensures OrderOf(order, slots)
  {
    if slots == [] then []
    else
      var last := |slots| - 1;
      assert slots == slots[..last] + [slots[last]];
      if slots[last].Free? then FreeOf(slots[..last]) + [last] else FreeOf(slots[..last])
  }

  ghost predicate SameTable(coords: seq<Coordinates>, m: U32, o1: seq<nat>, o2: seq<nat>) {
    OrderOf(o1, Coordinated(coords, m).slots) && OrderOf(o2, Coordinated(coords, m).slots)
    ==> Table(coords, m, o1) == Table(coords, m, o2)
  }

  /** Two nodes with the same backends are sure to build the same table exactly when there is one
      backend or the residue has at most one slot. */
  lemma IdenticalTablesIff(coords: seq<Coordinates>, m: U32)
    ensures (forall o1, o2 :: SameTable(coords, m, o1, o2))
       <==> |coords| == 1 || Residue(Coordinated(coords, m).slots) <= 1
  {
    var slots, n := Coordinated(coords, m).slots, |coords|;
    if n == 1 || Residue(slots) <= 1 {
      forall o1, o2 | OrderOf(o1, slots) && OrderOf(o2, slots)
        ensures Table(coords, m, o1) == Table(coords, m, o2)
      {
        SameDeal(slots, o1, o2, n);
      }
    } else {
      var o1, o2 := DifferentDeals(slots, n);
      assert !SameTable(coords, m, o1, o2);
    }
  }

  /** With the quotas used up: exactly when there is one backend or at most one slot more than the backends
      can share evenly. */
  lemma IdenticalWhenSpentIff(coords: seq<Coordinates>, m: U32)
    requires |coords| > 0 && Spent(Coordinated(coords, m).quota)
    ensures (forall o1, o2 :: SameTable(coords, m, o1, o2)) <==> |coords| == 1 || m % |coords| <= 1
  {
    IdenticalTablesIff(coords, m);
    SpentMeansFair(coords, m);
  }

  lemma SameDeal(slots: seq<Slot>, o1: seq<nat>, o2: seq<nat>, n: nat)
    requires OrderOf(o1, slots) && OrderOf(o2, slots)
    requires n == 1 || Residue(slots) <= 1
    ensures Deal(slots, o1, n) == Deal(slots, o2, n)
  {
    DealtCompletely(slots, o1, n);
    DealtCompletely(slots, o2, n);
    forall k | 0 <= k < |slots|
      ensures Deal(slots, o1, n)[k] == Deal(slots, o2, n)[k]
    {
      var p := PositionOf(slots, o1, n, k);
      var q := PositionOf(slots, o2, n, k);
    }
  }

  /** Swapping the first two slots of an order swaps what they are given. */
  lemma DifferentDeals(slots: seq<Slot>, n: nat) returns (o1: seq<nat>, o2: seq<nat>)
    requires n != 1 && Residue(slots) >= 2
    ensures OrderOf(o1, slots) && OrderOf(o2, slots)
    ensures Owners(Deal(slots, o1, n)) != Owners(Deal(slots, o2, n))
  {
    o1 := FreeOf(slots);
    DealtCompletely(slots, o1, n);
    o2 := [o1[1], o1[0]] + o1[2..];
    Swapped(slots, o1, o2);
    DealGives(slots, o1, n, 0);
    DealGives(slots, o2, n, 1);
    assert Owners(Deal(slots, o1, n))[o1[0]] == Dealt(0, n) == 0;
    assert Owners(Deal(slots, o2, n))[o1[0]] == Dealt(1, n) == 1;
  }

  lemma Swapped(slots: seq<Slot>, o1: seq<nat>, o2: seq<nat>)
    requires OrderOf(o1, slots) && |o1| >= 2 && o2 == [o1[1], o1[0]] + o1[2..]
    ensures OrderOf(o2, slots)
  {
    assert o2[0] == o1[1] && o2[1] == o1[0];
    assert forall p :: 2 <= p < |o1| ==> o2[p] == o1[p];
    forall k | 0 <= k < |slots| && slots[k].Free?
      ensures k in o2
    {
      var p :| 0 <= p < |o1| && o1[p] == k;
      assert o2[if p == 0 then 1 else if p == 1 then 0 else p] == k;
    }
  }

  // --- removing a backend ---------------------------------------------------------------------

  /** The backends without the one at `c`. */
  function Without(coords: seq<Coordinates>, c: nat): seq<Coordinates>
    requires c < |coords|
  {
    coords[..c] + coords[c + 1..]
  }

  /** The slots that belong to another backend once the one at `c` is gone: later backends move up. */
  function Moved(before: seq<nat>, after: seq<nat>, c: nat): set<nat>
    requires |before| == |after|
  {
    set k: nat | k < |before| && before[k] != if after[k] < c then after[k] else after[k] + 1
  }

  function SlotsOf(t: seq<nat>, c: nat): set<nat> {
    set k: nat | k < |t| && t[k] == c
  }

  lemma {:induction false} SlotsOfCount(t: seq<nat>, c: nat)
    ensures |SlotsOf(t, c)| == multiset(t)[c]
  {
    if t != [] {
      var front, k := t[..|t| - 1], |t| - 1;
      SlotsOfCount(front, c);
      assert t == front + [t[k]];
      assert SlotsOf(t, c) == SlotsOf(front, c) + if t[k] == c then {k} else {};
    }
  }

  lemma MovesWhatItHeld(before: seq<nat>, after: seq<nat>, c: nat)
    requires |before| == |after|
    ensures |Moved(before, after, c)| >= |SlotsOf(before, c)| == multiset(before)[c]
  {
    SlotsOfCount(before, c);
    SubsetSize(SlotsOf(before, c), Moved(before, after, c));
  }

  /** Somebody holds at least an equal share. */
  lemma {:induction false} SomebodyHolds(slots: seq<Slot>, n: nat) returns (c: nat)
    requires n > 0
    ensures c < n && n * Held(slots, c) >= HeldByAll(slots, n)
  {
    if n == 1 {
      c := 0;
      assert HeldByAll(slots, 0) == 0;
    } else {
      c := SomebodyHolds(slots, n - 1);
      var rest, last := HeldByAll(slots, n - 1), Held(slots, n - 1);
      if last > Held(slots, c) {
        MulMonotone(n - 1, Held(slots, c), last);
        c := n - 1;
      }
      Distributes(Held(slots, c), n - 1, 1);
    }
  }

  lemma TableHolder(coords: seq<Coordinates>, m: U32, order: seq<nat>) returns (c: nat)
    requires coords != [] && OrderOf(order, Coordinated(coords, m).slots)
    ensures c < |coords| && |coords| * multiset(Table(coords, m, order))[c] >= m
  {
    var slots, n := Coordinated(coords, m).slots, |coords|;
    var dealt := Deal(slots, order, n);
    DealtCompletely(slots, order, n);
    assert OwnersBelow(dealt, n) by {
      ClaimsPartition(coords, m);
      forall k | 0 <= k < |dealt|
        ensures dealt[k].owner < n
      {
        var p := PositionOf(slots, order, n, k);
      }
    }
    SlotsAddUp(dealt, n);
    assert Residue(dealt) == 0;
    c := SomebodyHolds(dealt, n);
    OwnersCount(dealt, c);
  }

  /** The promise that removing a backend moves less than one n-th of the table fails on every input: for
      any iteration order before, and any orders after, there is a backend whose removal moves at least
      one n-th of the slots. */
  lemma RemovalBoundFails(coords: seq<Coordinates>, m: U32, order: seq<nat>, orders: seq<seq<nat>>) returns (c: nat)
    requires coords != [] && OrderOf(order, Coordinated(coords, m).slots) && |orders| == |coords|
    requires forall c :: 0 <= c < |coords| ==> OrderOf(orders[c], Coordinated(Without(coords, c), m).slots)
    ensures c < |coords|
    ensures |coords| * |Moved(Table(coords, m, order), Table(Without(coords, c), m, orders[c]), c)| >= m
  {
    c := TableHolder(coords, m, order);
    var before, after := Table(coords, m, order), Table(Without(coords, c), m, orders[c]);
    MovesWhatItHeld(before, after, c);
    MulMonotone(|coords|, |SlotsOf(before, c)|, |Moved(before, after, c)|);
  }

  // --- why a backend owns a slot --------------------------------------------------------------

  /** The primes used by the rounds. */
  predicate RoundPrime(p: U32, m: U32) {
    p > 0 && (p == m || p in PRIMES)
  }

  /** Slot `k` is a multiple of the coordinate modulo the prime. */
  ghost predicate LeadsTo(c: U32, p: U32, m: U32, k: nat)
    requires p > 0
  {
    exists q :: 1 <= q <= m / p && k == q * (c % p)
  }

  ghost predicate Reached(cs: Coordinates, m: U32, k: nat) {
    exists j, p: U32 :: 0 <= j < N_COORDINATES && RoundPrime(p, m) && LeadsTo(cs[j], p, m, k)
  }

  ghost predicate Justified(slots: seq<Slot>, coords: seq<Coordinates>) {
    |slots| < WIDTH && forall k :: 0 <= k < |slots| && slots[k].Owned? ==>
      slots[k].owner < |coords| && Reached(coords[slots[k].owner], |slots|, k)
  }

  ghost predicate EachOwned(slots: seq<Slot>, P: (nat, nat) -> bool) {
    forall k :: 0 <= k < |slots| && slots[k].Owned? ==> P(slots[k].owner, k)
  }

  /** What holds of all owners and of the slots visited holds of all owners afterwards. */
  lemma {:induction false} TouchAllOwned(s: Claims, i: nat, idx: seq<nat>, k: nat, P: (nat, nat) -> bool)
    requires i < |s.quota| && k <= |idx| && EachOwned(s.slots, P)
    requires forall q :: 0 <= q < |idx| ==> idx[q] < |s.slots| && P(i, idx[q])
    ensures EachOwned(TouchAll(s, i, idx, k).slots, P)
  {
    if k > 0 {
      TouchAllOwned(s, i, idx, k - 1, P);
    }
  }

  lemma TargetReached(cs: Coordinates, j: nat, prime: U32, m: U32, q: nat)
    requires j < N_COORDINATES && RoundPrime(prime, m) && q < |Targets(cs[j], prime, m)|
    ensures Reached(cs, m, Targets(cs[j], prime, m)[q])
  {
    MultipleAt(cs[j] % prime, m / prime, q);
    assert LeadsTo(cs[j], prime, m, (q + 1) * (cs[j] % prime));
  }

  lemma CoordinateJustified(s: Claims, coords: seq<Coordinates>, i: nat, j: nat, prime: U32)
    requires i < |s.quota| == |coords| && j < N_COORDINATES && Justified(s.slots, coords)
    requires RoundPrime(prime, |s.slots|)
    ensures Justified(Coordinate(s, i, coords[i][j], prime).slots, coords)
  {
    var c, m := coords[i][j], |s.slots|;
    var idx := Targets(c, prime, m);
    forall q | 0 <= q < |idx|
      ensures Reached(coords[i], m, idx[q])
    {
      TargetReached(coords[i], j, prime, m, q);
    }
    var P := (o: nat, k: nat) => o < |coords| && Reached(coords[o], m, k);
    TouchAllOwned(s, i, idx, |idx|, P);
  }

  lemma {:induction false} VisitJustified(s: Claims, coords: seq<Coordinates>, i: nat, prime: U32, j: nat)
    requires i < |s.quota| == |coords| && j <= N_COORDINATES && Justified(s.slots, coords)
    requires RoundPrime(prime, |s.slots|)
    ensures Justified(Visit(s, i, coords[i], prime, j).slots, coords)
  {
    if j > 0 {
      VisitJustified(s, coords, i, prime, j - 1);
      CoordinateJustified(Visit(s, i, coords[i], prime, j - 1), coords, i, j - 1, prime);
    }
  }

  lemma {:induction false} RoundJustified(s: Claims, coords: seq<Coordinates>, prime: U32, i: nat)
    requires i <= |s.quota| == |coords| && Justified(s.slots, coords)
    requires RoundPrime(prime, |s.slots|)
    ensures Justified(Round(s, coords, prime, i).slots, coords)
  {
    if i > 0 {
      RoundJustified(s, coords, prime, i - 1);
      VisitJustified(Round(s, coords, prime, i - 1), coords, i - 1, prime, N_COORDINATES);
    }
  }

  lemma {:induction false} RoundsJustified(s: Claims, coords: seq<Coordinates>, prime: U32)
    requires |s.quota| == |coords| && Justified(s.slots, coords) && RoundPrime(prime, |s.slots|)
    ensures Justified(Rounds(s, coords, prime).slots, coords)
    decreases prime
  {
    RoundJustified(s, coords, prime, |coords|);
    var t := Round(s, coords, prime, |coords|);
    var next := NextPrime(prime);
    if next.Some? && !Spent(t.quota) {
      NextPrimeIsLargest(prime);
      RoundsJustified(t, coords, next.value);
    }
  }

  /** Every claimed slot is a multiple of one of its owner's coordinates modulo the table size or a
      listed prime. */
  lemma ClaimsJustified(coords: seq<Coordinates>, m: U32)
    ensures Justified(Coordinated(coords, m).slots, coords)
  {
    if m > 0 {
      RoundsJustified(Start(|coords|, m), coords, m);
    }
  }
}
