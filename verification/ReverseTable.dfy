/** The reverse-coordinates lookup table builder (internal/adapter/rlt/rlt.go).

    Backends claim slots round by round.  In a round every backend with quota left visits, for
    each of its four coordinates, the multiples of `coordinate % prime`, and takes the slots
    nobody owns yet.  Whatever is left when the rounds stop (the residue) is dealt out in the
    order in which Go happens to iterate over a map, so that order is a parameter here. */
module ReverseTable {
  import opened Basics

  const N_COORDINATES := 4
  type Coordinates = c: seq<U32> | |c| == N_COORDINATES witness [0, 0, 0, 0]

  const PRIMES: seq<U32> := [
    2, 3, 5, 7, 13, 17, 19, 31, 61, 89, 107, 127, 521, 607,
    1279, 2203, 2281, 3217, 4253, 4423, 9689, 9941, 11213,
    19937, 21701, 23209, 44497]

  datatype Slot = Free | Owned(owner: nat)

  /** What the coordinate rounds know: who owns each slot, and the wrapping quota of each backend. */
  datatype Claims = Claims(slots: seq<Slot>, quota: seq<U32>)

  function Held(slots: seq<Slot>, i: nat): nat {
    multiset(slots)[Owned(i)]
  }

  function Residue(slots: seq<Slot>): nat {
    multiset(slots)[Free]
  }

  ghost predicate Spent(quota: seq<U32>) {
    forall i :: 0 <= i < |quota| ==> quota[i] == 0
  }

  predicate SameShape(s: Claims, r: Claims) {
    |r.slots| == |s.slots| && |r.quota| == |s.quota|
  }

  /** `r` follows from `s` by claims: owned slots keep their owner, new owners are backends, and
      each backend pays one unit of quota, modulo the word width, for each slot it takes. */
  ghost predicate Extends(s: Claims, r: Claims) {
    && SameShape(s, r)
    && (forall k :: 0 <= k < |s.slots| && s.slots[k].Owned? ==> r.slots[k] == s.slots[k])
    && (forall k :: 0 <= k < |s.slots| && s.slots[k].Free? && r.slots[k].Owned? ==> r.slots[k].owner < |s.quota|)
    && (forall i :: 0 <= i < |s.quota| ==> Account(r, i) == Account(s, i))
  }

  /** Slots held plus quota left, as a machine word. */
  ghost function Account(s: Claims, i: nat): U32
    requires i < |s.quota|
  {
    (Held(s.slots, i) + s.quota[i]) % WIDTH
  }

  lemma ExtendsTransitive(a: Claims, b: Claims, c: Claims)
    requires Extends(a, b) && Extends(b, c)
    ensures Extends(a, c)
  {
  }

  // --- nextPrime ------------------------------------------------------------------------------

  predicate Ascending(list: seq<U32>) {
    forall i :: 0 < i < |list| ==> list[i - 1] < list[i]
  }

  lemma {:induction false} LastIsLargest(list: seq<U32>, i: nat)
    requires Ascending(list) && i < |list|
    ensures list[i] <= list[|list| - 1]
  {
    if i < |list| - 1 {
      LastIsLargest(list[..|list| - 1], i);
    }
  }

  /** The scan from the end of the list finds the largest entry below `current`. */
  function LargestBelow(list: seq<U32>, current: U32): (r: Option<U32>)
    requires Ascending(list)
    ensures r.Some? ==> r.value in list && r.value < current
    ensures r.Some? ==> forall p :: p in list && p < current ==> p <= r.value
    ensures r.None? <==> forall p :: p in list ==> current <= p
  {
    if list == [] then None
    else if list[|list| - 1] < current then
      assert forall p :: p in list ==> p <= list[|list| - 1] by {
        forall i | 0 <= i < |list|
          ensures list[i] <= list[|list| - 1]
        {
          LastIsLargest(list, i);
        }
      }
      Some(list[|list| - 1])
    else
      assert list == list[..|list| - 1] + [list[|list| - 1]];
      LargestBelow(list[..|list| - 1], current)
  }

  /** The next smaller listed prime; there is none exactly when `current` is at most 2. */
  function NextPrime(current: U32): (r: Option<U32>)
    ensures r.Some? ==> 2 <= r.value < current
    ensures r.None? <==> current <= 2
  {
    PrimesAscending();
    LargestBelow(PRIMES, current)
  }

  lemma NextPrimeIsLargest(current: U32)
    requires NextPrime(current).Some?
    ensures NextPrime(current).value in PRIMES
    ensures forall p :: p in PRIMES && p < current ==> p <= NextPrime(current).value
  {
    PrimesAscending();
  }

  lemma PrimesAscending()
    ensures Ascending(PRIMES) && 2 in PRIMES
    ensures forall p :: p in PRIMES ==> 2 <= p
  {
    assert PRIMES[0] == 2;
  }

  // --- the coordinate rounds ------------------------------------------------------------------

  lemma IndexBelow(m: nat, prime: nat, mod: nat, k: nat)
    requires 1 <= prime && mod < prime && 1 <= k <= m / prime
    ensures 0 <= k * mod < m
  {
    assert k * mod <= (m / prime) * mod;
    assert (m / prime) * mod < (m / prime) * prime <= m;
  }

  /** Take slot `idx` for backend `i` if nobody has it. */
  function Touch(s: Claims, i: nat, idx: nat): (r: Claims)
    requires i < |s.quota| && idx < |s.slots|
    ensures SameShape(s, r)
  {
    if s.slots[idx].Owned? then s
    else Claims(s.slots[idx := Owned(i)], s.quota[i := Dec(s.quota[i])])
  }

  function MultiplesOf(mod: nat, count: nat): (idx: seq<nat>)
    ensures |idx| == count
  {
    if count == 0 then [] else MultiplesOf(mod, count - 1) + [count * mod]
  }

  lemma MultipleAt(mod: nat, count: nat, k: nat)
    requires k < count
    ensures MultiplesOf(mod, count)[k] == (k + 1) * mod
  {
  }

  /** The slots a coordinate leads to in a round: the multiples 1, 2, ... of `c % prime`. */
  function Targets(c: U32, prime: U32, m: nat): (idx: seq<nat>)
    requires prime > 0
    ensures idx == MultiplesOf(c % prime, m / prime)
    ensures forall k :: 0 <= k < |idx| ==> idx[k] < m
  {
    var idx := MultiplesOf(c % prime, m / prime);
    TargetsBelow(c % prime, prime, m);
    idx
  }

  lemma TargetsBelow(mod: nat, prime: nat, m: nat)
    requires mod < prime
    ensures forall k :: 0 <= k < m / prime ==> MultiplesOf(mod, m / prime)[k] < m
  {
    forall k | 0 <= k < m / prime
      ensures MultiplesOf(mod, m / prime)[k] < m
    {
      MultipleAt(mod, m / prime, k);
      IndexBelow(m, prime, mod, k + 1);
    }
  }

  /** Backend `i` visits the first `k` of the given slots. */
  function TouchAll(s: Claims, i: nat, idx: seq<nat>, k: nat): (r: Claims)
    requires i < |s.quota| && k <= |idx|
    requires forall q :: 0 <= q < |idx| ==> idx[q] < |s.slots|
    ensures SameShape(s, r)
  {
    if k == 0 then s else Touch(TouchAll(s, i, idx, k - 1), i, idx[k - 1])
  }

  function Coordinate(s: Claims, i: nat, c: U32, prime: U32): (r: Claims)
    requires i < |s.quota|
    ensures SameShape(s, r)
  {
    if s.quota[i] < 1 || prime == 0 then s
    else
      var idx := Targets(c, prime, |s.slots|);
      TouchAll(s, i, idx, |idx|)
  }

  /** Backend `i` visits its first `j` coordinates. */
  function Visit(s: Claims, i: nat, cs: Coordinates, prime: U32, j: nat): (r: Claims)
    requires i < |s.quota| && j <= N_COORDINATES
    ensures SameShape(s, r)
  {
    if j == 0 then s else Coordinate(Visit(s, i, cs, prime, j - 1), i, cs[j - 1], prime)
  }

  /** One round for the first `i` backends. */
  function Round(s: Claims, coords: seq<Coordinates>, prime: U32, i: nat): (r: Claims)
    requires i <= |coords| == |s.quota|
    ensures SameShape(s, r)
  {
    if i == 0 then s
    else Visit(Round(s, coords, prime, i - 1), i - 1, coords[i - 1], prime, N_COORDINATES)
  }

  /** Rounds with decreasing primes, until the primes run out or every quota reads zero. */
  ghost function Rounds(s: Claims, coords: seq<Coordinates>, prime: U32): (r: Claims)
    requires |coords| == |s.quota|
    ensures SameShape(s, r)
    decreases prime
  {
    var s' := Round(s, coords, prime, |coords|);
    var next := NextPrime(prime);
    if next.Some? && !Spent(s'.quota) then Rounds(s', coords, next.value) else s'
  }

  /** All primes the rounds can use. */
  function RoundPrimes(m: U32): seq<U32>
    decreases m
  {
    [m] + if NextPrime(m).Some? then RoundPrimes(NextPrime(m).value) else []
  }

  lemma InCons(p: U32, m: U32, rest: seq<U32>)
    ensures p in [m] + rest <==> p == m || p in rest
  {
  }

  /** They are the table size and every listed prime below it. */
  lemma {:induction false} RoundPrimesAre(m: U32, p: U32)
    ensures p in RoundPrimes(m) <==> p == m || (p in PRIMES && p < m)
    decreases m
  {
    if NextPrime(m).Some? {
      var next := NextPrime(m).value;
      RoundPrimesAre(next, p);
      InCons(p, m, RoundPrimes(next));
      NextPrimeIsLargest(m);
    } else {
      InCons(p, m, []);
      PrimesAscending();
    }
  }

  /** In descending order. */
  lemma {:induction false} RoundPrimesDescend(m: U32)
    ensures forall i :: 1 <= i < |RoundPrimes(m)| ==> RoundPrimes(m)[i] < RoundPrimes(m)[i - 1]
    decreases m
  {
    if NextPrime(m).Some? {
      var next := NextPrime(m).value;
      RoundPrimesDescend(next);
      assert RoundPrimes(m) == [m] + RoundPrimes(next) && RoundPrimes(next)[0] == next;
    }
  }

  /** A round with each of the primes, without an early exit. */
  function AllRounds(s: Claims, coords: seq<Coordinates>, primes: seq<U32>): (r: Claims)
    requires |coords| == |s.quota|
    ensures SameShape(s, r)
    decreases |primes|
  {
    if primes == [] then s else AllRounds(Round(s, coords, primes[0], |coords|), coords, primes[1..])
  }

  lemma {:induction false} IdleWhenSpent(s: Claims, coords: seq<Coordinates>, prime: U32, i: nat)
    requires i <= |coords| == |s.quota| && Spent(s.quota)
    ensures Round(s, coords, prime, i) == s
  {
    if i > 0 {
      IdleWhenSpent(s, coords, prime, i - 1);
      VisitWhenSpent(s, i - 1, coords[i - 1], prime, N_COORDINATES);
    }
  }

  lemma {:induction false} VisitWhenSpent(s: Claims, i: nat, cs: Coordinates, prime: U32, j: nat)
    requires i < |s.quota| && j <= N_COORDINATES && s.quota[i] == 0
    ensures Visit(s, i, cs, prime, j) == s
  {
    if j > 0 {
      VisitWhenSpent(s, i, cs, prime, j - 1);
    }
  }

  lemma {:induction false} AllIdleWhenSpent(s: Claims, coords: seq<Coordinates>, primes: seq<U32>)
    requires |coords| == |s.quota| && Spent(s.quota)
    ensures AllRounds(s, coords, primes) == s
    decreases |primes|
  {
    if primes != [] {
      IdleWhenSpent(s, coords, primes[0], |coords|);
      AllIdleWhenSpent(s, coords, primes[1..]);
    }
  }

  /** The early exit saves work and nothing else: the rounds are one for the table size and one for every
      listed prime below it. */
  lemma {:induction false} EarlyExitIsIdle(s: Claims, coords: seq<Coordinates>, prime: U32)
    requires |coords| == |s.quota|
    ensures Rounds(s, coords, prime) == AllRounds(s, coords, RoundPrimes(prime))
    decreases prime
  {
    var s', next := Round(s, coords, prime, |coords|), NextPrime(prime);
    var primes := RoundPrimes(prime);
    assert primes[0] == prime && primes[1..] == if next.Some? then RoundPrimes(next.value) else [];
    assert AllRounds(s, coords, primes) == AllRounds(s', coords, primes[1..]);
    if next.Some? {
      if Spent(s'.quota) {
        AllIdleWhenSpent(s', coords, primes[1..]);
      } else {
        EarlyExitIsIdle(s', coords, next.value);
      }
    }
  }

  function Start(n: nat, m: U32): (s: Claims)
    ensures |s.slots| == m && |s.quota| == n
  {
    Claims(seq(m, _ => Free), if n == 0 then [] else seq(n, _ => m / n))
  }

  /** Everything the coordinate rounds decide, for backends with the given coordinates. */
  ghost function Coordinated(coords: seq<Coordinates>, m: U32): (r: Claims)
    ensures |r.slots| == m && |r.quota| == |coords|
  {
    Rounds(Start(|coords|, m), coords, m)
  }

  // --- every step extends the claims ----------------------------------------------------------

  lemma TouchExtends(s: Claims, i: nat, idx: nat)
    requires i < |s.quota| && idx < |s.slots|
    ensures Extends(s, Touch(s, i, idx))
  {
  }

  lemma {:induction false} TouchAllExtends(s: Claims, i: nat, idx: seq<nat>, k: nat)
    requires i < |s.quota| && k <= |idx|
    requires forall q :: 0 <= q < |idx| ==> idx[q] < |s.slots|
    ensures Extends(s, TouchAll(s, i, idx, k))
  {
    if k > 0 {
      var t := TouchAll(s, i, idx, k - 1);
      TouchAllExtends(s, i, idx, k - 1);
      TouchExtends(t, i, idx[k - 1]);
      ExtendsTransitive(s, t, Touch(t, i, idx[k - 1]));
    }
  }

  lemma CoordinateExtends(s: Claims, i: nat, c: U32, prime: U32)
    requires i < |s.quota|
    ensures Extends(s, Coordinate(s, i, c, prime))
  {
    if prime > 0 {
      var idx := Targets(c, prime, |s.slots|);
      TouchAllExtends(s, i, idx, |idx|);
    }
  }

  lemma {:induction false} VisitExtends(s: Claims, i: nat, cs: Coordinates, prime: U32, j: nat)
    requires i < |s.quota| && j <= N_COORDINATES
    ensures Extends(s, Visit(s, i, cs, prime, j))
  {
    if j > 0 {
      var t := Visit(s, i, cs, prime, j - 1);
      VisitExtends(s, i, cs, prime, j - 1);
      CoordinateExtends(t, i, cs[j - 1], prime);
      ExtendsTransitive(s, t, Coordinate(t, i, cs[j - 1], prime));
    }
  }

  lemma {:induction false} RoundExtends(s: Claims, coords: seq<Coordinates>, prime: U32, i: nat)
    requires i <= |coords| == |s.quota|
    ensures Extends(s, Round(s, coords, prime, i))
  {
    if i > 0 {
      var t := Round(s, coords, prime, i - 1);
      RoundExtends(s, coords, prime, i - 1);
      VisitExtends(t, i - 1, coords[i - 1], prime, N_COORDINATES);
      ExtendsTransitive(s, t, Visit(t, i - 1, coords[i - 1], prime, N_COORDINATES));
    }
  }

  lemma {:induction false} RoundsExtends(s: Claims, coords: seq<Coordinates>, prime: U32)
    requires |coords| == |s.quota|
    ensures Extends(s, Rounds(s, coords, prime))
    decreases prime
  {
    var t := Round(s, coords, prime, |coords|);
    RoundExtends(s, coords, prime, |coords|);
    var next := NextPrime(prime);
    if next.Some? && !Spent(t.quota) {
      RoundsExtends(t, coords, next.value);
      ExtendsTransitive(s, t, Rounds(t, coords, next.value));
    }
  }

  // --- the residue ----------------------------------------------------------------------------

  ghost predicate FreeSlots(order: seq<nat>, slots: seq<Slot>) {
    && (forall p :: 0 <= p < |order| ==> order[p] < |slots| && slots[order[p]].Free?)
    && (forall p, q :: 0 <= p < q < |order| ==> order[p] != order[q])
  }

  /** `order` lists every free slot once: one way to iterate over the map `unset`. */
  ghost predicate OrderOf(order: seq<nat>, slots: seq<Slot>) {
    && FreeSlots(order, slots)
    && (forall k :: 0 <= k < |slots| && slots[k].Free? ==> k in order)
  }

  /** The backend given to the p-th residue slot: a counter that starts again once it reaches n. */
  function Dealt(p: nat, n: nat): (r: nat)
    ensures n > 0 ==> r < n
    ensures n == 0 ==> r == p
  {
    if p == 0 then 0
    else
      var next := Dealt(p - 1, n) + 1;
      if next == n then 0 else next
  }

  lemma {:induction false} DealtFormula(p: nat, n: nat)
    requires n > 0
    ensures Dealt(p, n) == p % n
  {
    if p > 0 {
      DealtFormula(p - 1, n);
      ModStep(p - 1, n);
    }
  }

  /** The slots once those in `order` are dealt out one after the other. */
  ghost function Deal(slots: seq<Slot>, order: seq<nat>, n: nat): (r: seq<Slot>)
    requires FreeSlots(order, slots)
    ensures |r| == |slots|
  {
    if order == [] then slots
    else
      var last := |order| - 1;
      Deal(slots, order[..last], n)[order[last] := Owned(Dealt(last, n))]
  }

  lemma {:induction false} DealKeeps(slots: seq<Slot>, order: seq<nat>, n: nat, k: nat)
    requires FreeSlots(order, slots) && k < |slots| && k !in order
    ensures Deal(slots, order, n)[k] == slots[k]
  {
    if order != [] {
      var last := |order| - 1;
      assert order[last] != k;
      DealKeeps(slots, order[..last], n, k);
    }
  }

  lemma {:induction false} DealGives(slots: seq<Slot>, order: seq<nat>, n: nat, p: nat)
    requires FreeSlots(order, slots) && p < |order|
    ensures Deal(slots, order, n)[order[p]] == Owned(Dealt(p, n))
  {
    var last := |order| - 1;
    if p < last {
      DealGives(slots, order[..last], n, p);
      assert order[p] != order[last];
    }
  }

  lemma NotDealt(slots: seq<Slot>, order: seq<nat>, n: nat, k: nat)
    requires FreeSlots(order, slots) && k < |slots| && Deal(slots, order, n)[k].Free?
    ensures k !in order && slots[k].Free?
  {
    if k in order {
      var p :| 0 <= p < |order| && order[p] == k;
      DealGives(slots, order, n, p);
    } else {
      DealKeeps(slots, order, n, k);
    }
  }

  /** Dealing out one more slot. */
  lemma DealSnoc(slots: seq<Slot>, order: seq<nat>, n: nat, k: nat)
    requires FreeSlots(order, slots)
    requires k < |slots| && Deal(slots, order, n)[k].Free?
    ensures FreeSlots(order + [k], slots)
    ensures Deal(slots, order + [k], n) == Deal(slots, order, n)[k := Owned(Dealt(|order|, n))]
  {
    NotDealt(slots, order, n, k);
    var longer := order + [k];
    assert FreeSlots(longer, slots);
    assert longer[..|longer| - 1] == order && longer[|longer| - 1] == k;
  }

  lemma CountAfterUpdate(slots: seq<Slot>, k: nat, x: Slot, y: Slot)
    requires k < |slots|
    ensures multiset(slots[k := x])[y]
         == multiset(slots)[y] - (if slots[k] == y then 1 else 0) + (if x == y then 1 else 0)
  {
  }

  lemma DealLast(slots: seq<Slot>, order: seq<nat>, n: nat)
    requires FreeSlots(order, slots) && order != []
    ensures var last := |order| - 1;
            FreeSlots(order[..last], slots) && Deal(slots, order[..last], n)[order[last]] == Free
  {
    var last := |order| - 1;
    assert order[last] !in order[..last];
    DealKeeps(slots, order[..last], n, order[last]);
  }

  /** Every slot dealt out is one free slot less. */
  lemma {:induction false} DealResidue(slots: seq<Slot>, order: seq<nat>, n: nat)
    requires FreeSlots(order, slots)
    ensures Residue(Deal(slots, order, n)) + |order| == Residue(slots)
  {
    if order != [] {
      var last := |order| - 1;
      DealResidue(slots, order[..last], n);
      DealLast(slots, order, n);
      CountAfterUpdate(Deal(slots, order[..last], n), order[last], Owned(Dealt(last, n)), Free);
    }
  }

  /** The finished table, as backend indices. */
  ghost function Table(coords: seq<Coordinates>, m: U32, order: seq<nat>): (t: seq<nat>)
    requires OrderOf(order, Coordinated(coords, m).slots)
    ensures |t| == m
  {
    Owners(Deal(Coordinated(coords, m).slots, order, |coords|))
  }

  function Owners(slots: seq<Slot>): (t: seq<nat>)
    ensures |t| == |slots|
    ensures forall k :: 0 <= k < |t| && slots[k].Owned? ==> t[k] == slots[k].owner
  {
    seq(|slots|, k requires 0 <= k < |slots| => if slots[k].Owned? then slots[k].owner else 0)
  }

  // --- the builder ----------------------------------------------------------------------------

  /** The mutable structures of the builder agree with the claims `s`. */
  ghost predicate Tracks(s: Claims, out: seq<nat>, unset: set<nat>, distribution: map<nat, U32>) {
    && |out| == |s.slots|
    && (forall k: nat :: k in unset <==> k < |s.slots| && s.slots[k].Free?)
    && (forall k :: 0 <= k < |s.slots| && s.slots[k].Owned? ==> out[k] == s.slots[k].owner)
    && (forall i: nat :: i in distribution <==> i < |s.quota|)
    && (forall i: nat :: i < |s.quota| ==> distribution[i] == s.quota[i])
  }

  predicate IsNotFullyDistributed(distribution: map<nat, U32>)
  {
    exists i :: i in distribution && distribution[i] > 0
  }

  /** The body of the loop over the multiples: take slot `idx` if it is unset. */
  method ClaimSlot(out: array<nat>, unset0: set<nat>, distribution0: map<nat, U32>,
                   i: nat, idx: nat, ghost s: Claims)
    returns (unset: set<nat>, distribution: map<nat, U32>)
    requires i < |s.quota| && idx < |s.slots| && Tracks(s, out[..], unset0, distribution0)
    modifies out
    ensures Tracks(Touch(s, i, idx), out[..], unset, distribution)
  {
    unset, distribution := unset0, distribution0;
    if idx in unset {
      out[idx] := i;
      distribution := distribution[i := Dec(distribution[i])];
      unset := unset - {idx};
    }
  }

  /** The loop over the multiples of `mod`. */
  method ClaimMultiples(out: array<nat>, unset0: set<nat>, distribution0: map<nat, U32>,
                        i: nat, mod: nat, count: nat, ghost s: Claims)
    returns (unset: set<nat>, distribution: map<nat, U32>)
    requires i < |s.quota| && Tracks(s, out[..], unset0, distribution0)
    requires forall k :: 0 <= k < count ==> MultiplesOf(mod, count)[k] < |s.slots|
    modifies out
    ensures Tracks(TouchAll(s, i, MultiplesOf(mod, count), count), out[..], unset, distribution)
  {
    unset, distribution := unset0, distribution0;
    ghost var idx := MultiplesOf(mod, count);
    for k := 0 to count
      invariant Tracks(TouchAll(s, i, idx, k), out[..], unset, distribution)
    {
      var at := (k + 1) * mod;
      MultipleAt(mod, count, k);
      unset, distribution := ClaimSlot(out, unset, distribution, i, at, TouchAll(s, i, idx, k));
    }
  }

  /** One coordinate of one backend: the quota test, then the multiples. */
  method ClaimCoordinate(out: array<nat>, unset0: set<nat>, distribution0: map<nat, U32>,
                         i: nat, c: U32, prime: U32, ghost s: Claims)
    returns (unset: set<nat>, distribution: map<nat, U32>)
    requires i < |s.quota| && Tracks(s, out[..], unset0, distribution0)
    requires prime == 0 ==> s.quota[i] == 0
    modifies out
    ensures Tracks(Coordinate(s, i, c, prime), out[..], unset, distribution)
  {
    if distribution0[i] < 1 {
      return unset0, distribution0;
    }
    var mod, count := c % prime, out.Length / prime;
    ghost var idx := Targets(c, prime, out.Length);
    assert idx == MultiplesOf(mod, count);
    unset, distribution := ClaimMultiples(out, unset0, distribution0, i, mod, count, s);
    assert Coordinate(s, i, c, prime) == TouchAll(s, i, idx, |idx|);
  }

  /** One backend in one round: the loop over its coordinates. */
  method ClaimCoordinates(out: array<nat>, unset0: set<nat>, distribution0: map<nat, U32>,
                          i: nat, cs: Coordinates, prime: U32, ghost s: Claims)
    returns (unset: set<nat>, distribution: map<nat, U32>)
    requires i < |s.quota| && Tracks(s, out[..], unset0, distribution0)
    requires prime == 0 ==> s.quota[i] == 0
    modifies out
    ensures Tracks(Visit(s, i, cs, prime, N_COORDINATES), out[..], unset, distribution)
  {
    unset, distribution := unset0, distribution0;
    for j := 0 to N_COORDINATES
      invariant prime == 0 ==> Visit(s, i, cs, prime, j) == s
      invariant Tracks(Visit(s, i, cs, prime, j), out[..], unset, distribution)
    {
      unset, distribution :=
        ClaimCoordinate(out, unset, distribution, i, cs[j], prime, Visit(s, i, cs, prime, j));
    }
  }

  /** One round: the loop over the backends. */
  method ClaimRound(out: array<nat>, unset0: set<nat>, distribution0: map<nat, U32>,
                    coords: seq<Coordinates>, prime: U32, ghost s: Claims)
    returns (unset: set<nat>, distribution: map<nat, U32>)
    requires |coords| == |s.quota| && Tracks(s, out[..], unset0, distribution0)
    requires prime == 0 ==> Spent(s.quota)
    modifies out
    ensures Tracks(Round(s, coords, prime, |coords|), out[..], unset, distribution)
  {
    unset, distribution := unset0, distribution0;
    for i := 0 to |coords|
      invariant prime == 0 ==> Round(s, coords, prime, i) == s
      invariant Tracks(Round(s, coords, prime, i), out[..], unset, distribution)
    {
      ghost var t := Round(s, coords, prime, i);
      IdleWithoutPrime(t, i, coords[i], N_COORDINATES);
      unset, distribution := ClaimCoordinates(out, unset, distribution, i, coords[i], prime, t);
    }
  }

  lemma IdleWithoutPrime(s: Claims, i: nat, cs: Coordinates, j: nat)
    requires i < |s.quota| && j <= N_COORDINATES
    ensures Visit(s, i, cs, 0, j) == s
  {
  }

  /** The counter `i` of the last loop, before the test that sends it back to 0. */
  predicate Counts(i: nat, p: nat, n: U32) {
    i == Dealt(p, n) || (n > 0 && i == n && Dealt(p, n) == 0)
  }

  /** `rest` are the slots still to be dealt out, and `out` holds the owners of the others. */
  ghost predicate Dealing(out: seq<nat>, rest: set<nat>, dealt: seq<Slot>) {
    && |out| == |dealt|
    && (forall k: nat :: k in rest <==> k < |dealt| && dealt[k].Free?)
    && (forall k :: 0 <= k < |dealt| && dealt[k].Owned? ==> out[k] == dealt[k].owner)
  }

  method FillSlot(out: array<nat>, rest0: set<nat>, k: nat, v: nat, ghost dealt: seq<Slot>) returns (rest: set<nat>)
    requires Dealing(out[..], rest0, dealt) && k in rest0
    modifies out
    ensures rest == rest0 - {k}
    ensures Dealing(out[..], rest, dealt[k := Owned(v)])
  {
    out[k] := v;
    rest := rest0 - {k};
  }

  lemma CountsNext(i: nat, p: nat, n: U32)
    requires Counts(i, p, n) && p < WIDTH
    ensures var j := if i > Dec(n) then 0 else i;
            j == Dealt(p, n) && Counts(j + 1, p + 1, n)
  {
  }

  lemma {:induction false} FreeSlotsFit(order: seq<nat>, slots: seq<Slot>)
    requires FreeSlots(order, slots)
    ensures |order| <= |slots|
  {
    DealResidue(slots, order, 1);
    assert multiset(slots)[Free] <= |multiset(slots)|;
  }

  /** The body of the last loop. */
  method DealSlot(out: array<nat>, rest0: set<nat>, k: nat, i0: nat, n: U32, ghost slots: seq<Slot>, ghost order: seq<nat>)
    returns (rest: set<nat>, i: nat)
    requires FreeSlots(order, slots) && |slots| < WIDTH && Counts(i0, |order|, n) && k in rest0
    requires Dealing(out[..], rest0, Deal(slots, order, n))
    modifies out
    ensures rest == rest0 - {k} && FreeSlots(order + [k], slots) && Counts(i, |order| + 1, n)
    ensures Dealing(out[..], rest, Deal(slots, order + [k], n))
  {
    DealSnoc(slots, order, n, k);
    FreeSlotsFit(order + [k], slots);
    CountsNext(i0, |order|, n);
    i := if i0 > Dec(n) then 0 else i0;
    rest := FillSlot(out, rest0, k, i, Deal(slots, order, n));
    i := i + 1;
  }

  /** The last loop: Go iterates over `unset` in any order. */
  method FillResidue(out: array<nat>, unset: set<nat>, n: U32, ghost slots: seq<Slot>)
    returns (ghost order: seq<nat>)
    requires Dealing(out[..], unset, slots) && |slots| < WIDTH
    modifies out
    ensures OrderOf(order, slots)
    ensures out[..] == Owners(Deal(slots, order, n))
  {
    order := [];
    var rest, i := unset, 0;
    assert Deal(slots, order, n) == slots;
    while rest != {}
      invariant FreeSlots(order, slots) && Counts(i, |order|, n)
      invariant Dealing(out[..], rest, Deal(slots, order, n))
      decreases |rest|
    {
      var k :| k in rest;
      rest, i := DealSlot(out, rest, k, i, n, slots, order);
      order := order + [k];
    }
    AllDealt(out[..], slots, order, n);
  }

  lemma AllDealt(out: seq<nat>, slots: seq<Slot>, order: seq<nat>, n: nat)
    requires FreeSlots(order, slots) && Dealing(out, {}, Deal(slots, order, n))
    ensures OrderOf(order, slots) && out == Owners(Deal(slots, order, n))
  {
    var dealt := Deal(slots, order, n);
    forall k | 0 <= k < |slots|
      ensures dealt[k].Owned? && out[k] == Owners(dealt)[k]
    {
      assert k !in {};
    }
    DealtOut(slots, order, n);
  }

  lemma DealtOut(slots: seq<Slot>, order: seq<nat>, n: nat)
    requires FreeSlots(order, slots)
    requires forall k :: 0 <= k < |slots| ==> Deal(slots, order, n)[k].Owned?
    ensures OrderOf(order, slots)
  {
    forall k | 0 <= k < |slots| && slots[k].Free?
      ensures k in order
    {
      if k !in order {
        DealKeeps(slots, order, n, k);
      }
    }
  }

  lemma NotSpent(s: Claims, out: seq<nat>, unset: set<nat>, distribution: map<nat, U32>)
    requires Tracks(s, out, unset, distribution)
    ensures IsNotFullyDistributed(distribution) <==> !Spent(s.quota)
  {
    if !Spent(s.quota) {
      var i: nat :| i < |s.quota| && s.quota[i] != 0;
      assert i in distribution && distribution[i] > 0;
    }
  }

  /** The outer loop over the primes. */
  method ClaimRounds(out: array<nat>, unset0: set<nat>, distribution0: map<nat, U32>,
                     coords: seq<Coordinates>, m: U32, ghost start: Claims)
    returns (unset: set<nat>, distribution: map<nat, U32>)
    requires |coords| == |start.quota| && Tracks(start, out[..], unset0, distribution0)
    requires m == 0 ==> Spent(start.quota)
    modifies out
    ensures Tracks(Rounds(start, coords, m), out[..], unset, distribution)
  {
    unset, distribution := unset0, distribution0;
    ghost var s := start;
    var prime: U32, shouldContinue := m, true;
    while shouldContinue
      invariant |s.quota| == |coords| && Tracks(s, out[..], unset, distribution)
      invariant shouldContinue && prime == 0 ==> Spent(s.quota)
      invariant Rounds(start, coords, m) == if shouldContinue then Rounds(s, coords, prime) else s
      decreases prime, shouldContinue
    {
      unset, distribution := ClaimRound(out, unset, distribution, coords, prime, s);
      s := Round(s, coords, prime, |coords|);
      NotSpent(s, out[..], unset, distribution);
      var next := NextPrime(prime);
      shouldContinue := next.Some? && IsNotFullyDistributed(distribution);
      if shouldContinue {
        prime := next.value;
      }
    }
  }

  /** The loops that fill `unset` and `distribution`. */
  method Initialise(n: U32, m: U32) returns (unset: set<nat>, distribution: map<nat, U32>)
    ensures Tracks(Start(n, m), seq(m, _ => 0), unset, distribution)
  {
    unset, distribution := {}, map[];
    for i := 0 to m
      invariant forall k: nat :: k in unset <==> k < i
    {
      unset := unset + {i};
    }
    for i := 0 to n
      invariant forall k: nat :: k in distribution <==> k < i
      invariant forall k: nat :: k < i ==> distribution[k] == m / n
    {
      distribution := distribution[i := m / n];
    }
  }

  /** The builder.  `order` is the iteration order Go picks for `unset`. */
  method ReverseCoordinatesLookupTable(coords: seq<Coordinates>, m: U32)
    returns (table: seq<nat>, ghost order: seq<nat>)
    requires |coords| < WIDTH
    ensures OrderOf(order, Coordinated(coords, m).slots)
    ensures table == Table(coords, m, order)
  {
    var out := new nat[m](_ => 0);
    var n: U32 := |coords|;
    var unset, distribution := Initialise(n, m);
    assert out[..] == seq(m, _ => 0);
    unset, distribution := ClaimRounds(out, unset, distribution, coords, m, Start(n, m));
    order := FillResidue(out, unset, n, Coordinated(coords, m).slots);
    table := out[..];
  }
}
