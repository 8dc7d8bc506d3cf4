/** How many slots the probing builders give to each backend. */
module ProbingFairness {
  import opened Basics
  import opened Probing
  import opened ProbingBuilders

  /** After the placement every backend holds one slot per turn and its home slot, unless a later
      backend with the same home displaced it. */
  lemma PlacementCount(coords: seq<U32>, m: U32, wanted: seq<nat>, q: nat, j: nat)
    requires m > 0 && j < |coords| && Roomy(Settled(coords, m), q, m)
    ensures |Slots(Rounds(Settled(coords, m), wanted, q, |wanted|, m).lup, j)|
         == Taken(wanted, q, |wanted|) + if Displaced(Homes(coords, m), j) then 0 else 1
    ensures InTable(Rounds(Settled(coords, m), wanted, q, |wanted|, m), m)
  {
    HomeSlots(Homes(coords, m), j);
    RoundsGrow(Settled(coords, m), wanted, q, |wanted|, m, j);
  }

  /** In the finished table every backend but 0 has the slots of the placement, plus one if the
      patching reached it. */
  lemma FinishedCount(coords: seq<U32>, m: U32, wanted: seq<nat>, q: nat, rem: U32, c: nat)
    requires 1 <= c < |coords| <= m && Roomy(Settled(coords, m), q, m)
    ensures var patched := Patch(Rounds(Settled(coords, m), wanted, q, |wanted|, m).lup, rem, |coords|).1;
            multiset(Finished(coords, m, wanted, q, rem))[c]
              == Taken(wanted, q, |wanted|) + (if Displaced(Homes(coords, m), c) then 0 else 1)
                 + (if c < patched then 1 else 0)
  {
    var lup, n := Rounds(Settled(coords, m), wanted, q, |wanted|, m).lup, |coords|;
    PlacementCount(coords, m, wanted, q, c);
    PatchSlots(lup, rem, n, c);
    PatchBelow(lup, rem, n, m);
    var p := Patch(lup, rem, n).0;
    OutputCount(p, m, c);
    assert (set k | k in Slots(p, c) && k < m) == Slots(p, c);
  }

  /** RobustSimpleLookupTable: the placement gives every backend its fair share exactly, less one
      if it was displaced from its home. */
  lemma SimplePlacement(coords: seq<U32>, m: U32, share: nat, j: nat)
    requires j < |coords| && m > 0 && share > 0 && Roomy(Settled(coords, m), share - 1, m)
    ensures |Slots(Rounds(Settled(coords, m), Ones(share - 1), share - 1, share, m).lup, j)|
         == share - if Displaced(Homes(coords, m), j) then 1 else 0
  {
    PlacementCount(coords, m, Ones(share - 1), share - 1, j);
    OnesTaken(share - 1, share);
  }

  /** RobustSimpleLookupTable gives every backend but 0 its fair share, give or take one slot. */
  lemma SimpleIsFair(coords: seq<U32>, m: U32, share: nat, c: nat)
    requires 1 <= c < |coords| <= m && share == m / |coords|
    ensures share >= 1
    ensures share - 1 <= multiset(Finished(coords, m, Ones(share - 1), share - 1, m % |coords|))[c] <= share + 1
  {
    ShareFits(coords, m);
    OnesTaken(share - 1, share);
    FinishedCount(coords, m, Ones(share - 1), share - 1, m % |coords|, c);
  }

  // --- where the slots are --------------------------------------------------------------------

  lemma AtHome(s: Probe, j: nat, home: nat, m: nat)
    requires home < m && j < |s.last| && s.last[j] == home && home in s.lup
    ensures HasArc(s.lup, s, j, home, m)
  {
    assert Arc(s.lup, s, j, home, m, 0) by {
      assert Around(home, 0, m) == home;
    }
  }

  lemma SettledCompact(coords: seq<U32>, m: U32)
    requires m > 0
    ensures Compact(Settled(coords, m).lup, Settled(coords, m), Homes(coords, m), m)
  {
    var s, homes := Settled(coords, m), Homes(coords, m);
    forall j | 0 <= j < |homes|
      ensures HasArc(s.lup, s, j, homes[j], m)
    {
      LaterWins(homes, |homes|, j);
      AtHome(s, j, homes[j], m);
    }
  }

  /** After the placement of either builder every slot a backend got lies between its home and the last slot
      it took, around the table, and there is no empty slot on that way. */
  lemma PlacementCompact(coords: seq<U32>, m: U32, wanted: seq<nat>, q: nat)
    requires m > 0 && coords != [] && Roomy(Settled(coords, m), q, m)
    ensures Compact(Settled(coords, m).lup, Rounds(Settled(coords, m), wanted, q, |wanted|, m), Homes(coords, m), m)
  {
    SettledCompact(coords, m);
    RoundsCompact(Settled(coords, m).lup, Settled(coords, m), wanted, q, |wanted|, Homes(coords, m), m);
  }

  // --- RobustFibLookupTable -------------------------------------------------------------------

  function Total(wanted: seq<nat>, i: nat): nat
    requires i <= |wanted|
  {
    if i == 0 then 0 else Total(wanted, i - 1) + wanted[i - 1]
  }

  lemma {:induction false} TakenIsCapped(wanted: seq<nat>, q: nat, i: nat)
    requires i <= |wanted|
    ensures Taken(wanted, q, i) == Min(q, Total(wanted, i))
  {
    if i > 0 {
      TakenIsCapped(wanted, q, i - 1);
    }
  }

  const FIB_TOTAL := 10935

  lemma FibTotal()
    ensures Total(FIB, |FIB|) == FIB_TOTAL
  {
    assert Total(FIB, 5) == 12;
    assert Total(FIB, 9) == 88;
    assert Total(FIB, 12) == 376;
    assert Total(FIB, 15) == 1596;
    assert Total(FIB, 17) == 4170;
  }

  /** With any list of turn counts the placement gives every backend its fair share, less one if it
      was displaced from its home, exactly when the list allows that many turns. */
  lemma FairIff(wanted: seq<nat>, coords: seq<U32>, m: U32, share: nat, j: nat)
    requires j < |coords| && m > 0 && share > 0 && Roomy(Settled(coords, m), share - 1, m)
    ensures |Slots(Rounds(Settled(coords, m), wanted, share - 1, |wanted|, m).lup, j)|
              == share - (if Displaced(Homes(coords, m), j) then 1 else 0)
       <==> share <= Total(wanted, |wanted|) + 1
  {
    PlacementCount(coords, m, wanted, share - 1, j);
    TakenIsCapped(wanted, share - 1, |wanted|);
  }

  /** For RobustFibLookupTable: exactly when the share is at most 10936 slots. */
  lemma FibIsFairIff(coords: seq<U32>, m: U32, share: nat, j: nat)
    requires j < |coords| <= m && share == m / |coords|
    ensures share >= 1
    ensures |Slots(Rounds(Settled(coords, m), FIB, share - 1, |FIB|, m).lup, j)|
              == share - (if Displaced(Homes(coords, m), j) then 1 else 0)
       <==> share <= FIB_TOTAL + 1
  {
    ShareFits(coords, m);
    FairIff(FIB, coords, m, share, j);
    FibTotal();
  }

  /** In the output of RobustFibLookupTable every backend but 0 has the share, or what the list allows,
      adjusted by the home slot it lost and the slot the patching gave it; it is within one slot of the
      share exactly when the list, with these two, reaches that far. */
  lemma FibOutputFairIff(coords: seq<U32>, m: U32, share: nat, c: nat)
    requires 1 <= c < |coords| <= m && share == m / |coords|
    ensures share >= 1
    ensures var count := multiset(Finished(coords, m, FIB, share - 1, m % |coords|))[c];
            var placed := Rounds(Settled(coords, m), FIB, share - 1, |FIB|, m).lup;
            var home := if Displaced(Homes(coords, m), c) then 0 else 1;
            var patched := if c < Patch(placed, m % |coords|, |coords|).1 then 1 else 0;
            && count == Min(share - 1, FIB_TOTAL) + home + patched
            && (count == share - 1 + home + patched <==> share <= FIB_TOTAL + 1)
            && (share - 1 <= count <= share + 1 <==> share <= FIB_TOTAL + 1 + home + patched)
  {
    ShareFits(coords, m);
    TakenIsCapped(FIB, share - 1, |FIB|);
    FibTotal();
    FinishedCount(coords, m, FIB, share - 1, m % |coords|, c);
  }
}
