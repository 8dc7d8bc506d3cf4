/** A table of RobustSimpleLookupTable worked out: two backends with first coordinates 3 and 5, seven slots. */
module ProbingExample {
  import opened Basics
  import opened Probing
  import opened ProbingBuilders

  lemma TurnIs(s: Probe, j: nat, m: nat, d: nat, k: nat, r: Probe)
    requires HasRoom(s, j, m) && d < m && k == Around(s.last[j] + 1, d, m) && k !in s.lup
    requires TakenBefore(s.lup, s.last[j] + 1, m, d) && r == Probe(s.lup[k := j], s.last[j := k])
    ensures Place(s, j, m) == r
  {
    assert EmptyAfter(s.lup, s.last[j] + 1, m, d, k);
    FirstEmptyUnique(s.lup, s.last[j] + 1, m, k, NextEmpty(s.lup, s.last[j] + 1, m));
  }

  lemma RoundOfTwo(s: Probe, m: nat, a: Probe, b: Probe)
    requires Place(s, 0, m) == a && Place(a, 1, m) == b
    ensures Round(s, 2, 1, m) == b
  {
    assert Turns(s, 0, 1, m) == a;
    assert Round(s, 1, 1, m) == a;
    assert Turns(a, 1, 1, m) == b;
  }

  lemma FirstRound(s: Probe, r: Probe, m: nat)
    requires m == 7 && s == Probe(map[3 := 0, 5 := 1], [3, 5])
    requires r == Probe(map[3 := 0, 5 := 1, 4 := 0, 6 := 1], [4, 6])
    ensures Round(s, 2, 1, m) == r
  {
    var a := Probe(map[3 := 0, 5 := 1, 4 := 0], [4, 5]);
    TurnIs(s, 0, m, 0, 4, a);
    TurnIs(a, 1, m, 0, 6, r);
    RoundOfTwo(s, m, a, r);
  }

  lemma ThirdTurn(s: Probe, a: Probe, m: nat)
    requires m == 7 && s == Probe(map[3 := 0, 5 := 1, 4 := 0, 6 := 1], [4, 6])
    requires a == Probe(map[3 := 0, 5 := 1, 4 := 0, 6 := 1, 0 := 0], [0, 6])
    ensures Place(s, 0, m) == a
  {
    assert |s.lup| == 4 by {
      assert s.lup.Keys == {3, 5, 4, 6};
    }
    TurnIs(s, 0, m, 2, 0, a);
  }

  lemma FourthTurn(a: Probe, r: Probe, m: nat)
    requires m == 7 && a == Probe(map[3 := 0, 5 := 1, 4 := 0, 6 := 1, 0 := 0], [0, 6])
    requires r == Probe(map[3 := 0, 5 := 1, 4 := 0, 6 := 1, 0 := 0, 1 := 1], [0, 1])
    ensures Place(a, 1, m) == r
  {
    assert |a.lup| == 5 by {
      assert a.lup.Keys == {3, 5, 4, 6, 0};
    }
    TurnIs(a, 1, m, 1, 1, r);
  }

  /** Both walk on around the end of the table. */
  lemma SecondRound(s: Probe, r: Probe, m: nat)
    requires m == 7 && s == Probe(map[3 := 0, 5 := 1, 4 := 0, 6 := 1], [4, 6])
    requires r == Probe(map[3 := 0, 5 := 1, 4 := 0, 6 := 1, 0 := 0, 1 := 1], [0, 1])
    ensures Round(s, 2, 1, m) == r
  {
    var a := Probe(map[3 := 0, 5 := 1, 4 := 0, 6 := 1, 0 := 0], [0, 6]);
    ThirdTurn(s, a, m);
    FourthTurn(a, r, m);
    RoundOfTwo(s, m, a, r);
  }

  lemma TwoRounds(s: Probe, a: Probe, b: Probe, wanted: seq<nat>, m: nat)
    requires |s.last| == 2 && wanted == Ones(2) && Round(s, 2, 1, m) == a && Round(a, 2, 1, m) == b
    ensures Rounds(s, wanted, 2, 3, m) == b
  {
    OnesTaken(2, 0);
    OnesTaken(2, 1);
    OnesTaken(2, 2);
    assert Rounds(s, wanted, 2, 0, m) == s;
    assert Rounds(s, wanted, 2, 1, m) == a;
    assert Rounds(s, wanted, 2, 2, m) == b;
    NoTurns(b, 2, m);
  }

  lemma HomesAre(coords: seq<U32>, m: U32)
    requires coords == [3, 5] && m == 7
    ensures Settled(coords, m) == Probe(map[3 := 0, 5 := 1], [3, 5])
  {
    var homes := Homes(coords, m);
    assert homes == [3, 5];
    assert Settle(homes, 1) == map[3 := 0];
    assert Settle(homes, 2) == map[3 := 0, 5 := 1];
  }

  /** The table: turns are taken in the order of the backends, each from the last slot on. */
  lemma SevenSlots(coords: seq<U32>, m: U32)
    requires coords == [3, 5] && m == 7
    ensures Finished(coords, m, Ones(m / |coords| - 1), m / |coords| - 1, m % |coords|) == [0, 1, 0, 0, 0, 1, 1]
  {
    var s, a := Settled(coords, m), Probe(map[3 := 0, 5 := 1, 4 := 0, 6 := 1], [4, 6]);
    var b := Probe(map[3 := 0, 5 := 1, 4 := 0, 6 := 1, 0 := 0, 1 := 1], [0, 1]);
    HomesAre(coords, m);
    FirstRound(s, a, m);
    SecondRound(a, b, m);
    TwoRounds(s, a, b, Ones(2), m);
    Written(b.lup, m);
  }

  lemma Written(lup: map<nat, nat>, m: U32)
    requires m == 7 && lup == map[3 := 0, 5 := 1, 4 := 0, 6 := 1, 0 := 0, 1 := 1]
    ensures Output(Patch(lup, 1, 2).0, m) == [0, 1, 0, 0, 0, 1, 1]
  {
    forall k: nat | k < m
      ensures k in Patch(lup, 1, 2).0 <==> k in lup
      ensures k in lup ==> Patch(lup, 1, 2).0[k] == lup[k]
    {
      PatchAt(lup, 1, 2, k);
    }
  }
}
