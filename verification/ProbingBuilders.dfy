/** The loops of the probing builders, proved against the rounds of module Probing. */
module ProbingBuilders {
  import opened Basics
  import opened Probing

  function Homes(coords: seq<U32>, m: U32): (homes: seq<nat>)
    requires m > 0
    ensures |homes| == |coords|
    ensures forall j :: 0 <= j < |homes| ==> homes[j] == coords[j] % m < m
  {
    seq(|coords|, j requires 0 <= j < |coords| => coords[j] % m)
  }

  /** Every backend on its home slot. */
  function Settled(coords: seq<U32>, m: U32): (s: Probe)
    requires m > 0
    ensures InTable(s, m) && |s.last| == |coords| && |s.lup| <= |coords|
  {
    var homes := Homes(coords, m);
    Probe(Settle(homes, |homes|), homes)
  }

  /** The table has room for `q` turns of every backend. */
  ghost predicate Roomy(s: Probe, q: nat, m: nat) {
    InTable(s, m) && |s.lup| + |s.last| * q <= m
  }

  lemma ShareFits(coords: seq<U32>, m: U32)
    requires 1 <= |coords| <= m
    ensures m / |coords| >= 1 && Roomy(Settled(coords, m), m / |coords| - 1, m)
  {
    var n, share := |coords|, m / |coords|;
    assert n * share <= m;
    Distributes(n, 1, share - 1);
  }

  // --- shared loops ---------------------------------------------------------------------------

  /** One turn: search from the slot after the last one, then take the slot found. */
  method TakeTurn(lup: map<nat, nat>, M: seq<nat>, j: nat, m: nat) returns (lup': map<nat, nat>, M': seq<nat>)
    requires HasRoom(Probe(lup, M), j, m)
    ensures exists k: nat :: Takes(Probe(lup, M), Probe(lup', M'), j, m, k)
    ensures Probe(lup', M') == Place(Probe(lup, M), j, m)
  {
    var k := Search(lup, M[j] + 1, m);
    FirstEmptyUnique(lup, M[j] + 1, m, k, NextEmpty(lup, M[j] + 1, m));
    lup', M' := lup[k := j], M[j := k];
    assert Takes(Probe(lup, M), Probe(lup', M'), j, m, k);
  }

  ghost predicate AllHave(distribution: map<nat, U32>, lo: nat, hi: nat, quota: int) {
    forall j :: lo <= j < hi ==> j in distribution && distribution[j] == quota
  }

  /** The first `j` of the `n` backends are down from `before` to `after`. */
  ghost predicate Spending(d: map<nat, U32>, j: nat, n: nat, before: int, after: int) {
    AllHave(d, 0, j, after) && AllHave(d, j, n, before)
  }

  lemma Spend(d: map<nat, U32>, j: nat, n: nat, before: int, after: U32)
    requires j < n && Spending(d, j, n, before, after)
    ensures Spending(d[j := after], j + 1, n, before, after)
  {
  }

  method Distribute(n: nat, share: U32) returns (distribution: map<nat, U32>)
    ensures AllHave(distribution, 0, n, share)
  {
    distribution := map[];
    for j := 0 to n
      invariant AllHave(distribution, 0, j, share)
    {
      distribution := distribution[j := share];
    }
  }

  /** The first `j` backends are on their home slots. */
  ghost predicate Settling(lup: map<nat, nat>, M: seq<nat>, homes: seq<nat>, j: nat)
    requires j <= |homes|
  {
    M == homes[..j] && lup == Settle(homes, j)
  }

  lemma SettleNext(lup: map<nat, nat>, M: seq<nat>, homes: seq<nat>, j: nat)
    requires j < |homes| && Settling(lup, M, homes, j)
    ensures Settling(lup[homes[j] := j], M + [homes[j]], homes, j + 1)
  {
    assert homes[..j + 1] == homes[..j] + [homes[j]];
  }

  method SettleOne(c: U32, m: U32, lup: map<nat, nat>, M: seq<nat>, j: nat, ghost homes: seq<nat>)
    returns (lup': map<nat, nat>, M': seq<nat>)
    requires m > 0 && j < |homes| && homes[j] == c % m && Settling(lup, M, homes, j)
    ensures Settling(lup', M', homes, j + 1)
  {
    var mod := c % m;
    SettleNext(lup, M, homes, j);
    lup', M' := lup[mod := j], M + [mod];
  }

  /** The loop that puts every backend on its home slot. */
  method SettleAll(coords: seq<U32>, m: U32, share: U32, distribution0: map<nat, U32>, ghost homes: seq<nat>)
    returns (lup: map<nat, nat>, M: seq<nat>, distribution: map<nat, U32>)
    requires m > 0 && share > 0 && AllHave(distribution0, 0, |coords|, share) && homes == Homes(coords, m)
    ensures Settling(lup, M, homes, |homes|)
    ensures AllHave(distribution, 0, |coords|, share - 1)
  {
    lup, distribution, M := map[], distribution0, [];
    for j := 0 to |coords|
      invariant Settling(lup, M, homes, j)
      invariant Spending(distribution, j, |coords|, share, share - 1)
    {
      lup, M := SettleOne(coords[j], m, lup, M, j, homes);
      Spend(distribution, j, |coords|, share, share - 1);
      distribution := distribution[j := Dec(distribution[j])];
    }
  }

  /** `lup` and `M` are where `s` gets once the first `j` backends have taken `c` turns each. */
  ghost predicate Turned(lup: map<nat, nat>, M: seq<nat>, s: Probe, m: nat, j: nat, c: nat) {
    Probe(lup, M) == Round(s, j, c, m) && Grown(s, Probe(lup, M), m, j * c)
  }

  lemma TurnedNext(lup: map<nat, nat>, M: seq<nat>, s: Probe, m: nat, j: nat, c: nat)
    requires Turned(lup, M, s, m, j, c) && j < |s.last| && Roomy(s, c, m)
    ensures InTable(Probe(lup, M), m) && |M| == |s.last| && |lup| + c <= m
    ensures var r := Turns(Probe(lup, M), j, c, m); Turned(r.lup, r.last, s, m, j + 1, c)
  {
    NextMultiple(j, |s.last|, c);
    TurnsFit(Probe(lup, M), j, c, m);
  }

  /** The loop variables before round `i`. */
  ghost predicate BeforeRound(lup: map<nat, nat>, M: seq<nat>, distribution: map<nat, U32>,
                              s: Probe, m: nat, wanted: seq<nat>, q: nat, i: nat)
    requires i <= |wanted|
  {
    && Probe(lup, M) == Rounds(s, wanted, q, i, m)
    && Grown(s, Probe(lup, M), m, |s.last| * Taken(wanted, q, i))
    && AllHave(distribution, 0, |s.last|, q - Taken(wanted, q, i))
  }

  /** After `t` turns of everybody there is room for `c` more. */
  lemma RoundReady(lup: map<nat, nat>, M: seq<nat>, s: Probe, m: nat, q: nat, t: nat, c: nat)
    requires Roomy(s, q, m) && Grown(s, Probe(lup, M), m, |s.last| * t) && t + c <= q
    ensures Roomy(Probe(lup, M), c, m) && |M| == |s.last|
  {
    RoomLeft(|s.last|, t, c, q, |s.lup|, |lup|, m);
  }

  lemma RoomLeft(n: nat, t: nat, c: nat, q: nat, before: nat, now: nat, m: nat)
    requires t + c <= q && now == before + n * t && before + n * q <= m
    ensures now + n * c <= m
  {
    SumFits(n, t, c, q);
  }

  lemma FirstRoundReady(lup: map<nat, nat>, M: seq<nat>, distribution: map<nat, U32>,
                        coords: seq<U32>, m: U32, wanted: seq<nat>, q: nat)
    requires m > 0 && Settling(lup, M, Homes(coords, m), |coords|) && AllHave(distribution, 0, |coords|, q)
    ensures BeforeRound(lup, M, distribution, Settled(coords, m), m, wanted, q, 0)
  {
    var homes := Homes(coords, m);
    assert homes[..|homes|] == homes;
  }

  /** Everything before the placement loop. */
  method Prepare(coords: seq<U32>, m: U32, share: U32, ghost wanted: seq<nat>)
    returns (lup: map<nat, nat>, M: seq<nat>, distribution: map<nat, U32>)
    requires m > 0 && share > 0
    ensures BeforeRound(lup, M, distribution, Settled(coords, m), m, wanted, share - 1, 0)
  {
    distribution := Distribute(|coords|, share);
    lup, M, distribution := SettleAll(coords, m, share, distribution, Homes(coords, m));
    FirstRoundReady(lup, M, distribution, coords, m, wanted, share - 1);
  }

  lemma RoundDone(lup: map<nat, nat>, M: seq<nat>, lup': map<nat, nat>, M': seq<nat>, distribution': map<nat, U32>,
                  s: Probe, m: nat, wanted: seq<nat>, q: nat, i: nat, c: nat)
    requires i < |wanted| && c == Min(wanted[i], q - Taken(wanted, q, i))
    requires Probe(lup, M) == Rounds(s, wanted, q, i, m) && Grown(s, Probe(lup, M), m, |s.last| * Taken(wanted, q, i))
    requires Turned(lup', M', Probe(lup, M), m, |s.last|, c)
    requires AllHave(distribution', 0, |s.last|, q - Taken(wanted, q, i) - c)
    ensures BeforeRound(lup', M', distribution', s, m, wanted, q, i + 1)
  {
    Distributes(|s.last|, Taken(wanted, q, i), c);
  }

  lemma {:induction false} PatchStops(lup: map<nat, nat>, rem: U32, i: nat, n: nat)
    requires i <= n && Patch(lup, rem, i).1 > Dec(rem)
    ensures Patch(lup, rem, n) == Patch(lup, rem, i)
  {
    if i < n {
      PatchStops(lup, rem, i, n - 1);
    }
  }

  /** The loop that fills the remaining fields. */
  method PatchHoles(lup0: map<nat, nat>, rem: U32, n: nat) returns (lup: map<nat, nat>)
    ensures lup == Patch(lup0, rem, n).0
  {
    lup := lup0;
    var j := 0;
    for i := 0 to n
      invariant (lup, j) == Patch(lup0, rem, i)
    {
      if j > Dec(rem) {
        PatchStops(lup0, rem, i, n);
        return;
      }
      if i in lup {
        continue;
      }
      lup := lup[i := j];
      j := j + 1;
    }
  }

  /** The loop that makes a list of the table, over the map in any order. */
  method WriteOutput(lup: map<nat, nat>, m: nat) returns (out: seq<nat>)
    requires forall k :: k in lup ==> k < m
    ensures out == Output(lup, m)
  {
    out := seq(m, _ => 0);
    var rest := lup.Keys;
    while rest != {}
      invariant |out| == m && rest <= lup.Keys
      invariant forall k :: 0 <= k < m ==> out[k] == if k in lup && k !in rest then lup[k] else 0
      decreases |rest|
    {
      var k :| k in rest;
      out := out[k := lup[k]];
      rest := rest - {k};
    }
  }

  /** Everything after the placement loop. */
  method Finish(placed: map<nat, nat>, rem: U32, n: nat, m: nat) returns (out: seq<nat>)
    requires n <= m && forall k :: k in placed ==> k < m
    ensures out == Output(Patch(placed, rem, n).0, m)
  {
    PatchBelow(placed, rem, n, m);
    var lup := PatchHoles(placed, rem, n);
    out := WriteOutput(lup, m);
  }

  lemma PlacedInTable(s: Probe, wanted: seq<nat>, q: nat, m: nat)
    requires s.last != [] && Roomy(s, q, m)
    ensures InTable(Rounds(s, wanted, q, |wanted|, m), m)
  {
    RoundsGrow(s, wanted, q, |wanted|, m, 0);
  }

  // --- RobustSimpleLookupTable ----------------------------------------------------------------

  /** One backend in one pass. */
  method SimpleTurn(lup: map<nat, nat>, M: seq<nat>, distribution: map<nat, U32>, banned: set<nat>, j: nat, m: nat,
                    ghost c: nat)
    returns (lup': map<nat, nat>, M': seq<nat>, distribution': map<nat, U32>, banned': set<nat>)
    requires j < |M| && InTable(Probe(lup, M), m) && j in distribution
    requires c == Min(1, distribution[j]) && |lup| + c <= m
    ensures Probe(lup', M') == Turns(Probe(lup, M), j, c, m)
    ensures distribution' == distribution[j := distribution[j] - c]
    ensures banned' == if c == 1 then banned else banned + {j}
  {
    if distribution[j] < 1 {
      return lup, M, distribution, banned + {j};
    }
    lup', M' := TakeTurn(lup, M, j, m);
    distribution', banned' := distribution[j := Dec(distribution[j])], banned;
    assert Turns(Probe(lup, M), j, 0, m) == Probe(lup, M);
  }

  /** The loop variables of a pass before backend `j`. */
  ghost predicate InPass(lup: map<nat, nat>, M: seq<nat>, distribution: map<nat, U32>, banned: set<nat>,
                         s: Probe, m: nat, quota: int, c: nat, j: nat) {
    && Spending(distribution, j, |s.last|, quota, quota - c) && Turned(lup, M, s, m, j, c)
    && banned == if c == 1 then {} else Below(j)
  }

  /** Backend `j` in its pass. */
  method PassTurn(lup: map<nat, nat>, M: seq<nat>, distribution: map<nat, U32>, banned: set<nat>, j: nat, m: nat,
                  ghost s: Probe, ghost quota: U32, ghost c: nat)
    returns (lup': map<nat, nat>, M': seq<nat>, distribution': map<nat, U32>, banned': set<nat>)
    requires j < |s.last| && c == Min(1, quota) && Roomy(s, c, m)
    requires InPass(lup, M, distribution, banned, s, m, quota, c, j)
    ensures InPass(lup', M', distribution', banned', s, m, quota, c, j + 1)
  {
    TurnedNext(lup, M, s, m, j, c);
    Spend(distribution, j, |s.last|, quota, quota - c);
    lup', M', distribution', banned' := SimpleTurn(lup, M, distribution, banned, j, m, c);
    BelowNext(j);
  }

  /** One pass, all backends having the same quota left. */
  method Pass(lup0: map<nat, nat>, M0: seq<nat>, distribution0: map<nat, U32>, banned0: set<nat>,
              m: nat, ghost quota: U32, ghost c: nat)
    returns (lup: map<nat, nat>, M: seq<nat>, distribution: map<nat, U32>, banned: set<nat>)
    requires c == Min(1, quota) && Spending(distribution0, 0, |M0|, quota, quota - c)
    requires Roomy(Probe(lup0, M0), c, m) && banned0 == {}
    ensures Spending(distribution, |M0|, |M0|, quota, quota - c)
    ensures Turned(lup, M, Probe(lup0, M0), m, |M0|, c)
    ensures banned == if c == 1 then {} else Below(|M0|)
  {
    lup, M, distribution, banned := lup0, M0, distribution0, banned0;
    ghost var s := Probe(lup0, M0);
    for j := 0 to |M0|
      invariant InPass(lup, M, distribution, banned, s, m, quota, c, j)
    {
      lup, M, distribution, banned := PassTurn(lup, M, distribution, banned, j, m, s, quota, c);
    }
  }

  /** One turn per pass, and a last pass in which nobody has quota left. */
  function Ones(q: nat): (wanted: seq<nat>)
    ensures |wanted| == q + 1 && forall i :: 0 <= i <= q ==> wanted[i] == 1
  {
    seq(q + 1, _ => 1)
  }

  lemma {:induction false} OnesTaken(q: nat, i: nat)
    requires i <= q + 1
    ensures Taken(Ones(q), q, i) == Min(i, q)
  {
    if i > 0 {
      OnesTaken(q, i - 1);
    }
  }

  lemma PassReady(lup: map<nat, nat>, M: seq<nat>, distribution: map<nat, U32>, s: Probe, m: nat, q: U32, t: nat, c: nat)
    requires t <= q && Roomy(s, q, m) && c == Min(1, q - t)
    requires BeforeRound(lup, M, distribution, s, m, Ones(q), q, t)
    ensures Roomy(Probe(lup, M), c, m) && |M| == |s.last| && Taken(Ones(q), q, t) == t
    ensures Spending(distribution, 0, |M|, q - t, q - t - c)
  {
    OnesTaken(q, t);
    RoundReady(lup, M, s, m, q, t, c);
  }

  method NumberedPass(lup0: map<nat, nat>, M0: seq<nat>, distribution0: map<nat, U32>, banned0: set<nat>, m: nat,
                      ghost s: Probe, ghost q: U32, ghost t: nat)
    returns (lup: map<nat, nat>, M: seq<nat>, distribution: map<nat, U32>, banned: set<nat>)
    requires t <= q && Roomy(s, q, m) && banned0 == {}
    requires BeforeRound(lup0, M0, distribution0, s, m, Ones(q), q, t)
    ensures BeforeRound(lup, M, distribution, s, m, Ones(q), q, t + 1)
    ensures banned == if t < q then {} else Below(|s.last|)
  {
    ghost var c := Min(1, q - t);
    PassReady(lup0, M0, distribution0, s, m, q, t, c);
    lup, M, distribution, banned := Pass(lup0, M0, distribution0, banned0, m, q - t, c);
    RoundDone(lup0, M0, lup, M, distribution, s, m, Ones(q), q, t, c);
  }

  /** The placement loop: pass after pass until everybody is banned. */
  method PlaceSimple(lup0: map<nat, nat>, M0: seq<nat>, distribution0: map<nat, U32>, n: nat, m: nat,
                     ghost s: Probe, ghost q: U32)
    returns (lup: map<nat, nat>)
    requires n == |s.last| > 0 && Roomy(s, q, m)
    requires BeforeRound(lup0, M0, distribution0, s, m, Ones(q), q, 0)
    ensures lup == Rounds(s, Ones(q), q, q + 1, m).lup
  {
    var M, distribution, banned: set<nat> := M0, distribution0, {};
    lup := lup0;
    ghost var t := 0;
    while |banned| != n
      invariant t <= q + 1 && BeforeRound(lup, M, distribution, s, m, Ones(q), q, t)
      invariant banned == if t <= q then {} else Below(n)
      decreases q + 1 - t
    {
      lup, M, distribution, banned := NumberedPass(lup, M, distribution, banned, m, s, q, t);
      t := t + 1;
    }
  }

  /** The finished table, when backends want the given numbers of turns out of a quota of `q`. */
  ghost function Finished(coords: seq<U32>, m: U32, wanted: seq<nat>, q: nat, rem: U32): (out: seq<nat>)
    requires m > 0
    ensures |out| == m
  {
    Output(Patch(Rounds(Settled(coords, m), wanted, q, |wanted|, m).lup, rem, |coords|).0, m)
  }

  /** RobustSimpleLookupTable once the share and the remainder are computed. */
  method BuildSimple(coords: seq<U32>, m: U32, share: U32, rem: U32) returns (out: seq<nat>)
    requires 0 < |coords| <= m && share > 0 && Roomy(Settled(coords, m), share - 1, m)
    ensures out == Finished(coords, m, Ones(share - 1), share - 1, rem)
  {
    var lup, M, distribution := Prepare(coords, m, share, Ones(share - 1));
    lup := PlaceSimple(lup, M, distribution, |coords|, m, Settled(coords, m), share - 1);
    PlacedInTable(Settled(coords, m), Ones(share - 1), share - 1, m);
    out := Finish(lup, rem, |coords|, m);
  }

  /** RobustSimpleLookupTable.  With no backend or no slot the original divides by zero, and with
      more backends than slots its search never ends. */
  method RobustSimpleLookupTable(coords: seq<U32>, m: U32) returns (out: seq<nat>)
    requires 1 <= |coords| <= m
    ensures m / |coords| >= 1
    ensures out == Finished(coords, m, Ones(m / |coords| - 1), m / |coords| - 1, m % |coords|)
  {
    ShareFits(coords, m);
    out := BuildSimple(coords, m, m / |coords|, m % |coords|);
  }

  // --- RobustFibLookupTable -------------------------------------------------------------------

  const FIB: seq<nat> := [
    1, 1, 2, 3, 5, 8, 13, 21, 34, 55, 89, 144, 233, 377, 610, 987, 1587, 2584, 4181]

  /** The loop that gives backend `j` up to `f` turns, and bans it if its quota runs out first. */
  method Chunk(lup0: map<nat, nat>, M0: seq<nat>, quota: U32, banned0: set<nat>, j: nat, f: nat, m: nat, ghost c: nat)
    returns (lup: map<nat, nat>, M: seq<nat>, left: U32, banned: set<nat>)
    requires j < |M0| && InTable(Probe(lup0, M0), m) && c == Min(f, quota) && |lup0| + c <= m
    ensures Probe(lup, M) == Turns(Probe(lup0, M0), j, c, m)
    ensures left == quota - c
    ensures banned == if quota < f then banned0 + {j} else banned0
  {
    lup, M, left, banned := lup0, M0, quota, banned0;
    for t := 0 to f
      invariant t <= c && left == quota - t && banned == banned0
      invariant Probe(lup, M) == Turns(Probe(lup0, M0), j, t, m)
    {
      if left < 1 {
        banned := banned + {j};
        return;
      }
      TurnsGrow(Probe(lup0, M0), j, t, m, 0);
      lup, M := TakeTurn(lup, M, j, m);
      left := Dec(left);
    }
  }

  /** One backend in one round. */
  method FibTurn(lup: map<nat, nat>, M: seq<nat>, distribution: map<nat, U32>, banned: set<nat>, j: nat, f: nat, m: nat,
                 ghost c: nat)
    returns (lup': map<nat, nat>, M': seq<nat>, distribution': map<nat, U32>, banned': set<nat>)
    requires j < |M| && InTable(Probe(lup, M), m) && j in distribution
    requires c == Min(f, distribution[j]) && |lup| + c <= m
    ensures Probe(lup', M') == Turns(Probe(lup, M), j, c, m)
    ensures distribution' == distribution[j := distribution[j] - c]
    ensures banned' == if 0 < distribution[j] < f then banned + {j} else banned
  {
    if distribution[j] < 1 {
      return lup, M, distribution, banned;
    }
    var left;
    lup', M', left, banned' := Chunk(lup, M, distribution[j], banned, j, f, m, c);
    distribution' := distribution[j := left];
  }

  /** One round: every backend takes its turns, unless everybody is banned already. */
  method FibRound(lup0: map<nat, nat>, M0: seq<nat>, distribution0: map<nat, U32>, banned0: set<nat>, f: nat, m: nat,
                  ghost quota: U32, ghost c: nat)
    returns (lup: map<nat, nat>, M: seq<nat>, distribution: map<nat, U32>, banned: set<nat>, exit: bool)
    requires c == Min(f, quota) && Spending(distribution0, 0, |M0|, quota, quota - c) && |M0| > 0
    requires Roomy(Probe(lup0, M0), c, m)
    requires banned0 == {} || (banned0 == Below(|M0|) && quota == 0)
    ensures exit ==> quota == 0
    ensures Spending(distribution, |M0|, |M0|, quota, quota - c)
    ensures Turned(lup, M, Probe(lup0, M0), m, |M0|, c)
    ensures banned == if 0 < quota < f then Below(|M0|) else banned0
  {
    lup, M, distribution, banned, exit := lup0, M0, distribution0, banned0, false;
    for j := 0 to |M0|
      invariant Spending(distribution, j, |M0|, quota, quota - c)
      invariant Turned(lup, M, Probe(lup0, M0), m, j, c)
      invariant banned == if 0 < quota < f then Below(j) else banned0
    {
      if |banned| == |M0| {
        NoTurns(Probe(lup0, M0), j, m);
        NoTurns(Probe(lup0, M0), |M0|, m);
        exit := true;
        return;
      }
      TurnedNext(lup, M, Probe(lup0, M0), m, j, c);
      Spend(distribution, j, |M0|, quota, quota - c);
      lup, M, distribution, banned := FibTurn(lup, M, distribution, banned, j, f, m, c);
    }
  }

  lemma {:induction false} NoTurns(s: Probe, n: nat, m: nat)
    ensures Round(s, n, 0, m) == s
  {
    if n > 0 {
      NoTurns(s, n - 1, m);
    }
  }

  method NumberedRound(lup0: map<nat, nat>, M0: seq<nat>, distribution0: map<nat, U32>, banned0: set<nat>,
                       wanted: seq<nat>, i: nat, m: nat, ghost s: Probe, ghost q: U32)
    returns (lup: map<nat, nat>, M: seq<nat>, distribution: map<nat, U32>, banned: set<nat>, exit: bool)
    requires |s.last| > 0 && i < |wanted| && Roomy(s, q, m)
    requires BeforeRound(lup0, M0, distribution0, s, m, wanted, q, i)
    requires banned0 == {} || (banned0 == Below(|s.last|) && Taken(wanted, q, i) == q)
    ensures BeforeRound(lup, M, distribution, s, m, wanted, q, i + 1)
    ensures banned == {} || (banned == Below(|s.last|) && Taken(wanted, q, i + 1) == q)
    ensures exit ==> Taken(wanted, q, i + 1) == q
  {
    ghost var quota: U32 := q - Taken(wanted, q, i);
    ghost var c := Min(wanted[i], quota);
    RoundReady(lup0, M0, s, m, q, Taken(wanted, q, i), c);
    lup, M, distribution, banned, exit := FibRound(lup0, M0, distribution0, banned0, wanted[i], m, quota, c);
    RoundDone(lup0, M0, lup, M, distribution, s, m, wanted, q, i, c);
  }

  /** Rounds without turns change nothing. */
  lemma {:induction false} IdleRounds(s: Probe, wanted: seq<nat>, q: nat, i: nat, k: nat, m: nat)
    requires i <= k <= |wanted| && Taken(wanted, q, i) == q
    ensures Taken(wanted, q, k) == q && Rounds(s, wanted, q, k, m) == Rounds(s, wanted, q, i, m)
  {
    if i < k {
      IdleRounds(s, wanted, q, i, k - 1, m);
      NoTurns(Rounds(s, wanted, q, k - 1, m), |s.last|, m);
    }
  }

  /** The placement loops. */
  method PlaceFib(wanted: seq<nat>, lup0: map<nat, nat>, M0: seq<nat>, distribution0: map<nat, U32>, m: nat,
                  ghost s: Probe, ghost q: U32)
    returns (lup: map<nat, nat>)
    requires |s.last| > 0 && Roomy(s, q, m) && BeforeRound(lup0, M0, distribution0, s, m, wanted, q, 0)
    ensures lup == Rounds(s, wanted, q, |wanted|, m).lup
  {
    var M, distribution, banned: set<nat> := M0, distribution0, {};
    lup := lup0;
    for i := 0 to |wanted|
      invariant BeforeRound(lup, M, distribution, s, m, wanted, q, i)
      invariant banned == {} || (banned == Below(|s.last|) && Taken(wanted, q, i) == q)
    {
      var exit;
      lup, M, distribution, banned, exit := NumberedRound(lup, M, distribution, banned, wanted, i, m, s, q);
      if exit {
        IdleRounds(s, wanted, q, i + 1, |wanted|, m);
        return;
      }
    }
  }

  /** Everything up to the end of the placement loops. */
  method PlaceWith(wanted: seq<nat>, coords: seq<U32>, m: U32, share: U32) returns (lup: map<nat, nat>)
    requires 0 < |coords| <= m && share > 0 && Roomy(Settled(coords, m), share - 1, m)
    ensures lup == Rounds(Settled(coords, m), wanted, share - 1, |wanted|, m).lup
    ensures forall k :: k in lup ==> k < m
  {
    var lup0, M, distribution := Prepare(coords, m, share, wanted);
    ghost var s := Settled(coords, m);
    lup := PlaceFib(wanted, lup0, M, distribution, m, s, share - 1);
    PlacedInTable(s, wanted, share - 1, m);
  }

  /** The builder for any list of turn counts. */
  method BuildWith(wanted: seq<nat>, coords: seq<U32>, m: U32, share: U32, rem: U32) returns (out: seq<nat>)
    requires 0 < |coords| <= m && share > 0 && Roomy(Settled(coords, m), share - 1, m)
    ensures out == Finished(coords, m, wanted, share - 1, rem)
  {
    var lup := PlaceWith(wanted, coords, m, share);
    out := Finish(lup, rem, |coords|, m);
  }

  /** RobustFibLookupTable, on the inputs on which the original neither divides by zero nor searches
      a full table. */
  method RobustFibLookupTable(coords: seq<U32>, m: U32) returns (out: seq<nat>)
    requires 1 <= |coords| <= m
    ensures m / |coords| >= 1
    ensures out == Finished(coords, m, FIB, m / |coords| - 1, m % |coords|)
  {
    ShareFits(coords, m);
    out := BuildWith(FIB, coords, m, m / |coords|, m % |coords|);
  }
}
