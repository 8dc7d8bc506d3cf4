/** The two probing builders, RobustSimpleLookupTable and RobustFibLookupTable
    (internal/adapter/rlt/rlt.go).  Both put every backend on its home slot and then, turn by
    turn, on the next empty slot after the last one it took.  They differ only in the number of
    turns a backend wants in each round, so that number is a parameter here. */
module Probing {
  import opened Basics

  /** The table under construction and, per backend, the last slot it took. */
  datatype Probe = Probe(lup: map<nat, nat>, last: seq<nat>)

  /** Slots held by backend `j`. */
  ghost function Slots(lup: map<nat, nat>, j: nat): set<nat> {
    set k | k in lup && lup[k] == j
  }

  ghost predicate InTable(s: Probe, m: nat) {
    && (forall k :: k in s.lup ==> k < m)
    && (forall j :: 0 <= j < |s.last| ==> s.last[j] < m)
  }

  // --- the wrap-around search -----------------------------------------------------------------

  /** The slot `d` places after `start`, around the table. */
  function Around(start: nat, d: nat, m: nat): (k: nat)
    requires start <= m && d < m
    ensures k < m
  {
    var at := if start == m then 0 else start;
    if at + d < m then at + d else at + d - m
  }

  /** `k` is the first slot from `start` on, around the table, that is not taken. */
  ghost predicate FirstEmpty(lup: map<nat, nat>, start: nat, m: nat, k: nat)
    requires start <= m
  {
    exists d: nat :: EmptyAfter(lup, start, m, d, k)
  }

  /** It is `d` places after `start`. */
  ghost predicate EmptyAfter(lup: map<nat, nat>, start: nat, m: nat, d: nat, k: nat)
    requires start <= m
  {
    d < m && k == Around(start, d, m) && k !in lup && TakenBefore(lup, start, m, d)
  }

  ghost predicate TakenBefore(lup: map<nat, nat>, start: nat, m: nat, d: nat)
    requires start <= m && d <= m
  {
    forall e: nat :: e < d ==> Around(start, e, m) in lup
  }

  lemma FirstEmptyUnique(lup: map<nat, nat>, start: nat, m: nat, k: nat, k': nat)
    requires start <= m && FirstEmpty(lup, start, m, k) && FirstEmpty(lup, start, m, k')
    ensures k == k'
  {
    var d: nat :| EmptyAfter(lup, start, m, d, k);
    var d': nat :| EmptyAfter(lup, start, m, d', k');
    assert d == d';
  }

  /** Going around the whole table visits every slot. */
  lemma AllTaken(lup: map<nat, nat>, start: nat, m: nat)
    requires start <= m && TakenBefore(lup, start, m, m)
    ensures |lup| >= m
  {
    var at := if start == m then 0 else start;
    forall k: nat | k < m
      ensures k in lup
    {
      assert k == Around(start, if k >= at then k - at else k - at + m, m);
    }
    SubsetSize(Below(m), lup.Keys);
  }

  /** The search loop.  It ends because the table still has an empty slot. */
  method Search(lup: map<nat, nat>, start: nat, m: nat) returns (k: nat)
    requires start <= m && |lup| < m
    ensures FirstEmpty(lup, start, m, k)
  {
    k := start;
    ghost var d := 0;
    while true
      invariant d < m && TakenBefore(lup, start, m, d)
      invariant k <= m && (if k == m then 0 else k) == Around(start, d, m)
      decreases m - d
    {
      if k > m - 1 {
        k := 0;
      }
      if k !in lup {
        break;
      }
      k := k + 1;
      if d + 1 == m {
        AllTaken(lup, start, m);
      }
      d := d + 1;
    }
    assert EmptyAfter(lup, start, m, d, k);
  }

  lemma {:induction false} EmptyExists(lup: map<nat, nat>, start: nat, m: nat, d: nat)
    requires start <= m && |lup| < m && d <= m && TakenBefore(lup, start, m, d)
    ensures exists k :: FirstEmpty(lup, start, m, k)
    decreases m - d
  {
    if d == m {
      AllTaken(lup, start, m);
    } else if Around(start, d, m) in lup {
      EmptyExists(lup, start, m, d + 1);
    } else {
      assert EmptyAfter(lup, start, m, d, Around(start, d, m));
      assert FirstEmpty(lup, start, m, Around(start, d, m));
    }
  }

  // --- taking turns ---------------------------------------------------------------------------

  ghost function NextEmpty(lup: map<nat, nat>, start: nat, m: nat): (k: nat)
    requires start <= m && |lup| < m
    ensures FirstEmpty(lup, start, m, k)
  {
    EmptyExists(lup, start, m, 0);
    var k :| FirstEmpty(lup, start, m, k);
    k
  }

  ghost predicate HasRoom(s: Probe, j: nat, m: nat) {
    InTable(s, m) && j < |s.last| && |s.lup| < m
  }

  /** One turn of backend `j`.  Nothing happens without an empty slot. */
  ghost function Place(s: Probe, j: nat, m: nat): (r: Probe) {
    if HasRoom(s, j, m) then
      var k := NextEmpty(s.lup, s.last[j] + 1, m);
      Probe(s.lup[k := j], s.last[j := k])
    else s
  }

  /** Backend `j` takes slot `k`, the first empty one after the last slot it took. */
  ghost predicate Takes(s: Probe, r: Probe, j: nat, m: nat, k: nat) {
    && j < |s.last| && s.last[j] < m && FirstEmpty(s.lup, s.last[j] + 1, m, k)
    && r == Probe(s.lup[k := j], s.last[j := k])
  }

  /** Backend `j` takes `c` turns in a row. */
  ghost function Turns(s: Probe, j: nat, c: nat, m: nat): (r: Probe) {
    if c == 0 then s else Place(Turns(s, j, c - 1, m), j, m)
  }

  /** The first `n` backends take `c` turns each. */
  ghost function Round(s: Probe, n: nat, c: nat, m: nat): (r: Probe) {
    if n == 0 then s else Turns(Round(s, n - 1, c, m), n - 1, c, m)
  }

  function Min(a: nat, b: nat): nat {
    if a < b then a else b
  }

  /** Turns each backend has taken before round `i`, out of a quota of `q`, when it wants to take
      `wanted[0]`, `wanted[1]`, ... turns in the successive rounds. */
  function Taken(wanted: seq<nat>, q: nat, i: nat): (t: nat)
    requires i <= |wanted|
    ensures t <= q
  {
    if i == 0 then 0 else Taken(wanted, q, i - 1) + Min(wanted[i - 1], q - Taken(wanted, q, i - 1))
  }

  /** The placement before round `i`. */
  ghost function Rounds(s: Probe, wanted: seq<nat>, q: nat, i: nat, m: nat): (r: Probe)
    requires i <= |wanted|
  {
    if i == 0 then s
    else Round(Rounds(s, wanted, q, i - 1, m), |s.last|, Min(wanted[i - 1], q - Taken(wanted, q, i - 1)), m)
  }

  // --- every turn is a slot -------------------------------------------------------------------

  /** `r` has `c` more slots than `s`, and room was there for them. */
  ghost predicate Grown(s: Probe, r: Probe, m: nat, c: nat) {
    InTable(r, m) && |r.last| == |s.last| && |r.lup| == |s.lup| + c
  }

  lemma NewSlot(lup: map<nat, nat>, k: nat, i: nat, j: nat)
    requires k !in lup
    ensures |Slots(lup[k := i], j)| == |Slots(lup, j)| + if i == j then 1 else 0
  {
    assert Slots(lup[k := i], j) == Slots(lup, j) + if i == j then {k} else {};
  }

  lemma PlaceGrows(s: Probe, j: nat, m: nat, i: nat)
    requires HasRoom(s, j, m)
    ensures Grown(s, Place(s, j, m), m, 1)
    ensures |Slots(Place(s, j, m).lup, i)| == |Slots(s.lup, i)| + if i == j then 1 else 0
  {
    NewSlot(s.lup, NextEmpty(s.lup, s.last[j] + 1, m), j, i);
  }

  lemma {:induction false} TurnsFit(s: Probe, j: nat, c: nat, m: nat)
    requires InTable(s, m) && j < |s.last| && |s.lup| + c <= m
    ensures Grown(s, Turns(s, j, c, m), m, c)
  {
    if c > 0 {
      TurnsFit(s, j, c - 1, m);
      PlaceGrows(Turns(s, j, c - 1, m), j, m, 0);
    }
  }

  lemma {:induction false} TurnsGrow(s: Probe, j: nat, c: nat, m: nat, i: nat)
    requires InTable(s, m) && j < |s.last| && |s.lup| + c <= m
    ensures Grown(s, Turns(s, j, c, m), m, c)
    ensures |Slots(Turns(s, j, c, m).lup, i)| == |Slots(s.lup, i)| + if i == j then c else 0
  {
    TurnsFit(s, j, c, m);
    if c > 0 {
      TurnsGrow(s, j, c - 1, m, i);
      PlaceGrows(Turns(s, j, c - 1, m), j, m, i);
    }
  }

  lemma {:induction false} RoundGrows(s: Probe, n: nat, c: nat, m: nat, i: nat)
    requires InTable(s, m) && n <= |s.last| && |s.lup| + n * c <= m
    ensures Grown(s, Round(s, n, c, m), m, n * c)
    ensures |Slots(Round(s, n, c, m).lup, i)| == |Slots(s.lup, i)| + if i < n then c else 0
  {
    if n > 0 {
      assert n * c == (n - 1) * c + c;
      RoundGrows(s, n - 1, c, m, i);
      TurnsGrow(Round(s, n - 1, c, m), n - 1, c, m, i);
    }
  }

  /** Whatever numbers of turns are wanted, every backend has exactly one more slot for every turn
      it took, and nobody lost one. */
  lemma {:induction false} RoundsGrow(s: Probe, wanted: seq<nat>, q: nat, i: nat, m: nat, j: nat)
    requires i <= |wanted| && InTable(s, m) && |s.lup| + |s.last| * q <= m && j < |s.last|
    ensures Grown(s, Rounds(s, wanted, q, i, m), m, |s.last| * Taken(wanted, q, i))
    ensures |Slots(Rounds(s, wanted, q, i, m).lup, j)| == |Slots(s.lup, j)| + Taken(wanted, q, i)
  {
    if i > 0 {
      RoundsGrow(s, wanted, q, i - 1, m, j);
      var t, c := Taken(wanted, q, i - 1), Min(wanted[i - 1], q - Taken(wanted, q, i - 1));
      Distributes(|s.last|, t, c);
      MulMonotone(|s.last|, t + c, q);
      RoundGrows(Rounds(s, wanted, q, i - 1, m), |s.last|, c, m, j);
    }
  }

  // --- where the slots are --------------------------------------------------------------------

  /** The way from `home`, around the table, to the last slot of backend `j` is `d` slots long; all of it is
      taken, and every slot `j` got since `lup0` lies on it. */
  ghost predicate Arc(lup0: map<nat, nat>, s: Probe, j: nat, home: nat, m: nat, d: nat) {
    && home < m && d < m && j < |s.last| && s.last[j] == Around(home, d, m)
    && TakenBefore(s.lup, home, m, d + 1)
    && forall k :: k in s.lup && k !in lup0 && s.lup[k] == j ==> OnArc(home, m, d, k)
  }

  ghost predicate OnArc(home: nat, m: nat, d: nat, k: nat)
    requires home < m
  {
    exists e: nat :: e <= d && e < m && k == Around(home, e, m)
  }

  ghost predicate Compact(lup0: map<nat, nat>, s: Probe, homes: seq<nat>, m: nat) {
    && |s.last| == |homes|
    && forall j :: 0 <= j < |homes| ==> HasArc(lup0, s, j, homes[j], m)
  }

  ghost predicate HasArc(lup0: map<nat, nat>, s: Probe, j: nat, home: nat, m: nat) {
    exists d: nat :: Arc(lup0, s, j, home, m, d)
  }

  lemma AroundAround(home: nat, d: nat, e: nat, m: nat)
    requires home < m && d < m && e < m
    ensures Around(Around(home, d, m) + 1, e, m)
         == Around(home, if d + 1 + e < m then d + 1 + e else d + 1 + e - m, m)
  {
  }

  /** A turn takes the first empty slot from the home slot on, not only from the last slot on. */
  lemma TurnExtendsArc(lup0: map<nat, nat>, s: Probe, j: nat, home: nat, m: nat, d: nat, k: nat) returns (d': nat)
    requires HasRoom(s, j, m) && Arc(lup0, s, j, home, m, d) && FirstEmpty(s.lup, s.last[j] + 1, m, k)
    ensures d < d' < m && k == Around(home, d', m) && TakenBefore(s.lup, home, m, d')
    ensures FirstEmpty(s.lup, home, m, k)
  {
    var e: nat :| EmptyAfter(s.lup, s.last[j] + 1, m, e, k);
    AroundAround(home, d, e, m);
    assert d + 1 + e < m;
    d' := d + 1 + e;
    forall i: nat | i < d'
      ensures Around(home, i, m) in s.lup
    {
      if i > d {
        AroundAround(home, d, i - d - 1, m);
        assert Around(s.last[j] + 1, i - d - 1, m) in s.lup;
      }
    }
    assert EmptyAfter(s.lup, home, m, d', k);
  }

  lemma PlaceArc(lup0: map<nat, nat>, s: Probe, j: nat, i: nat, home: nat, m: nat, d: nat) returns (d': nat)
    requires HasRoom(s, j, m) && i < |s.last| && Arc(lup0, s, i, home, m, d)
    ensures Arc(lup0, Place(s, j, m), i, home, m, d')
  {
    var k, r := NextEmpty(s.lup, s.last[j] + 1, m), Place(s, j, m);
    d' := d;
    if i == j {
      d' := TurnExtendsArc(lup0, s, j, home, m, d, k);
    }
    assert TakenBefore(r.lup, home, m, d' + 1) by {
      assert forall e: nat :: e < d' + 1 ==> Around(home, e, m) in r.lup;
    }
    forall x | x in r.lup && x !in lup0 && r.lup[x] == i
      ensures OnArc(home, m, d', x)
    {
      if x != k {
        assert OnArc(home, m, d, x);
      }
    }
  }

  lemma PlaceCompact(lup0: map<nat, nat>, s: Probe, j: nat, homes: seq<nat>, m: nat)
    requires HasRoom(s, j, m) && Compact(lup0, s, homes, m)
    ensures Compact(lup0, Place(s, j, m), homes, m)
  {
    PlaceGrows(s, j, m, 0);
    forall i | 0 <= i < |homes|
      ensures HasArc(lup0, Place(s, j, m), i, homes[i], m)
    {
      assert HasArc(lup0, s, i, homes[i], m);
      var d: nat :| Arc(lup0, s, i, homes[i], m, d);
      var d' := PlaceArc(lup0, s, j, i, homes[i], m, d);
    }
  }

  lemma {:induction false} TurnsCompact(lup0: map<nat, nat>, s: Probe, j: nat, c: nat, homes: seq<nat>, m: nat)
    requires InTable(s, m) && j < |s.last| && |s.lup| + c <= m && Compact(lup0, s, homes, m)
    ensures Compact(lup0, Turns(s, j, c, m), homes, m)
  {
    if c > 0 {
      TurnsCompact(lup0, s, j, c - 1, homes, m);
      TurnsFit(s, j, c - 1, m);
      PlaceCompact(lup0, Turns(s, j, c - 1, m), j, homes, m);
    }
  }

  lemma {:induction false} RoundCompact(lup0: map<nat, nat>, s: Probe, n: nat, c: nat, homes: seq<nat>, m: nat)
    requires InTable(s, m) && n <= |s.last| && |s.lup| + n * c <= m && Compact(lup0, s, homes, m)
    ensures Compact(lup0, Round(s, n, c, m), homes, m)
  {
    if n > 0 {
      assert n * c == (n - 1) * c + c;
      RoundCompact(lup0, s, n - 1, c, homes, m);
      RoundGrows(s, n - 1, c, m, 0);
      TurnsCompact(lup0, Round(s, n - 1, c, m), n - 1, c, homes, m);
    }
  }

  /** Over the whole placement the slots of a backend lie between its home and the last slot it took, with no
      empty slot between. */
  lemma {:induction false} RoundsCompact(lup0: map<nat, nat>, s: Probe, wanted: seq<nat>, q: nat, i: nat,
                                         homes: seq<nat>, m: nat)
    requires i <= |wanted| && InTable(s, m) && |s.lup| + |s.last| * q <= m && s.last != []
    requires Compact(lup0, s, homes, m)
    ensures Compact(lup0, Rounds(s, wanted, q, i, m), homes, m)
  {
    if i > 0 {
      RoundsCompact(lup0, s, wanted, q, i - 1, homes, m);
      RoundsGrow(s, wanted, q, i - 1, m, 0);
      var t, c := Taken(wanted, q, i - 1), Min(wanted[i - 1], q - Taken(wanted, q, i - 1));
      SumFits(|s.last|, t, c, q);
      RoundCompact(lup0, Rounds(s, wanted, q, i - 1, m), |s.last|, c, homes, m);
    }
  }

  // --- home slots -----------------------------------------------------------------------------

  /** The table once the first `j` backends are on their home slots, a later one displacing an
      earlier one. */
  function Settle(homes: seq<nat>, j: nat): (lup: map<nat, nat>)
    requires j <= |homes|
    ensures |lup| <= j
    ensures forall k :: k in lup ==> lup[k] < j && homes[lup[k]] == k
  {
    if j == 0 then map[] else
      var lup := Settle(homes, j - 1);
      assert lup[homes[j - 1] := j - 1].Keys == lup.Keys + {homes[j - 1]};
      lup[homes[j - 1] := j - 1]
  }

  lemma {:induction false} LaterWins(homes: seq<nat>, j: nat, i: nat)
    requires i < j <= |homes|
    ensures homes[i] in Settle(homes, j) && i <= Settle(homes, j)[homes[i]]
  {
    if i < j - 1 {
      LaterWins(homes, j - 1, i);
    }
  }

  /** A later backend has the same home. */
  predicate Displaced(homes: seq<nat>, j: nat)
    requires j < |homes|
  {
    exists i :: j < i < |homes| && homes[i] == homes[j]
  }

  lemma HomeSlots(homes: seq<nat>, j: nat)
    requires j < |homes|
    ensures Slots(Settle(homes, |homes|), j) == if Displaced(homes, j) then {} else {homes[j]}
  {
    LaterWins(homes, |homes|, j);
    if Displaced(homes, j) {
      var i :| j < i < |homes| && homes[i] == homes[j];
      LaterWins(homes, |homes|, i);
    }
  }

  // --- patching holes and the output ----------------------------------------------------------

  /** The loop after the placement, once slots 0 to i - 1 have been looked at: empty ones go to
      backends 0, 1, ... until the counter passes rem - 1, a wrapping difference. */
  function Patch(lup: map<nat, nat>, rem: U32, i: nat): (r: (map<nat, nat>, nat))
    ensures r.1 <= i
  {
    if i == 0 then (lup, 0)
    else
      var (p, j) := Patch(lup, rem, i - 1);
      if j > Dec(rem) || i - 1 in p then (p, j) else (p[i - 1 := j], j + 1)
  }

  lemma {:induction false} PatchSlots(lup: map<nat, nat>, rem: U32, i: nat, c: nat)
    ensures |Slots(Patch(lup, rem, i).0, c)| == |Slots(lup, c)| + if c < Patch(lup, rem, i).1 then 1 else 0
  {
    if i > 0 {
      PatchSlots(lup, rem, i - 1, c);
      var (p, j) := Patch(lup, rem, i - 1);
      if !(j > Dec(rem) || i - 1 in p) {
        NewSlot(p, i - 1, j, c);
      }
    }
  }

  lemma {:induction false} PatchBelow(lup: map<nat, nat>, rem: U32, i: nat, m: nat)
    requires i <= m && forall k :: k in lup ==> k < m
    ensures forall k :: k in Patch(lup, rem, i).0 ==> k < m
  {
    if i > 0 {
      PatchBelow(lup, rem, i - 1, m);
    }
  }

  /** The number of empty slots before slot `i`. */
  function Holes(lup: map<nat, nat>, i: nat): nat {
    if i == 0 then 0 else Holes(lup, i - 1) + if i - 1 in lup then 0 else 1
  }

  lemma {:induction false} PatchCounts(lup: map<nat, nat>, rem: U32, i: nat)
    requires i < WIDTH
    ensures Patch(lup, rem, i).1 == if rem > 0 && Holes(lup, i) > rem then rem else Holes(lup, i)
    ensures forall k: nat :: k >= i ==> (k in Patch(lup, rem, i).0 <==> k in lup)
  {
    if i > 0 {
      PatchCounts(lup, rem, i - 1);
      HolesBelow(lup, i - 1);
      var (p, j) := Patch(lup, rem, i - 1);
      assert i - 1 in p <==> i - 1 in lup;
    }
  }

  lemma {:induction false} HolesBelow(lup: map<nat, nat>, i: nat)
    ensures Holes(lup, i) <= i
  {
    if i > 0 {
      HolesBelow(lup, i - 1);
    }
  }

  /** What the patching does to slot `k`: the r-th hole goes to backend `r`, as long as `r` is below the
      remainder; with a remainder of 0 the bound wraps around and every hole that is looked at is filled. */
  lemma {:induction false} PatchAt(lup: map<nat, nat>, rem: U32, i: nat, k: nat)
    requires i < WIDTH
    ensures var p, r := Patch(lup, rem, i).0, Holes(lup, k);
            if k in lup then k in p && p[k] == lup[k]
            else if k < i && (rem == 0 || r < rem) then k in p && p[k] == r
            else k !in p
  {
    if i > 0 {
      PatchAt(lup, rem, i - 1, k);
      PatchCounts(lup, rem, i - 1);
      HolesBelow(lup, i - 1);
    }
  }

  /** The table as a list; slots nobody took read as backend 0. */
  function Output(lup: map<nat, nat>, m: nat): (out: seq<nat>)
    ensures |out| == m
  {
    seq(m, k requires 0 <= k => if k in lup then lup[k] else 0)
  }

  lemma {:induction false} OutputCount(lup: map<nat, nat>, m: nat, c: nat)
    requires c > 0
    ensures multiset(Output(lup, m))[c] == |set k | k in Slots(lup, c) && k < m|
  {
    if m == 0 {
      assert (set k | k in Slots(lup, c) && k < m) == {};
    } else {
      OutputCount(lup, m - 1, c);
      assert Output(lup, m) == Output(lup, m - 1) + [Output(lup, m)[m - 1]];
      assert (set k | k in Slots(lup, c) && k < m)
          == (set k | k in Slots(lup, c) && k < m - 1) + if m - 1 in Slots(lup, c) then {m - 1} else {};
    }
  }
}
