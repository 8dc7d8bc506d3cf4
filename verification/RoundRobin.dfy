/** SimpleLookupTable and NaiveFibLookupTable (internal/adapter/rlt/rlt.go).  The second one is meant
    to hand out Fibonacci runs of slots, but it resets its Fibonacci index on every lap. */
module RoundRobin {
  import opened Basics
  import opened ProbingBuilders
  import opened ReverseTable
  import opened ReverseTableProperties

  /** The round-robin table; without backends there is only the zero value. */
  function Cyclic(n: U32, m: nat): (t: seq<nat>)
    ensures |t| == m
  {
    seq(m, i requires 0 <= i => if n == 0 then 0 else i % n)
  }

  /** With no backend the original divides by zero as soon as there is a slot. */
  method SimpleLookupTable(n: U32, m: U32) returns (out: seq<nat>)
    requires n > 0 || m == 0
    ensures out == Cyclic(n, m)
  {
    out := [];
    for i := 0 to m
      invariant out == Cyclic(n, i)
    {
      out := out + [i % n];
    }
  }

  // --- NaiveFibLookupTable --------------------------------------------------------------------

  /** The lap length: with no backend the cursor goes back to 0 at every step. */
  function Lap(n: U32): nat {
    if n == 0 then 1 else n
  }

  /** Decrements that bring the quota of a backend to zero; the quota itself is a machine word. */
  function Limit(n: U32, m: U32): nat {
    if n == 0 then WIDTH else m / n + 1
  }

  /** A Go map read: a missing key reads as zero. */
  function Get(d: map<nat, U32>, c: nat): U32 {
    if c in d then d[c] else 0
  }

  /** The quotas and the bans after `i` slots. */
  ghost predicate Visited(d: map<nat, U32>, banList: set<nat>, i: nat, lap: nat, limit: nat) {
    && (forall c :: 0 <= c < lap ==> Get(d, c) == (limit - DealtTo(i, lap, c)) % WIDTH)
    && (forall c :: c in banList ==> limit <= DealtTo(i, lap, c))
  }

  lemma {:induction false} DealtAtMost(p: nat, n: nat, c: nat)
    ensures DealtTo(p, n, c) <= p
  {
    if p > 0 {
      DealtAtMost(p - 1, n, c);
    }
  }

  /** Whenever the cursor comes back to backend 0, that backend has quota left. */
  lemma NotBannedAtLapEnd(i: nat, n: U32, m: U32)
    requires i <= m && Dealt(i, Lap(n)) == 0
    ensures DealtTo(i, Lap(n), 0) < Limit(n, m)
  {
    DealtAtMost(i, Lap(n), 0);
    if n > 0 {
      DealtFormula(i, n);
      DealtToFormula(i, n, 0);
      DivMonotone(i, m, n);
    }
  }

  /** One slot: the quota goes down and the backend is banned when it reads zero. */
  method VisitSlot(d: map<nat, U32>, banList: set<nat>, cur: nat, ghost i: nat, ghost lap: nat, ghost limit: nat)
    returns (d': map<nat, U32>, banList': set<nat>, spent: bool)
    requires lap > 0 && limit <= WIDTH && i + 1 < WIDTH && cur == Dealt(i, lap) && Visited(d, banList, i, lap, limit)
    ensures Visited(d', banList', i + 1, lap, limit)
  {
    d', banList' := d[cur := Dec(Get(d, cur))], banList;
    DealtAtMost(i + 1, lap, cur);
    assert forall c :: DealtTo(i + 1, lap, c) == DealtTo(i, lap, c) + if c == cur then 1 else 0;
    assert Get(d', cur) == (limit - DealtTo(i + 1, lap, cur)) % WIDTH;
    spent := d'[cur] < 1;
    if spent {
      assert limit == DealtTo(i + 1, lap, cur);
      banList' := banList + {cur};
    }
    forall c | 0 <= c < lap && c != cur
      ensures Get(d', c) == (limit - DealtTo(i + 1, lap, c)) % WIDTH
    {
      assert Get(d', c) == Get(d, c);
    }
  }

  /** The code after the label: on to the next backend, past the ones that are banned. */
  method NextEntry(cur0: nat, j0: nat, banList: set<nat>, n: U32, ghost i: nat, ghost m: U32)
    returns (cur: nat, k: nat, j: nat)
    requires j0 == 0 && cur0 == Dealt(i, Lap(n)) && i < m
    requires forall c :: c in banList ==> Limit(n, m) <= DealtTo(i + 1, Lap(n), c)
    ensures k == 0 && j == 0 && cur == Dealt(i + 1, Lap(n))
  {
    cur, j := cur0, j0;
    var again := true;
    while again
      invariant j == 0 && cur == if again then cur0 else Dealt(i + 1, Lap(n))
      decreases again
    {
      again := false;
      cur := cur + 1;
      if cur >= n {
        cur := 0;
        j := j + 1;
        if j < |FIB| - 1 {
          j := 0;
        }
        NotBannedAtLapEnd(i + 1, n, m);
        again := cur in banList;
      }
    }
    k := 0;
  }

  /** NaiveFibLookupTable returns the round-robin table. */
  method NaiveFibLookupTable(n: U32, m: U32) returns (out: seq<nat>)
    ensures out == Cyclic(n, m)
  {
    var distribution := Quotas(n, m);
    var j, k, currentEntry, banList: set<nat> := 0, 0, 0, {};
    out := [];
    for i := 0 to m
      invariant out == Cyclic(n, i)
      invariant j == 0 && k == 0 && currentEntry == Dealt(i, Lap(n))
      invariant Visited(distribution, banList, i, Lap(n), Limit(n, m))
    {
      CursorIsCyclic(i, n);
      out := out + [currentEntry];
      var spent;
      distribution, banList, spent := VisitSlot(distribution, banList, currentEntry, i, Lap(n), Limit(n, m));
      if !spent {
        k := k + 1;
        if k < FIB[j] {
          continue;
        }
      }
      currentEntry, k, j := NextEntry(currentEntry, j, banList, n, i, m);
    }
  }

  lemma CursorIsCyclic(i: nat, n: U32)
    ensures Dealt(i, Lap(n)) == if n == 0 then 0 else i % n
  {
    if n > 0 {
      DealtFormula(i, n);
    }
  }

  method Quotas(n: U32, m: U32) returns (d: map<nat, U32>)
    ensures Visited(d, {}, 0, Lap(n), Limit(n, m))
  {
    d := map[];
    for i := 0 to n
      invariant forall c :: c in d ==> 0 <= c < i
      invariant forall c :: 0 <= c < i ==> c in d && d[c] == (m / n + 1) % WIDTH
    {
      d := d[i := (m / n + 1) % WIDTH];
    }
  }
}
