/** Machine words, optional values, and division facts the verifier does not find unaided. */
module Basics {

  const WIDTH := 0x1_0000_0000
  type U32 = x: int | 0 <= x < WIDTH

  datatype Option<+T> = None | Some(value: T)

  /** Decrement of a Go uint32. */
  function Dec(x: U32): (r: U32) {
    if x == 0 then WIDTH - 1 else x - 1
  }

  lemma DivModUnique(a: nat, n: nat, q: nat, r: nat)
    requires r < n && a == q * n + r
    ensures a / n == q && a % n == r
  {
    var d := a / n - q;
    assert d * n == r - a % n;
    assert d >= 1 ==> d * n >= n;
    assert d <= -1 ==> d * n <= 0 - n;
  }

  lemma Distributes(n: nat, a: nat, b: nat)
    ensures n * (a + b) == n * a + n * b
  {
  }

  lemma MulMonotone(n: nat, a: nat, b: nat)
    requires a <= b
    ensures n * a <= n * b
  {
  }

  lemma DivMonotone(a: nat, b: nat, n: nat)
    requires a <= b && n > 0
    ensures a / n <= b / n
  {
    var d := a / n - b / n;
    assert d * n == a - a % n - (b - b % n);
    assert d >= 1 ==> d * n >= n;
  }

  lemma SumFits(n: nat, a: nat, b: nat, q: nat)
    requires a + b <= q
    ensures n * a + n * b <= n * q
  {
    Distributes(n, a, b);
    MulMonotone(n, a + b, q);
  }

  lemma NextMultiple(j: nat, n: nat, c: nat)
    requires j < n
    ensures j * c + c == (j + 1) * c <= n * c
  {
    Distributes(c, j, 1);
    MulMonotone(c, j + 1, n);
  }

  /** Stepping a counter modulo n. */
  lemma ModStep(p: nat, n: nat)
    requires n > 0
    ensures (p + 1) % n == if p % n + 1 == n then 0 else p % n + 1
    ensures (p + 1) / n == if p % n + 1 == n then p / n + 1 else p / n
  {
    var q, r := p / n, p % n;
    if r + 1 == n {
      assert p + 1 == (q + 1) * n + 0;
      DivModUnique(p + 1, n, q + 1, 0);
    } else {
      DivModUnique(p + 1, n, q, r + 1);
    }
  }

  /** The naturals below m. */
  function Below(m: nat): (r: set<nat>)
    ensures forall k :: k in r <==> 0 <= k < m
    ensures |r| == m
  {
    if m == 0 then {} else Below(m - 1) + {m - 1}
  }

  lemma BelowNext(j: nat)
    ensures Below(j + 1) == Below(j) + {j}
  {
  }

  lemma {:induction false} SubsetSize<T>(a: set<T>, b: set<T>)
    requires a <= b
    ensures |a| <= |b|
  {
    if a != {} {
      var x :| x in a;
      SubsetSize(a - {x}, b - {x});
    }
  }
}
