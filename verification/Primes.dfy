/** The two lists of primes in the source hold primes. */
module Primes {
  import opened Basics
  import RT = ReverseTable
  import Controller

  ghost predicate IsPrime(p: nat) {
    p >= 2 && forall d :: 2 <= d < p ==> p % d != 0
  }

  predicate Not(p: nat, d: nat)
    requires d >= 2
  {
    p <= d || p % d != 0
  }

  /** None of the eight numbers from `d` on is a proper divisor. */
  predicate NotEight(p: nat, d: nat)
    requires d >= 2
  {
    && Not(p, d) && Not(p, d + 1) && Not(p, d + 2) && Not(p, d + 3)
    && Not(p, d + 4) && Not(p, d + 5) && Not(p, d + 6) && Not(p, d + 7)
  }

  /** No number from `d` up to the root of `p` divides it, tried in steps of sixteen. */
  predicate NoDivisor(p: nat, d: nat)
    requires d >= 2
    decreases p - d
  {
    d * d > p || d >= p || (NotEight(p, d) && NotEight(p, d + 8) && NoDivisor(p, d + 16))
  }

  lemma {:induction false} NoneDivides(p: nat, d: nat, x: nat)
    requires d >= 2 && NoDivisor(p, d) && d <= x && x * x <= p && x < p
    ensures p % x != 0
    decreases p - d
  {
    MulMonotone(x, d, x);
    MulMonotone(d, d, x);
    if x >= d + 16 {
      NoneDivides(p, d + 16, x);
    } else {
      assert Not(p, x);
    }
  }

  /** Of two factors one is at most the root. */
  lemma NoFactors(p: nat, from: nat, d: nat, q: nat)
    requires from == 2 && NoDivisor(p, from) && 2 <= d < p
    ensures p != d * q
  {
    if p == d * q {
      if d * d <= p {
        DivModUnique(p, d, q, 0);
        NoneDivides(p, from, d);
      } else {
        Cofactor(p, d, q);
        NoneDivides(p, from, q);
      }
    }
  }

  /** Trial division up to the root is enough. */
  lemma TrialDivision(p: nat, from: nat)
    requires p >= 2 && from == 2 && NoDivisor(p, from)
    ensures IsPrime(p)
  {
    forall d | 2 <= d < p
      ensures p % d != 0
    {
      NoFactors(p, from, d, p / d);
    }
  }

  lemma Cofactor(p: nat, d: nat, q: nat)
    requires p == d * q && 2 <= d < p && d * d > p
    ensures 2 <= q < d && q * q <= p && p % q == 0
  {
    if q >= d {
      MulMonotone(d, d, q);
    }
    if q <= 1 {
      MulMonotone(d, q, 1);
    }
    MulMonotone(q, q, d);
    DivModUnique(p, q, d, 0);
  }

  lemma SmallPrimes(i: nat)
    requires i < 14
    ensures IsPrime(RT.PRIMES[i])
  {
    assert forall i :: 0 <= i < 14 ==> RT.PRIMES[i] >= 2 && NoDivisor(RT.PRIMES[i], 2);
    TrialDivision(RT.PRIMES[i], 2);
  }

  lemma MiddleTried()
    ensures forall i :: 14 <= i < 20 ==> RT.PRIMES[i] >= 2 && NoDivisor(RT.PRIMES[i], 2)
  {
  }

  lemma MiddlePrimes(i: nat)
    requires 14 <= i < 20
    ensures IsPrime(RT.PRIMES[i])
  {
    MiddleTried();
    TrialDivision(RT.PRIMES[i], 2);
  }

  lemma Prime9689()
    ensures IsPrime(9689)
  {
    assert NoDivisor(9689, 66);
    TrialDivision(9689, 2);
  }

  lemma Prime9941()
    ensures IsPrime(9941)
  {
    assert NoDivisor(9941, 66);
    TrialDivision(9941, 2);
  }

  lemma Prime11213()
    ensures IsPrime(11213)
  {
    assert NoDivisor(11213, 66);
    TrialDivision(11213, 2);
  }

  lemma Prime19937()
    ensures IsPrime(19937)
  {
    assert NoDivisor(19937, 82);
    TrialDivision(19937, 2);
  }

  lemma Prime21701()
    ensures IsPrime(21701)
  {
    assert NoDivisor(21701, 82);
    TrialDivision(21701, 2);
  }

  lemma Prime23209()
    ensures IsPrime(23209)
  {
    assert NoDivisor(23209, 82);
    TrialDivision(23209, 2);
  }

  lemma Upper44497()
    ensures NoDivisor(44497, 114)
  {
  }

  lemma Prime44497()
    ensures IsPrime(44497)
  {
    Upper44497();
    TrialDivision(44497, 2);
  }

  /** The primes of the production builder. */
  lemma BuilderPrimes(i: nat)
    requires i < |RT.PRIMES|
    ensures IsPrime(RT.PRIMES[i])
  {
    if i < 14 {
      SmallPrimes(i);
    } else if i < 20 {
      MiddlePrimes(i);
    } else {
      Prime9689();
      Prime9941();
      Prime11213();
      Prime19937();
      Prime21701();
      Prime23209();
      Prime44497();
    }
  }

  /** The table sizes the controller picks from. */
  lemma TableSizePrimes(i: nat)
    requires i < |Controller.LOOKUP_TABLE_PRIMES|
    ensures IsPrime(Controller.LOOKUP_TABLE_PRIMES[i])
  {
    assert forall i :: 0 <= i < |Controller.LOOKUP_TABLE_PRIMES| ==> NoDivisor(Controller.LOOKUP_TABLE_PRIMES[i], 2);
    TrialDivision(Controller.LOOKUP_TABLE_PRIMES[i], 2);
  }
}
