/** The IPv4 header checksum as the kernel program computes it
    (internal/adapter/bpf/udplb_kern_helpers.c), against the verification rule of the internet
    checksum (sections 1 and 2(B) of RFC 1071). */
module Checksum {
  import opened Basics

  type Byte = x: int | 0 <= x < 256

  const W16 := 0x1_0000
  const W32 := 0x1_0000_0000

  // --- words ----------------------------------------------------------------------------------

  /** The i-th 16-bit word, read in host (little-endian) or in network order. */
  function Word(h: seq<Byte>, i: nat, network: bool): (w: nat)
    requires 2 * i + 1 < |h|
    ensures w < W16
  {
    var a: int, b: int := h[2 * i], h[2 * i + 1];
    if network then 256 * a + b else a + 256 * b
  }

  /** The i-th 32-bit word in host order. */
  function Word32(h: seq<Byte>, i: nat): (w: nat)
    requires 4 * i + 3 < |h|
    ensures w < W32
  {
    Word(h, 2 * i, false) + W16 * Word(h, 2 * i + 1, false)
  }

  /** The plain sum of the first `k` 16-bit words. */
  function Sum(h: seq<Byte>, k: nat, network: bool): nat
    requires 2 * k <= |h|
  {
    if k == 0 then 0 else Sum(h, k - 1, network) + Word(h, k - 1, network)
  }

  // --- what a receiver checks -----------------------------------------------------------------

  /** Addition in ones complement: the carry out of the top goes back in at the bottom. */
  function OnesAdd(a: nat, b: nat, width: nat): (r: nat)
    requires a < width && b < width
    ensures r < width
  {
    if a + b < width then a + b else a + b - width + 1
  }

  /** The ones complement sum of the first `k` 16-bit words. */
  function OnesSum(h: seq<Byte>, k: nat, network: bool): (r: nat)
    requires 2 * k <= |h|
    ensures r < W16
  {
    if k == 0 then 0 else OnesAdd(OnesSum(h, k - 1, network), Word(h, k - 1, network), W16)
  }

  /** A header is intact if its words, the checksum included, sum up to all ones. */
  predicate Verifies(h: seq<Byte>, network: bool)
    requires |h| % 2 == 0
  {
    OnesSum(h, |h| / 2, network) == 0xffff
  }

  lemma ModShift(x: nat, y: nat, d: int)
    requires y == x + 0xffff * d
    ensures x % 0xffff == y % 0xffff
  {
    DivModUnique(y, 0xffff, x / 0xffff + d, x % 0xffff);
  }

  lemma CongruentAdd(a: nat, s: nat, b: nat)
    requires a % 0xffff == s % 0xffff
    ensures (a + b) % 0xffff == (s + b) % 0xffff
  {
    ModShift(s + b, a + b, a / 0xffff - s / 0xffff);
  }

  /** End-around carry keeps the residue, because both word sizes leave 1 when divided by 0xffff. */
  lemma OnesAddCongruent(a: nat, b: nat, s: nat, width: nat)
    requires width == W16 || width == W32
    requires a < width && b < width && a % 0xffff == s % 0xffff && (a == 0 <==> s == 0)
    ensures OnesAdd(a, b, width) % 0xffff == (s + b) % 0xffff
    ensures OnesAdd(a, b, width) == 0 <==> s + b == 0
  {
    CongruentAdd(a, s, b);
  }

  lemma {:induction false} OnesSumIsSum(h: seq<Byte>, k: nat, network: bool)
    requires 2 * k <= |h|
    ensures OnesSum(h, k, network) % 0xffff == Sum(h, k, network) % 0xffff
    ensures OnesSum(h, k, network) == 0 <==> Sum(h, k, network) == 0
  {
    if k > 0 {
      OnesSumIsSum(h, k - 1, network);
      OnesAddCongruent(OnesSum(h, k - 1, network), Word(h, k - 1, network), Sum(h, k - 1, network), W16);
    }
  }

  lemma VerifiesIff(h: seq<Byte>, network: bool)
    requires |h| % 2 == 0
    ensures Verifies(h, network) <==> Sum(h, |h| / 2, network) > 0 && Sum(h, |h| / 2, network) % 0xffff == 0
  {
    OnesSumIsSum(h, |h| / 2, network);
  }

  // --- what the program computes --------------------------------------------------------------

  /** bpf_csum_diff over the first `k` 32-bit words. */
  function CsumDiff(h: seq<Byte>, k: nat): (r: nat)
    requires 4 * k <= |h|
    ensures r < W32
  {
    if k == 0 then 0 else OnesAdd(CsumDiff(h, k - 1), Word32(h, k - 1), W32)
  }

  function Fold(x: nat): nat {
    x % W16 + x / W16
  }

  function Folds(x: nat, n: nat): nat {
    if n == 0 then x else Fold(Folds(x, n - 1))
  }

  /** csum: four folds, then the complement truncated to 16 bits. */
  function Csum(h: seq<Byte>): (r: nat)
    requires |h| % 4 == 0
    ensures r < W16
  {
    FoldsFit(CsumDiff(h, |h| / 4));
    0xffff - Folds(CsumDiff(h, |h| / 4), 4)
  }

  /** Two folds already reach 16 bits, so four do; none changes the residue. */
  lemma FoldsFit(x: nat)
    requires x < W32
    ensures Folds(x, 2) < W16 && Folds(x, 4) == Folds(x, 2)
    ensures Folds(x, 4) % 0xffff == x % 0xffff
    ensures Folds(x, 4) == 0 <==> x == 0
  {
    var y := Fold(x);
    assert y == Folds(x, 1) by { assert Folds(x, 0) == x; }
    assert x == W16 * (x / W16) + x % W16;
    assert y < 2 * W16 - 1;
    var z := Fold(y);
    assert Folds(x, 2) == z;
    assert y == W16 * (y / W16) + y % W16;
    assert z < W16;
    assert Fold(z) == z;
  }

  /** A 32-bit word counts as much as its halves. */
  lemma Halves(s: nat, lo: nat, hi: nat)
    ensures (s + (lo + W16 * hi)) % 0xffff == (s + lo + hi) % 0xffff
    ensures s + (lo + W16 * hi) == 0 <==> s + lo + hi == 0
  {
    ModShift(s + lo + hi, s + (lo + W16 * hi), hi);
  }

  lemma {:induction false} CsumDiffIsSum(h: seq<Byte>, k: nat)
    requires 4 * k <= |h|
    ensures CsumDiff(h, k) % 0xffff == Sum(h, 2 * k, false) % 0xffff
    ensures CsumDiff(h, k) == 0 <==> Sum(h, 2 * k, false) == 0
  {
    if k > 0 {
      CsumDiffIsSum(h, k - 1);
      var s, lo, hi := Sum(h, 2 * (k - 1), false), Word(h, 2 * (k - 1), false), Word(h, 2 * (k - 1) + 1, false);
      OnesAddCongruent(CsumDiff(h, k - 1), lo + W16 * hi, s, W32);
      Halves(s, lo, hi);
      assert Sum(h, 2 * k - 1, false) == s + lo;
      assert Sum(h, 2 * k, false) == s + lo + hi;
    }
  }

  lemma Complement(y: nat, s: nat)
    requires y < W16 && y % 0xffff == s % 0xffff && (y == 0 <==> s == 0)
    ensures (0xffff - y + s) % 0xffff == 0 && 0xffff - y + s > 0
  {
    ModShift(0, 0xffff - y + s, 1 + s / 0xffff - y / 0xffff);
  }

  lemma CsumComplements(h: seq<Byte>)
    requires |h| % 4 == 0
    ensures (Csum(h) + Sum(h, |h| / 2, false)) % 0xffff == 0
    ensures Csum(h) + Sum(h, |h| / 2, false) > 0
  {
    var k := |h| / 4;
    assert |h| / 2 == 2 * k;
    FoldsFit(CsumDiff(h, k));
    CsumDiffIsSum(h, k);
    Complement(Folds(CsumDiff(h, k), 4), Sum(h, 2 * k, false));
  }

  // --- byte order -----------------------------------------------------------------------------

  lemma SwapWord(t: nat, s: nat, a: nat, b: nat)
    requires t % 0xffff == 256 * s % 0xffff
    ensures (t + (256 * a + b)) % 0xffff == 256 * (s + (a + 256 * b)) % 0xffff
  {
    CongruentAdd(t, 256 * s, 256 * a + b);
    ModShift(256 * s + (256 * a + b), 256 * (s + (a + 256 * b)), b);
  }

  /** Reading the words in the other byte order multiplies their sum by 256, modulo 0xffff. */
  lemma {:induction false} OtherByteOrder(h: seq<Byte>, k: nat)
    requires 2 * k <= |h|
    ensures Sum(h, k, true) % 0xffff == 256 * Sum(h, k, false) % 0xffff
    ensures Sum(h, k, true) == 0 <==> Sum(h, k, false) == 0
  {
    if k > 0 {
      OtherByteOrder(h, k - 1);
      SwapWord(Sum(h, k - 1, true), Sum(h, k - 1, false), h[2 * (k - 1)], h[2 * (k - 1) + 1]);
    }
  }

  lemma VerifiesInBothOrders(h: seq<Byte>)
    requires |h| % 2 == 0
    ensures Verifies(h, false) <==> Verifies(h, true)
  {
    VerifiesIff(h, false);
    VerifiesIff(h, true);
    OtherByteOrder(h, |h| / 2);
    SwapBack(Sum(h, |h| / 2, false), Sum(h, |h| / 2, true));
  }

  lemma SwapBack(s: nat, t: nat)
    requires t % 0xffff == 256 * s % 0xffff
    ensures s % 0xffff == 0 <==> t % 0xffff == 0
  {
    if s % 0xffff == 0 {
      ModShift(0, 256 * s, 256 * (s / 0xffff));
    }
    if 256 * s % 0xffff == 0 {
      ModShift(0, s, 256 * (256 * s / 0xffff) - s);
    }
  }

  // --- storing the checksum -------------------------------------------------------------------

  /** Store a 16-bit word in host order. */
  function SetWord(h: seq<Byte>, i: nat, w: nat): (r: seq<Byte>)
    requires 2 * i + 1 < |h| && w < W16
    ensures |r| == |h| && Word(r, i, false) == w
    ensures forall k :: 0 <= k < |h| && k / 2 != i ==> r[k] == h[k]
  {
    h[2 * i := w % 256][2 * i + 1 := w / 256]
  }

  lemma {:induction false} SumAfterSet(h: seq<Byte>, i: nat, w: nat, k: nat)
    requires 2 * i + 1 < |h| && w < W16 && 2 * k <= |h|
    ensures Sum(SetWord(h, i, w), k, false) == Sum(h, k, false) + if i < k then w - Word(h, i, false) else 0
  {
    if k > 0 {
      SumAfterSet(h, i, w, k - 1);
    }
  }

  /** iphdr_csum: the checksum of the header with its checksum field zeroed. */
  function IphdrCsum(h: seq<Byte>): (c: nat)
    requires |h| == 20
    ensures c < W16
  {
    Csum(SetWord(h, 5, 0))
  }

  /** Storing that checksum makes any 20-byte header verify, in host and in network order. */
  lemma StoredChecksumVerifies(h: seq<Byte>)
    requires |h| == 20
    ensures Verifies(SetWord(h, 5, IphdrCsum(h)), false) && Verifies(SetWord(h, 5, IphdrCsum(h)), true)
  {
    var z, c := SetWord(h, 5, 0), IphdrCsum(h);
    CsumComplements(z);
    SumAfterSet(z, 5, c, 10);
    assert SetWord(z, 5, c) == SetWord(h, 5, c);
    VerifiesIff(SetWord(h, 5, c), false);
    VerifiesInBothOrders(SetWord(h, 5, c));
  }

  lemma {:induction false} SumAppend(h: seq<Byte>, opts: seq<Byte>, k: nat)
    requires |h| % 2 == 0 && 2 * k <= |opts|
    ensures Sum(h + opts, |h| / 2 + k, false) == Sum(h, |h| / 2, false) + Sum(opts, k, false)
  {
    if k == 0 {
      SumPrefix(h, opts, |h| / 2);
    } else {
      SumAppend(h, opts, k - 1);
      assert Word(h + opts, |h| / 2 + k - 1, false) == Word(opts, k - 1, false);
    }
  }

  lemma {:induction false} SumPrefix(h: seq<Byte>, opts: seq<Byte>, k: nat)
    requires 2 * k <= |h|
    ensures Sum(h + opts, k, false) == Sum(h, k, false)
  {
    if k > 0 {
      SumPrefix(h, opts, k - 1);
    }
  }

  lemma AddMultiple(s: nat, t: nat)
    requires s % 0xffff == 0 && s > 0
    ensures (s + t) % 0xffff == 0 <==> t % 0xffff == 0
  {
    CongruentAdd(s, 0, t);
  }

  lemma SumOfBoth(g: seq<Byte>, opts: seq<Byte>)
    requires |g| % 2 == 0 && |opts| % 2 == 0
    ensures |g + opts| % 2 == 0
    ensures Sum(g + opts, |g + opts| / 2, false) == Sum(g, |g| / 2, false) + Sum(opts, |opts| / 2, false)
  {
    SumAppend(g, opts, |opts| / 2);
    assert |g + opts| / 2 == |g| / 2 + |opts| / 2;
  }

  lemma AppendedVerifies(g: seq<Byte>, opts: seq<Byte>)
    requires |g| % 2 == 0 && |opts| % 2 == 0 && Verifies(g, false)
    ensures Verifies(g + opts, false) <==> Sum(opts, |opts| / 2, false) % 0xffff == 0
  {
    var s, t := Sum(g, |g| / 2, false), Sum(opts, |opts| / 2, false);
    assert s > 0 && s % 0xffff == 0 by {
      VerifiesIff(g, false);
    }
    assert Verifies(g + opts, false) <==> (s + t) % 0xffff == 0 by {
      SumOfBoth(g, opts);
      VerifiesIff(g + opts, false);
    }
    AddMultiple(s, t);
  }

  /** With header options, which the program leaves out of the sum, the header verifies exactly when
      the options themselves sum up to a multiple of 0xffff. */
  lemma OptionsVerifyIff(h: seq<Byte>, opts: seq<Byte>)
    requires |h| == 20 && |opts| % 2 == 0
    ensures Verifies(SetWord(h, 5, IphdrCsum(h)) + opts, false) <==> Sum(opts, |opts| / 2, false) % 0xffff == 0
  {
    StoredChecksumVerifies(h);
    AppendedVerifies(SetWord(h, 5, IphdrCsum(h)), opts);
  }

  /** csum as the loop the program runs. */
  method ComputeCsum(h: seq<Byte>) returns (r: nat)
    requires |h| % 4 == 0
    ensures r == Csum(h)
  {
    var csum := CsumDiff(h, |h| / 4);
    for i := 0 to 4
      invariant csum == Folds(CsumDiff(h, |h| / 4), i)
    {
      csum := csum % W16 + csum / W16;
    }
    FoldsFit(CsumDiff(h, |h| / 4));
    r := 0xffff - csum;
  }
}
