// The 256-bit words of the contract and their bits.
module Words {
  // 2^256, the first value that no longer fits in a uint256.
  const UINT256_LIMIT: nat := 0x1_0000_0000_0000_0000_0000_0000_0000_0000_0000_0000_0000_0000_0000_0000_0000_0000

  type uint256 = x: nat | x < UINT256_LIMIT

  // MAX_DEPTH_HARD_CAP, the number of bits of an index.
  const WORD_BITS: nat := 256

  function Pow2(n: nat): (r: nat)
    ensures r >= 1
  {
    if n == 0 then 1 else 2 * Pow2(n - 1)
  }

  // The source's `(x >> d) & 1 == 1`, shifting one place at a time.
  predicate Bit(x: nat, d: nat) {
    if d == 0 then x % 2 == 1 else Bit(x / 2, d - 1)
  }

  // i and j have the same bits at positions lo..hi-1.
  ghost predicate Agree(i: nat, j: nat, lo: nat, hi: nat)
    decreases hi - lo
  {
    lo < hi ==> Bit(i, lo) == Bit(j, lo) && Agree(i, j, lo + 1, hi)
  }

  lemma {:induction false} ProductAtLeast(p: nat, k: nat)
    requires k > 0
    ensures p * k >= p
  {
    assert p * k == p * (k - 1) + p;
  }

  lemma {:induction false} DivModUnique(x: nat, p: nat, q: nat, r: nat)
    requires p > 0 && r < p && x == p * q + r
    ensures x / p == q && x % p == r
  {
    var q', r' := x / p, x % p;
    assert p * (q' - q) == r - r' && p * (q - q') == r' - r;
    if q' > q {
      ProductAtLeast(p, q' - q);
    } else if q' < q {
      ProductAtLeast(p, q - q');
    }
  }

  // Shifting right by d divides by 2^d.
  lemma {:induction false} HalvedQuotient(x: nat, p: nat)
    requires p > 0
    ensures (x / 2) / p == x / (2 * p)
  {
    var q, r := (x / 2) / p, (x / 2) % p;
    assert x / 2 == p * q + r;
    assert (2 * p) * q == 2 * (p * q);
    DivModUnique(x, 2 * p, q, 2 * r + x % 2);
  }

  lemma {:induction false} BitIsQuotientParity(x: nat, d: nat)
    ensures Bit(x, d) <==> (x / Pow2(d)) % 2 == 1
  {
    if d == 0 {
      assert x / 1 == x;
    } else {
      BitIsQuotientParity(x / 2, d - 1);
      HalvedQuotient(x, Pow2(d - 1));
    }
  }

  // Doubling the modulus keeps the remainder or adds the modulus to it, by the parity of the quotient.
  lemma {:induction false} DoubledRemainder(x: nat, p: nat)
    requires p > 0
    ensures x % (2 * p) == x % p + if (x / p) % 2 == 1 then p else 0
  {
    var q, r := x / p, x % p;
    var b := q % 2;
    assert x == p * q + r;
    assert p * q == p * (2 * (q / 2)) + p * b;
    assert p * (2 * (q / 2)) == (2 * p) * (q / 2);
    DivModUnique(x, 2 * p, q / 2, p * b + r);
  }

  lemma {:induction false} ModSplit(x: nat, n: nat)
    ensures x % Pow2(n + 1) == x % Pow2(n) + if Bit(x, n) then Pow2(n) else 0
  {
    BitIsQuotientParity(x, n);
    DoubledRemainder(x, Pow2(n));
  }

  lemma {:induction false} AgreeExtend(i: nat, j: nat, lo: nat, hi: nat)
    requires lo <= hi
    ensures Agree(i, j, lo, hi + 1) <==> Agree(i, j, lo, hi) && Bit(i, hi) == Bit(j, hi)
    decreases hi - lo
  {
    if lo < hi {
      AgreeExtend(i, j, lo + 1, hi);
    }
  }

  lemma {:induction false} AgreeSymmetric(i: nat, j: nat, lo: nat, hi: nat)
    ensures Agree(i, j, lo, hi) <==> Agree(j, i, lo, hi)
    decreases hi - lo
  {
    if lo < hi {
      AgreeSymmetric(i, j, lo + 1, hi);
    }
  }

  lemma {:induction false} AgreeShorter(i: nat, j: nat, lo: nat, hi: nat, longer: nat)
    requires hi <= longer && Agree(i, j, lo, longer)
    ensures Agree(i, j, lo, hi)
    decreases hi - lo
  {
    if lo < hi {
      AgreeShorter(i, j, lo + 1, hi, longer);
    }
  }

  // Agreeing on the low n bits is congruence modulo 2^n.
  lemma {:induction false} AgreeIsCongruence(i: nat, j: nat, n: nat)
    ensures Agree(i, j, 0, n) <==> i % Pow2(n) == j % Pow2(n)
  {
    if n == 0 {
      assert i % 1 == 0 && j % 1 == 0;
    } else {
      AgreeIsCongruence(i, j, n - 1);
      AgreeExtend(i, j, 0, n - 1);
      ModSplit(i, n - 1);
      ModSplit(j, n - 1);
    }
  }

  lemma {:induction false} Pow2Sum(n: nat, m: nat)
    ensures Pow2(n + m) == Pow2(n) * Pow2(m)
  {
    if n > 0 {
      Pow2Sum(n - 1, m);
      assert Pow2(n - 1 + m) == Pow2(n + m - 1);
    }
  }

  lemma Pow2Doubled(n: nat, p: nat)
    requires Pow2(n) == p
    ensures Pow2(2 * n) == p * p
  {
    Pow2Sum(n, n);
  }

  // The literal limit is 2^256. (The exponent is a variable so that the verifier does not unroll Pow2.)
  lemma Pow2OfWordBits(n: nat)
    requires n == WORD_BITS
    ensures Pow2(n) == UINT256_LIMIT
  {
    var k: nat := n / 256;
    assert Pow2(k) == 2;
    Pow2Doubled(k, 2);
    Pow2Doubled(2 * k, 4);
    Pow2Doubled(4 * k, 16);
    Pow2Doubled(8 * k, 0x100);
    Pow2Doubled(16 * k, 0x1_0000);
    Pow2Doubled(32 * k, 0x1_0000_0000);
    Pow2Doubled(64 * k, 0x1_0000_0000_0000_0000);
    Pow2Doubled(128 * k, 0x1_0000_0000_0000_0000_0000_0000_0000_0000);
  }

  // Two 256-bit words with the same 256 bits are the same word.
  lemma {:induction false} WordsWithSameBitsAreEqual(i: uint256, j: uint256)
    requires Agree(i, j, 0, WORD_BITS)
    ensures i == j
  {
    var n: nat := WORD_BITS;
    AgreeIsCongruence(i, j, n);
    Pow2OfWordBits(n);
    DivModUnique(i, UINT256_LIMIT, 0, i);
    DivModUnique(j, UINT256_LIMIT, 0, j);
  }
}
