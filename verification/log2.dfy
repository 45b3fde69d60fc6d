/** Compile-time logarithm and the power-of-two test used by the bloom projection. */
module Log2 {

  /** 2^k. */
  function Pow2(k: nat): (r: nat)
    ensures r >= 1
  {
    if k == 0 then 1 else 2 * Pow2(k - 1)
  }

  /** `m` is a power of two. The C++ test `(M & (M - 1)) == 0` also admits 0,
      but that instantiation never compiles, because `StaticLog2<0>` recurses forever. */
  predicate IsPow2(m: nat)
  {
    exists k: nat :: k <= m && Pow2(k) == m
  }

  /** StaticLog2<N>: 1 + StaticLog2<N/2>, with StaticLog2<1> == 0, i.e. floor(log2 n). */
  function StaticLog2(n: nat): (r: nat)
    requires n >= 1
    ensures r < n
  {
    if n == 1 then 0 else 1 + StaticLog2(n / 2)
  }

  /** Powers of two grow strictly with the exponent. */
  lemma {:induction false} Pow2Monotone(a: nat, b: nat)
    requires a <= b
    ensures Pow2(a) <= Pow2(b)
    ensures a < b ==> Pow2(a) < Pow2(b)
  {
    if a < b {
      Pow2Monotone(a, b - 1);
    }
  }

  /** Multiplying by 8 adds three halvings: StaticLog2<8m> == 3 + StaticLog2<m>. */
  lemma StaticLog2Times8(m: nat)
    requires m >= 1
    ensures StaticLog2(8 * m) == 3 + StaticLog2(m)
  {
    assert (8 * m) / 2 == 4 * m && (4 * m) / 2 == 2 * m && (2 * m) / 2 == m;
    assert StaticLog2(8 * m) == 1 + StaticLog2(4 * m);
    assert StaticLog2(4 * m) == 1 + StaticLog2(2 * m);
    assert StaticLog2(2 * m) == 1 + StaticLog2(m);
  }

  /** 2^(a+b) == 2^a * 2^b. */
  lemma {:induction false} Pow2Add(a: nat, b: nat)
    ensures Pow2(a + b) == Pow2(a) * Pow2(b)
  {
    if b > 0 {
      Pow2Add(a, b - 1);
      assert Pow2(a + b) == 2 * Pow2(a + (b - 1));
    }
  }

  /** StaticLog2 is floor(log2 n): the largest power of two not above n. */
  lemma {:induction false} StaticLog2Bounds(n: nat)
    requires n >= 1
    ensures Pow2(StaticLog2(n)) <= n < Pow2(StaticLog2(n) + 1)
  {
    if n > 1 {
      StaticLog2Bounds(n / 2);
    }
  }

  /** On a power of two, StaticLog2 is the exact exponent. */
  lemma {:induction false} StaticLog2OfPow2(k: nat)
    ensures StaticLog2(Pow2(k)) == k
  {
    if k > 0 {
      assert Pow2(k) / 2 == Pow2(k - 1);
      StaticLog2OfPow2(k - 1);
    }
  }

  /** ... so a power of two is recovered from its logarithm. */
  lemma Pow2OfStaticLog2(m: nat)
    requires IsPow2(m)
    ensures Pow2(StaticLog2(m)) == m
  {
    var k: nat :| k <= m && Pow2(k) == m;
    StaticLog2OfPow2(k);
  }
}
