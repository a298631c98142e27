/** Integer bit arithmetic behind the cache geometry: powers of two, the
    integer logarithms that stand in for the floating-point `log2` of the
    C code, and the 32-bit unsigned wrap-around of its shifts and sums. */
module Bits {

  /** One more than the largest 32-bit unsigned value. */
  const WORD: nat := 0x1_0000_0000

  /** A `uint32_t` value. */
  type Word = x: nat | x < WORD

  function Pow2(n: nat): (p: nat)
    ensures p >= 1
  {
    if n == 0 then 1 else 2 * Pow2(n - 1)
  }

  lemma Pow2Word()
    ensures Pow2(32) == WORD
  {
    assert Pow2(8) == 256;
    Pow2Add(8, 8);
    Pow2Add(16, 16);
  }

  lemma {:induction false} Pow2Add(a: nat, b: nat)
    ensures Pow2(a + b) == Pow2(a) * Pow2(b)
  {
    if a > 0 {
      Pow2Add(a - 1, b);
      assert Pow2(a + b) == 2 * Pow2(a - 1 + b);
    }
  }

  lemma {:induction false} Pow2Monotone(a: nat, b: nat)
    requires a <= b
    ensures Pow2(a) <= Pow2(b)
  {
    if a < b {
      Pow2Monotone(a, b - 1);
    }
  }

  /** `(uint32_t)log2(n)`: the exponent of the largest power of two not above n. */
  function FloorLog2(n: nat): (w: nat)
    requires n >= 1
    ensures Pow2(w) <= n < Pow2(w + 1)
    decreases n
  {
    if n == 1 then 0 else 1 + FloorLog2(n / 2)
  }

  /** Field width for a size n, computed the way `init_cache` does it: the
      truncated logarithm, plus one unless n is exactly that power of two.
      The result is the ceiling of log2 n: the width is just wide enough. */
  function Width(n: nat): (w: nat)
    requires n >= 1
    ensures n <= Pow2(w)
    ensures w > 0 ==> Pow2(w - 1) < n
  {
    var f := FloorLog2(n);
    if Pow2(f) == n then f else f + 1
  }

  /** No narrower field holds n values: Width is the least k with n <= 2^k. */
  lemma WidthIsLeast(n: nat, k: nat)
    requires n >= 1
    requires n <= Pow2(k)
    ensures Width(n) <= k
  {
    var w := Width(n);
    if w > k {
      Pow2Monotone(k, w - 1);
    }
  }

  /** For an exact power of two the width is its exponent. */
  lemma {:induction false} WidthOfPow2(k: nat)
    ensures Width(Pow2(k)) == k
  {
    WidthIsLeast(Pow2(k), k);
    var w := Width(Pow2(k));
    if w < k {
      Pow2Monotone(w, k - 1);
    }
  }

  /** Euclidean division is determined by a quotient and an in-range remainder. */
  lemma DivModUnique(x: nat, d: nat, q: nat, r: nat)
    requires d > 0 && r < d
    requires x == q * d + r
    ensures x / d == q && x % d == r
  {
    var q', r' := x / d, x % d;
    assert x == q' * d + r';
    if q' < q {
      MulLe(q' + 1, q, d);
    } else if q < q' {
      MulLe(q + 1, q', d);
    }
  }

  lemma MulLe(a: nat, b: nat, d: nat)
    requires a <= b
    ensures a * d <= b * d
  {
  }

  /** Dividing by p and then by q is dividing by p * q. */
  lemma DivDiv(x: nat, p: nat, q: nat)
    requires p > 0 && q > 0
    ensures x / (p * q) == (x / p) / q
  {
    var a, r1 := x / p, x % p;
    var b, r2 := a / q, a % q;
    assert x == a * p + r1;
    assert a == b * q + r2;
    Regroup(x, a, b, p, q, r1, r2);
    DivModUnique(x, p * q, b, r2 * p + r1);
  }

  /** x = (b * q + r2) * p + r1 with r1 < p and r2 < q is the quotient b
      and remainder r2 * p + r1 by p * q. */
  lemma Regroup(x: nat, a: nat, b: nat, p: nat, q: nat, r1: nat, r2: nat)
    requires r1 < p && r2 < q
    requires x == a * p + r1 && a == b * q + r2
    ensures x == b * (p * q) + (r2 * p + r1)
    ensures r2 * p + r1 < p * q
  {
    assert a * p == b * (p * q) + r2 * p;
    MulLe(r2 + 1, q, p);
  }

  /** A bound on the dividend bounds the quotient. */
  lemma DivBelow(x: nat, p: nat, q: nat)
    requires p > 0 && x < p * q
    ensures x / p < q
  {
    if x / p >= q {
      MulLe(q, x / p, p);
    }
  }

  /** `x >> n`: n halvings. */
  function Shr(x: nat, n: nat): (r: nat)
    ensures r <= x
  {
    if n == 0 then x else Shr(x / 2, n - 1)
  }

  /** `x & ((1 << n) - 1)`: the low n bits, one at a time. */
  function Low(x: nat, n: nat): (r: nat)
    ensures r <= x && r < Pow2(n)
  {
    if n == 0 then 0 else x % 2 + 2 * Low(x / 2, n - 1)
  }

  /** A right shift by n is the quotient by 2^n. */
  lemma {:induction false} ShrIsDiv(x: nat, n: nat)
    ensures Shr(x, n) == x / Pow2(n)
  {
    if n > 0 {
      ShrIsDiv(x / 2, n - 1);
      DivDiv(x, 2, Pow2(n - 1));
    }
  }

  /** The low n bits are the remainder by 2^n. */
  lemma {:induction false} LowIsMod(x: nat, n: nat)
    ensures Low(x, n) == x % Pow2(n)
  {
    if n > 0 {
      LowIsMod(x / 2, n - 1);
      ModSplit(x, 2, Pow2(n - 1));
    }
  }

  /** The remainder by p * q is the remainder by p plus p times the next
      digit in base q. */
  lemma ModSplit(x: nat, p: nat, q: nat)
    requires p > 0 && q > 0
    ensures x % (p * q) == x % p + p * ((x / p) % q)
  {
    var a, r1 := x / p, x % p;
    var b, r2 := a / q, a % q;
    assert x == a * p + r1;
    assert a == b * q + r2;
    Regroup(x, a, b, p, q, r1, r2);
    DivModUnique(x, p * q, b, r2 * p + r1);
  }

  /** `x << k` on a `uint32_t`: k doublings, each dropping the bit that
      leaves the word. */
  function Shl32(x: Word, k: nat): (r: Word)
    decreases k
  {
    if k == 0 then x else Shl32((2 * x) % WORD, k - 1)
  }

  /** A 32-bit left shift by k is the product by 2^k, modulo 2^32. */
  lemma {:induction false} Shl32IsMul(x: Word, k: nat)
    ensures Shl32(x, k) == (x * Pow2(k)) % WORD
    decreases k
  {
    if k > 0 {
      var p := Pow2(k - 1);
      Shl32IsMul((2 * x) % WORD, k - 1);
      ModMulMod(2 * x, p);
      assert x * Pow2(k) == (2 * x) * p;
    }
  }

  /** Reducing a factor modulo 2^32 first does not change the product
      modulo 2^32. */
  lemma ModMulMod(a: nat, p: nat)
    ensures ((a % WORD) * p) % WORD == (a * p) % WORD
  {
    var q, r := a / WORD, a % WORD;
    assert a == q * WORD + r;
    assert a * p == (q * p) * WORD + r * p;
    ModAddMultiple(r * p, q * p);
  }

  lemma ModAddMultiple(y: nat, k: nat)
    ensures (k * WORD + y) % WORD == y % WORD
  {
    DivModUnique(k * WORD + y, WORD, k + y / WORD, y % WORD);
  }

  /** `x + y` on `uint32_t`s. */
  function Add32(x: Word, y: Word): (r: Word)
  {
    (x + y) % WORD
  }
}
