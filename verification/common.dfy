/** Integer helpers shared by the sketch modules: powers of two, Java's 32-bit
    integer arithmetic, and the unsigned view of a Java `int`. */
module Common {

  /** 2^k. */
  function Pow2(k: nat): (r: nat)
    ensures r >= 1
  {
    if k == 0 then 1 else 2 * Pow2(k - 1)
  }

  lemma {:induction false} Pow2Add(a: nat, b: nat)
    ensures Pow2(a + b) == Pow2(a) * Pow2(b)
  {
    if a > 0 {
      Pow2Add(a - 1, b);
      assert Pow2(a + b) == 2 * Pow2(a - 1 + b);
      assert Pow2(a) == 2 * Pow2(a - 1);
      assert 2 * (Pow2(a - 1) * Pow2(b)) == (2 * Pow2(a - 1)) * Pow2(b);
    }
  }

  lemma {:induction false} Pow2Monotone(a: nat, b: nat)
    requires a <= b
    ensures Pow2(a) <= Pow2(b)
  {
    if a < b {
      Pow2Monotone(a, b - 1);
    }
  }

  /** The powers of two the sketches use as bounds. */
  lemma Pow2Values()
    ensures Pow2(21) == 0x20_0000 && Pow2(26) == 0x400_0000 && Pow2(30) == 0x4000_0000
  {
    assert Pow2(10) == 1024;
    Pow2Add(10, 10);
    Pow2Add(20, 1);
    Pow2Add(20, 6);
    Pow2Add(20, 10);
  }

  /** Powers of two up to 2^30 fit a positive Java `int`. */
  lemma Pow2Fits(k: nat)
    requires k <= 30
    ensures Pow2(k) <= 0x4000_0000
  {
    Pow2Monotone(k, 30);
    Pow2Values();
  }

  /** Quotient and remainder are the unique pair with `x == q * n + r` and
      `0 <= r < n`. */
  lemma DivModUnique(x: int, n: int, q: int, r: int)
    requires n > 0 && 0 <= r < n && x == q * n + r
    ensures x % n == r && x / n == q
  {
    var q', r' := x / n, x % n;
    var d := q - q';
    assert d * n == r' - r by {
      assert q * n - q' * n == (q - q') * n;
    }
    assert d * n == (d - 1) * n + n && d * n == (d + 1) * n - n;
    assert d >= 1 ==> (d - 1) * n >= 0;
    assert d <= -1 ==> (d + 1) * n <= 0;
  }

  /** lgConfigK within the library's supported range [4, 21], which every
      caller that creates an HLL sketch checks. */
  predicate LgKOk(lgConfigK: nat)
  {
    4 <= lgConfigK <= 21
  }

  /** The bit pattern of a Java `int`, read as an unsigned number. */
  type U32 = x: int | 0 <= x < 0x1_0000_0000

  /** A Java `int` value. */
  type I32 = x: int | -0x8000_0000 <= x < 0x8000_0000

  /** Two's-complement truncation of an integer to a Java `int`. */
  function Wrap32(x: int): (r: I32)
    ensures (r - x) % 0x1_0000_0000 == 0
    ensures -0x8000_0000 <= x < 0x8000_0000 ==> r == x
  {
    (x + 0x8000_0000) % 0x1_0000_0000 - 0x8000_0000
  }

  /** Java's `x << n` on `int`: the distance is taken modulo 32 and the
      product wraps around. */
  function ShlInt(x: I32, n: I32): (r: I32)
    ensures 0 <= n < 32 && -0x8000_0000 <= x * Pow2(n) < 0x8000_0000 ==> r == x * Pow2(n)
  {
    Wrap32(x * Pow2(n % 32))
  }

  /** Java's `x + y` on `int`. */
  function AddInt(x: I32, y: I32): (r: I32)
    ensures -0x8000_0000 <= x + y < 0x8000_0000 ==> r == x + y
  {
    Wrap32(x + y)
  }
}
