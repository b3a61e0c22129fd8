/** Bitwise AND on natural numbers, as C's `&` computes it bit by bit, and the power-of-two
    facts the page-colour code relies on. */
module BitMask {

  function Pow2(k: nat): (r: nat)
    ensures r >= 1
  {
    if k == 0 then 1 else 2 * Pow2(k - 1)
  }

  function BitAnd(x: nat, y: nat): nat {
    if x == 0 || y == 0 then 0 else (if x % 2 == 1 && y % 2 == 1 then 1 else 0) + 2 * BitAnd(x / 2, y / 2)
  }

  ghost predicate PowerOfTwo(n: nat) {
    exists k: nat :: n == Pow2(k)
  }

  /** Masking with 2^k - 1 is reduction modulo 2^k: the cyclic step of the colour walk. */
  lemma {:induction false} MaskIsMod(x: nat, k: nat, n: nat)
    requires n == Pow2(k)
    ensures BitAnd(x, n - 1) == x % n
  {
    if k == 0 {
      assert BitAnd(x, 0) == 0;
    } else if x == 0 {
      assert BitAnd(0, n - 1) == 0;
    } else {
      var h := Pow2(k - 1);
      assert n == 2 * h;
      hide BitAnd, Pow2;
      MaskIsMod(x / 2, k - 1, h);
      MaskStep(x, h);
      HalveMod(x, h);
    }
  }

  lemma MaskStep(x: nat, h: nat)
    requires h >= 1
    ensures BitAnd(x, 2 * h - 1) == x % 2 + 2 * BitAnd(x / 2, h - 1)
  {
    assert (2 * h - 1) / 2 == h - 1 && (2 * h - 1) % 2 == 1;
  }

  lemma HalveMod(x: nat, h: nat)
    requires h >= 1
    ensures x % (2 * h) == x % 2 + 2 * ((x / 2) % h)
  {
    var q, r := x / 2 / h, (x / 2) % h;
    assert x / 2 == q * h + r;
    assert x == (2 * h) * q + (2 * r + x % 2);
    ModUnique(x, 2 * h, q, 2 * r + x % 2);
  }

  lemma MulAtLeast(n: int, d: int)
    requires n > 0 && d >= 1
    ensures n * d >= n && n * (-d) <= -n
  {
    assert n * d == n + n * (d - 1);
    assert n * (-d) == -(n * d);
  }

  lemma ModUnique(x: int, n: int, q: int, r: int)
    requires n > 0 && 0 <= r < n && x == n * q + r
    ensures x % n == r && x / n == q
  {
    var d := q - x / n;
    assert n * d == x % n - r by {
      assert n * d == n * q - n * (x / n);
    }
    if d >= 1 { MulAtLeast(n, d); } else if d <= -1 { MulAtLeast(n, -d); }
  }

  /** The assertion made when the colours are set up, (n - 1) & n == 0, holds exactly for powers of two. */
  lemma {:induction false} MaskTest(n: nat)
    requires n >= 1
    ensures BitAnd(n - 1, n) == 0 <==> PowerOfTwo(n)
  {
    if n == 1 {
      assert n == Pow2(0);
    } else if n % 2 == 1 {
      var h := n / 2;
      assert (n - 1) / 2 == h && n / 2 == h;
      AndSelf(h);
      assert BitAnd(n - 1, n) == 2 * h;
      OddNotPowerOfTwo(n);
    } else {
      var h := n / 2;
      MaskTest(h);
      assert (n - 1) / 2 == h - 1;
      assert BitAnd(n - 1, n) == 2 * BitAnd(h - 1, h);
      if PowerOfTwo(h) { var k: nat :| h == Pow2(k); assert n == Pow2(k + 1); }
      if PowerOfTwo(n) { var k: nat :| n == Pow2(k); assert h == Pow2(k - 1); }
    }
  }

  lemma OddNotPowerOfTwo(n: nat)
    requires n > 1 && n % 2 == 1
    ensures !PowerOfTwo(n)
  {
    forall k: nat ensures n != Pow2(k) {
      if k > 0 { assert Pow2(k) == 2 * Pow2(k - 1); }
    }
  }

  lemma {:induction false} AndSelf(x: nat)
    ensures BitAnd(x, x) == x
  {
    if x > 0 { AndSelf(x / 2); }
  }

  /** The assertion `(colormask & ncolors) == 0` on the number of colours. */
  predicate MaskOk(n: nat) {
    n >= 1 && BitAnd(n - 1, n) == 0
  }

  /** What the colour code needs of its mask: `x & (n - 1)` is `x % n` when `(n - 1) & n == 0`. */
  lemma ColorMask(x: nat, n: nat)
    requires MaskOk(n)
    ensures BitAnd(x, n - 1) == x % n
  {
    MaskTest(n);
    var k: nat :| n == Pow2(k);
    MaskIsMod(x, k, n);
  }
}
