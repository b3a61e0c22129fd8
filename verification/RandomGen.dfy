/** The libdrm random number generator (xf86drmRandom.c): Schrage's method computes the Park-Miller-Stockmeyer
    multiplicative generator without overflow, for 32- and 64-bit longs alike. */
module RandomGen {

  const A := 48271
  const M := 2147483647            // 2^31 - 1
  const Q := 44488                 // M div A
  const R := 3399                  // M mod A
  const CHECK := 399268537         // expected after 10000 draws from seed 1
  const INVERSE := 1899818559      // A * INVERSE == 42704 * M + 1

  // The width of `long`: 2^32 or 2^64 values.
  datatype Width = W32 | W64

  function Modulus(w: Width): int {
    if w.W32? then 0x1_0000_0000 else 0x1_0000_0000_0000_0000
  }

  /** x as an unsigned long. */
  function Unsigned(x: int, w: Width): int {
    x % Modulus(w)
  }

  /** The long with the same bits as the unsigned long u. */
  function Signed(u: int, w: Width): int {
    if u < Modulus(w) / 2 then u else u - Modulus(w)
  }

  /** The generator itself. */
  function Step(seed: int): int {
    A * seed % M
  }

  predicate Legal(seed: int) { 1 <= seed < M }

  lemma StepFacts(seed: int)
    ensures Step(seed) == A * seed - M * (A * seed / M) && 0 <= Step(seed) < M
  {}

  /** No legal seed is mapped to 0: A is invertible modulo M. */
  lemma StepLegal(seed: int)
    requires Legal(seed)
    ensures Legal(Step(seed))
  {
    StepFacts(seed);
    var z := INVERSE * (A * seed / M) - 42704 * seed;
    assert Step(seed) == 0 ==> seed == M * z;
  }

  /** Schrage's expression is the product reduced once, give or take M, and stays within 31 bits. */
  lemma Schrage(seed: int)
    requires Legal(seed)
    ensures var hi, lo := seed / Q, seed % Q;
            && 0 <= hi && 0 <= A * lo < 0x8000_0000 && 0 <= R * hi < 0x8000_0000
            && -M < A * lo - R * hi < M
            && Step(seed) == (if A * lo - R * hi > 0 then A * lo - R * hi else A * lo - R * hi + M)
  {
    var hi, lo := seed / Q, seed % Q;
    assert seed == Q * hi + lo && 0 <= lo < Q && hi <= 48271;
    StepLegal(seed);
    StepFacts(seed);
    var k := A * seed / M;
    assert A * lo - R * hi == M * (k - hi) + Step(seed);
  }

  /** A value of at most 31 bits and sign survives the round trip through unsigned arithmetic. */
  lemma NoWrap(x: int, w: Width)
    requires -0x8000_0000 < x < 0x8000_0000
    ensures Signed(Unsigned(x, w), w) == x
    ensures 0 <= x ==> Unsigned(x, w) == x
  {
    if x < 0 { assert Unsigned(x, w) == x + Modulus(w); }
  }

  class RandomState {
    const width: Width
    var a: int
    var m: int
    var q: int
    var r: int
    const check: int
    var seed: int

    ghost predicate Valid()
      reads this
    {
      a == A && m == M && q == Q && r == R && Legal(seed)
    }

    /** drmRandomCreate: an illegal seed becomes the closest legal one. */
    constructor (width: Width, seed: int)
      requires 0 <= seed < Modulus(width)
      ensures Valid() && this.width == width && check == CHECK
      ensures var half := if width.W32? then 0x8000_0000 else 0x8000_0000_0000_0000;
        this.seed == if seed == 0 || seed >= half then 1 else if seed >= 2147483647 then 2147483646 else seed
    {
      this.width := width;
      a, m, check := 48271, 2147483647, 399268537;
      q, r := 2147483647 / 48271, 2147483647 % 48271;
      var s := Signed(seed, width);
      if s <= 0 { s := 1; }
      if s >= 2147483647 { s := 2147483646; }
      this.seed := s;
    }

    /** drmRandom, every operation in the types C gives it: the products, the difference and the correction
        are unsigned long, the seed is long. */
    method Random() returns (n: int)
      requires Valid()
      modifies this`seed
      ensures Valid() && seed == Step(old(seed)) && n == seed
    {
      Schrage(seed);
      var hi, lo := seed / q, seed % q;
      NoWrap(a * lo, width);
      NoWrap(r * hi, width);
      NoWrap(a * lo - r * hi, width);
      seed := Signed(Unsigned(Unsigned(a * lo, width) - Unsigned(r * hi, width), width), width);
      if seed <= 0 {
        NoWrap(seed + m, width);
        seed := Signed(AddWrapped(seed, m, width), width);
      }
      n := seed;
    }
  }

  /** seed += m in unsigned long. */
  function AddWrapped(x: int, m: int, w: Width): (u: int)
    requires -0x8000_0000 < x <= 0 <= m < 0x8000_0000
    ensures u == Unsigned(x + m, w)
  {
    Unsigned(Unsigned(x, w) + m, w)
  }
}
