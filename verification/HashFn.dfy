/** The hash function of xf86drmHash.c and its scatter table. */
module HashFn {
  import opened BitMask
  import opened RandomGen
  import opened RandomPeriod

  const HASH_SIZE := 512

  /** scatter[i] is the (i + 1)-st draw of a generator seeded with 37. */
  ghost predicate IsScatter(scatter: seq<int>) {
    |scatter| == 256 && forall i :: 0 <= i < 256 ==> scatter[i] == Iter(i + 1, 37)
  }

  /** The `if (!init)` part of HashHash. */
  method InitScatter(width: Width) returns (scatter: seq<int>)
    ensures IsScatter(scatter) && forall i :: 0 <= i < 256 ==> Legal(scatter[i])
  {
    var state := new RandomState(width, 37);
    scatter := [];
    var i := 0;
    assert Iter(0, 37) == 37;
    while i < 256
      invariant i == |scatter| <= 256 && fresh(state) && state.Valid() && state.seed == Iter(i, 37)
      invariant forall k :: 0 <= k < i ==> scatter[k] == Iter(k + 1, 37) && Legal(scatter[k])
    {
      var r := state.Random();
      scatter := scatter + [r];
      i := i + 1;
    }
  }

  /** The loop in the width of unsigned long: hash = (hash << 1) + scatter[tmp & 0xff]; tmp >>= 8. */
  function Loop(scatter: seq<int>, tmp: nat, hash: int, w: Width): int
    requires |scatter| == 256
  {
    if tmp == 0 then hash else Loop(scatter, tmp / 256, Unsigned(2 * hash + scatter[tmp % 256], w), w)
  }

  /** The same without wrap-around: a weighted sum of the scattered bytes. */
  function Mix(scatter: seq<int>, tmp: nat, hash: int): int
    requires |scatter| == 256
  {
    if tmp == 0 then hash else Mix(scatter, tmp / 256, 2 * hash + scatter[tmp % 256])
  }

  function Hash(scatter: seq<int>, key: nat): (h: nat)
    requires |scatter| == 256
    ensures h < HASH_SIZE
  {
    Mix(scatter, key, 0) % HASH_SIZE
  }

  /** The number whose bytes are these, the lowest first. */
  function Number(bytes: seq<nat>): nat {
    if bytes == [] then 0 else bytes[0] + 256 * Number(bytes[1..])
  }

  /** The bytes of a key, the lowest first, without leading zeros. */
  function Bytes(key: nat): (bs: seq<nat>)
    ensures Number(bs) == key && (bs != [] ==> bs[|bs| - 1] != 0)
    ensures forall i :: 0 <= i < |bs| ==> bs[i] < 256
  {
    if key == 0 then [] else [key % 256] + Bytes(key / 256)
  }

  /** The sum of scatter[b] * 2^d, where d is how many bytes lie above b. */
  function Weighted(scatter: seq<int>, bytes: seq<nat>): int
    requires |scatter| == 256 && forall i :: 0 <= i < |bytes| ==> bytes[i] < 256
  {
    if bytes == [] then 0 else scatter[bytes[0]] * Pow2(|bytes| - 1) + Weighted(scatter, bytes[1..])
  }

  lemma FirstByte(scatter: seq<int>, key: nat)
    requires |scatter| == 256 && key > 0
    ensures Bytes(key) == [key % 256] + Bytes(key / 256)
    ensures Pow2(|Bytes(key)|) == 2 * Pow2(|Bytes(key / 256)|)
    ensures Weighted(scatter, Bytes(key)) == scatter[key % 256] * Pow2(|Bytes(key / 256)|) + Weighted(scatter, Bytes(key / 256))
  {
    assert Bytes(key)[1..] == Bytes(key / 256);
  }

  lemma {:induction false} MixIsWeighted(scatter: seq<int>, key: nat, hash: int)
    requires |scatter| == 256
    ensures Mix(scatter, key, hash) == hash * Pow2(|Bytes(key)|) + Weighted(scatter, Bytes(key))
  {
    hide Bytes, Weighted, Pow2;
    if key > 0 {
      FirstByte(scatter, key);
      MixIsWeighted(scatter, key / 256, 2 * hash + scatter[key % 256]);
      Spread(hash, scatter[key % 256], Pow2(|Bytes(key / 256)|));
    } else {
      NoBytes(scatter, hash);
    }
  }

  lemma NoBytes(scatter: seq<int>, hash: int)
    requires |scatter| == 256
    ensures Weighted(scatter, Bytes(0)) == 0 && hash * Pow2(|Bytes(0)|) == hash
  {}

  lemma Spread(h: int, s: int, p: int)
    ensures (2 * h + s) * p == h * (2 * p) + s * p
  {}

  /** The hash of a key: each byte's scatter value, doubled once for every byte above it, all added up modulo 512. */
  lemma HashIsWeighted(scatter: seq<int>, key: nat)
    requires |scatter| == 256
    ensures Hash(scatter, key) == Weighted(scatter, Bytes(key)) % 512
  {
    MixIsWeighted(scatter, key, 0);
  }

  lemma ModShift(a: int, k: int)
    ensures (a + 512 * k) % 512 == a % 512
  {}

  /** Residues modulo 512 do not see the wrap-around of either width. */
  lemma WrapInvisible(x: int, w: Width)
    ensures Unsigned(x, w) % 512 == x % 512
  {
    if w.W32? {
      ModShift(x % 0x1_0000_0000, 0x80_0000 * (x / 0x1_0000_0000));
    } else {
      ModShift(x % 0x1_0000_0000_0000_0000, 0x80_0000_0000_0000 * (x / 0x1_0000_0000_0000_0000));
    }
  }

  lemma SameResidue(a: int, b: int, s: int)
    requires a % 512 == b % 512
    ensures (2 * a + s) % 512 == (2 * b + s) % 512
  {
    ModShift(2 * (a % 512) + s, 2 * (a / 512));
    ModShift(2 * (b % 512) + s, 2 * (b / 512));
  }

  lemma {:induction false} LoopIsMix(scatter: seq<int>, tmp: nat, a: int, b: int, w: Width)
    requires |scatter| == 256 && a % 512 == b % 512
    ensures Loop(scatter, tmp, a, w) % 512 == Mix(scatter, tmp, b) % 512
  {
    hide Unsigned;
    if tmp > 0 {
      var x, y := 2 * a + scatter[tmp % 256], 2 * b + scatter[tmp % 256];
      SameResidue(a, b, scatter[tmp % 256]);
      WrapInvisible(x, w);
      LoopIsMix(scatter, tmp / 256, Unsigned(x, w), y, w);
    }
  }

  /** The bucket of a key is the same for 32- and 64-bit longs. */
  lemma WidthIndependent(scatter: seq<int>, key: nat)
    requires |scatter| == 256
    ensures Loop(scatter, key, 0, W32) % HASH_SIZE == Loop(scatter, key, 0, W64) % HASH_SIZE == Hash(scatter, key)
  {
    LoopIsMix(scatter, key, 0, 0, W32);
    LoopIsMix(scatter, key, 0, 0, W64);
  }

  lemma Draw205()
    ensures Iter(205, 37) == 2041419263
  {
    hide Iter;
    OneDraw();
    D(1, 48271, 2, 182605794); E(2, 182605794, 3, 1291394886); D(3, 1291394886, 6, 407355683);
    D(6, 407355683, 12, 1203428207); D(12, 1203428207, 24, 1402304087); E(24, 1402304087, 25, 1936030137);
    D(25, 1936030137, 50, 1675824860); E(50, 1675824860, 51, 180318217); D(51, 180318217, 102, 324855843);
    D(102, 324855843, 204, 1620397346); E(204, 1620397346, 205, 403414085);
    IterScales(205, 37);
  }

  /** The real scatter table sends key 0 to the first slot and key 204 to the last one. */
  lemma EndSlots(scatter: seq<int>)
    requires IsScatter(scatter)
    ensures Hash(scatter, 0) == 0 && Hash(scatter, 204) == HASH_SIZE - 1
  {
    hide Iter;
    Draw205();
    assert scatter[204] == 2041419263;
    assert Mix(scatter, 204, 0) == Mix(scatter, 0, scatter[204]);
  }

  /** HashHash; it terminates because the key loses a byte per turn. */
  method HashHash(scatter: seq<int>, key: nat, w: Width) returns (hash: nat)
    requires |scatter| == 256
    ensures hash == Hash(scatter, key)
  {
    var acc, tmp: nat := 0, key;
    while tmp != 0
      invariant Loop(scatter, tmp, acc, w) == Loop(scatter, key, 0, w)
      decreases tmp
    {
      acc := Unsigned(2 * acc + scatter[tmp % 256], w);
      tmp := tmp / 256;
    }
    LoopIsMix(scatter, key, 0, 0, w);
    hash := acc % HASH_SIZE;
  }
}
