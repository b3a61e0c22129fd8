/** The cyclic walk over page colours: start, start + 1, ... masked with colormask, until back at the start. */
module ColorWalk {
  import opened BitMask

  /** How many steps of the cyclic walk from `start` reach `color`. */
  function Dist(start: nat, color: nat, n: nat): nat
    requires start < n && color < n
  {
    if color >= start then color - start else color + n - start
  }

  /** The colour reached after d steps of the walk. */
  function Walk(start: nat, d: nat, n: nat): (r: nat)
    requires start < n && d <= n
    ensures r < n
  {
    if start + d < n then start + d else start + d - n
  }

  /** The walk visits every colour exactly once: Dist is the inverse of Walk. */
  lemma WalkOnce(start: nat, color: nat, d: nat, n: nat)
    requires start < n && color < n && d < n
    ensures Walk(start, d, n) == color <==> d == Dist(start, color, n)
    ensures Dist(start, color, n) < n
  {}

  /** `(color + 1) & colormask` is one step of the walk, and only the n-th step is back at the start. */
  lemma WalkStep(start: nat, d: nat, n: nat)
    requires start < n && d < n && MaskOk(n)
    ensures BitAnd(Walk(start, d, n) + 1, n - 1) == Walk(start, d + 1, n)
    ensures Walk(start, d + 1, n) == start <==> d + 1 == n
  {
    var c := Walk(start, d, n);
    ColorMask(c + 1, n);
    if c + 1 == n { ModUnique(c + 1, n, 1, 0); } else { ModUnique(c + 1, n, 0, c + 1); }
  }
}
