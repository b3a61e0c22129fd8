/** The kernel's intrusive page lists as sequences; a page is named by its position in an array of pages. */
module PageLists {

  ghost predicate Distinct(q: seq<nat>) {
    forall i, j :: 0 <= i < j < |q| ==> q[i] != q[j]
  }

  /** LIST_REMOVE or TAILQ_REMOVE of p from one list. */
  function Without(q: seq<nat>, p: nat): (r: seq<nat>)
    ensures forall x: nat :: x != p ==> (x in r <==> x in q)
    ensures |r| == if p in q then |q| - 1 else |q|
  {
    if q == [] then [] else if q[0] == p then q[1..] else [q[0]] + Without(q[1..], p)
  }

  lemma {:induction false} WithoutDistinct(q: seq<nat>, p: nat)
    requires Distinct(q)
    ensures Distinct(Without(q, p)) && p !in Without(q, p)
  {
    if q != [] && q[0] != p {
      WithoutDistinct(q[1..], p);
      assert q[0] !in q[1..];
    }
  }

  lemma {:induction false} WithoutAt(q: seq<nat>, i: nat)
    requires i < |q| && Distinct(q)
    ensures Without(q, q[i]) == q[..i] + q[i + 1..]
  {
    if i > 0 {
      WithoutAt(q[1..], i - 1);
    }
  }

  lemma {:induction false} WithoutAbsent(q: seq<nat>, p: nat)
    requires p !in q
    ensures Without(q, p) == q
  {
    if q != [] { WithoutAbsent(q[1..], p); }
  }

  /** How many elements satisfy `on`. */
  function Count<T>(pages: seq<T>, on: T -> bool): nat {
    if pages == [] then 0 else Count(pages[..|pages| - 1], on) + if on(pages[|pages| - 1]) then 1 else 0
  }

  function Head(q: seq<nat>): (h: nat)
    ensures q != [] ==> h == q[0] && h in q
  {
    if q == [] then 0 else q[0]
  }

  /** A list of exactly the pages that `on` selects is as long as there are such pages. */
  lemma {:induction false} LengthIsCount<T>(q: seq<nat>, pages: seq<T>, on: T -> bool)
    requires Distinct(q) && forall p: nat :: p in q <==> p < |pages| && on(pages[p])
    ensures |q| == Count(pages, on)
    decreases |pages|
  {
    hide Distinct, Without;
    if pages == [] {
      var h := Head(q);
    } else {
      var n := |pages| - 1;
      WithoutDistinct(q, n);
      forall p: nat | p < n ensures pages[..n][p] == pages[p] {}
      LengthIsCount(Without(q, n), pages[..n], on);
    }
  }
}
