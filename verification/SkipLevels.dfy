/** The shape of a skip list without its pointers: entry i of the level-0 order has hs[i] levels, and the
    level-l link of entry i leads to the next entry with more than l levels. */
module SkipLevels {

  /** Index of the first entry after i with more than l levels, or |hs| if there is none. */
  function Nxt(hs: seq<nat>, i: nat, l: nat): (r: nat)
    requires i < |hs|
    ensures i < r <= |hs|
    ensures forall j :: i < j < r ==> hs[j] <= l
    ensures r < |hs| ==> hs[r] > l
    decreases |hs| - i
  {
    if i + 1 == |hs| || hs[i + 1] > l then i + 1 else Nxt(hs, i + 1, l)
  }

  /** Those three properties say which entry it is. */
  lemma NxtIs(hs: seq<nat>, i: nat, l: nat, r: nat)
    requires i < r <= |hs|
    requires forall j :: i < j < r ==> hs[j] <= l
    requires r < |hs| ==> hs[r] > l
    ensures Nxt(hs, i, l) == r
  {
    var s := Nxt(hs, i, l);
  }

  function InsertAt<T>(s: seq<T>, k: nat, x: T): (r: seq<T>)
    requires k <= |s|
    ensures |r| == |s| + 1 && r[k] == x
    ensures forall i :: 0 <= i < k ==> r[i] == s[i]
    ensures forall i :: k < i < |r| ==> r[i] == s[i - 1]
  {
    s[..k] + [x] + s[k..]
  }

  function RemoveAt<T>(s: seq<T>, k: nat): (r: seq<T>)
    requires k < |s|
    ensures |r| == |s| - 1
    ensures forall i :: 0 <= i < k ==> r[i] == s[i]
    ensures forall i :: k <= i < |r| ==> r[i] == s[i + 1]
  {
    s[..k] + s[k + 1..]
  }

  /** Where the index j of an entry moves when one is inserted at k. */
  function Up(k: nat, j: nat): nat { if j < k then j else j + 1 }

  /** A new entry at k of height h is the level-l successor of exactly those earlier entries whose successor
      was at or behind k, for the levels it has; every other successor is the same entry as before. */
  lemma NxtInsert(hs: seq<nat>, k: nat, h: nat, i: nat, l: nat)
    requires 1 <= k <= |hs| && i < |hs|
    ensures Nxt(InsertAt(hs, k, h), Up(k, i), l) ==
            if i < k <= Nxt(hs, i, l) && l < h then k else Up(k, Nxt(hs, i, l))
  {
    var r := Nxt(hs, i, l);
    var t := if i < k <= r && l < h then k else Up(k, r);
    NxtIs(InsertAt(hs, k, h), Up(k, i), l, t);
  }

  /** The new entry's own successor is the old successor of the entry u it is linked behind. */
  lemma NxtInserted(hs: seq<nat>, k: nat, h: nat, u: nat, l: nat)
    requires 1 <= k <= |hs| && u < k <= Nxt(hs, u, l)
    ensures Nxt(InsertAt(hs, k, h), k, l) == Nxt(hs, u, l) + 1
  {
    NxtIs(InsertAt(hs, k, h), k, l, Nxt(hs, u, l) + 1);
  }

  /** Removing entry k: links to it move on to its successor, all others stay. */
  lemma NxtRemove(hs: seq<nat>, k: nat, i: nat, l: nat)
    requires 1 <= k < |hs| && i < |hs| && i != k
    ensures var i' := if i < k then i else i - 1;
            var r := Nxt(hs, i, l);
            var t := if r == k then Nxt(hs, k, l) else r;
            Nxt(RemoveAt(hs, k), i', l) == if t <= k then t else t - 1
  {
    var i' := if i < k then i else i - 1;
    var r := Nxt(hs, i, l);
    var t := if r == k then Nxt(hs, k, l) else r;
    NxtIs(RemoveAt(hs, k), i', l, if t <= k then t else t - 1);
  }
}
