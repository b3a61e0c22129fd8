/** The libdrm skip list (xf86drmSL.c), as a linked structure refining a sorted map. */
module SkipLists {
  import opened SkipLevels
  import opened RandomGen
  import RandomPeriod

  const MAX_LEVEL := 16          // SL_MAX_LEVEL

  class SLEntry {
    const key: nat
    const value: nat             // the caller's void *
    var forward: seq<SLEntry?>   // forward[0..levels); the array is part of the entry

    // SLCreateEntry; the new links hold nothing yet
    constructor (maxLevel: nat, key: nat, value: nat)
      ensures this.key == key && this.value == value
      ensures forward == seq((if maxLevel > MAX_LEVEL then MAX_LEVEL else maxLevel) + 1, _ => null)
    {
      this.key := key;
      this.value := value;
      forward := seq((if maxLevel > MAX_LEVEL then MAX_LEVEL else maxLevel) + 1, _ => null);
    }
  }

  function At(nodes: seq<SLEntry>, i: nat): SLEntry? {
    if i < |nodes| then nodes[i] else null
  }

  /** The entries are distinct and, behind the head, in strictly ascending key order. */
  ghost predicate Ordered(nodes: seq<SLEntry>) {
    && (forall i, j :: 0 <= i < j < |nodes| ==> nodes[i] != nodes[j])
    && (forall i, j :: 1 <= i < j < |nodes| ==> nodes[i].key < nodes[j].key)
  }

  /** Every link is the one the heights call for: level l of the list is exactly the subsequence of level 0
      made of the entries with more than l levels. */
  ghost predicate Linked(nodes: seq<SLEntry>, hs: seq<nat>)
    reads nodes
  {
    && |hs| == |nodes|
    && (forall i :: 0 <= i < |nodes| ==> |nodes[i].forward| == hs[i])
    && (forall i, l :: 0 <= i < |nodes| && 0 <= l < hs[i] ==> nodes[i].forward[l] == At(nodes, Nxt(hs, i, l)))
  }

  /** Heights: the head has all 17 levels, an entry at most level + 1, and `level` is no larger than needed. */
  ghost predicate Heights(hs: seq<nat>, level: nat) {
    && |hs| >= 1 && hs[0] == MAX_LEVEL + 1 && level <= MAX_LEVEL
    && (forall i :: 1 <= i < |hs| ==> 2 <= hs[i] <= level + 1)
    && (level > 0 ==> Nxt(hs, 0, level) < |hs|)
  }

  /** The keys and values on the list are those of the map m. */
  ghost predicate Holds(nodes: seq<SLEntry>, m: map<nat, nat>) {
    && (forall i :: 1 <= i < |nodes| ==> nodes[i].key in m && m[nodes[i].key] == nodes[i].value)
    && (forall key :: key in m ==> OnList(nodes, key))
  }

  ghost predicate OnList(nodes: seq<SLEntry>, key: nat) {
    exists i :: 1 <= i < |nodes| && nodes[i].key == key
  }

  /** k is where key belongs: all entries before k have smaller keys, all from k on have keys >= key. */
  ghost predicate Belongs(nodes: seq<SLEntry>, key: nat, k: nat) {
    && 1 <= k <= |nodes|
    && (forall i :: 1 <= i < k ==> nodes[i].key < key)
    && (forall i :: k <= i < |nodes| ==> nodes[i].key >= key)
  }

  /** u is the last entry before position k with more than l levels. */
  ghost predicate Pred(hs: seq<nat>, k: nat, l: nat, u: nat) {
    u < k <= |hs| && hs[u] > l && Nxt(hs, u, l) >= k
  }

  /** update[l] is, for l up to the given level, the last entry before position k with more than l levels. */
  ghost predicate PredsAt(nodes: seq<SLEntry>, hs: seq<nat>, k: nat, us: seq<nat>, update: seq<SLEntry?>, level: nat) {
    && |update| == |us| == MAX_LEVEL + 1 && level <= MAX_LEVEL
    && forall l :: 0 <= l <= level ==> Pred(hs, k, l, us[l]) && us[l] < |nodes| && update[l] == nodes[us[l]]
  }

  /** SLRandomLevel: one plus the number of odd draws in a row, at most SL_MAX_LEVEL. */
  method RandomLevel(state: RandomState) returns (level: nat)
    requires state.Valid()
    modifies state
    ensures state.Valid() && 1 <= level <= 16 && state.seed == RandomPeriod.Iter(level, old(state.seed))
    ensures forall j :: 1 <= j < level ==> RandomPeriod.Iter(j, old(state.seed)) % 2 == 1
    ensures level < 16 ==> RandomPeriod.Iter(level, old(state.seed)) % 2 == 0
  {
    level := 1;
    assert RandomPeriod.Iter(0, state.seed) == state.seed;
    var r := state.Random();
    while r % 2 == 1 && level < MAX_LEVEL
      invariant state.Valid() && 1 <= level <= MAX_LEVEL && r == state.seed == RandomPeriod.Iter(level, old(state.seed))
      invariant forall j :: 1 <= j < level ==> RandomPeriod.Iter(j, old(state.seed)) % 2 == 1
      decreases MAX_LEVEL - level
    {
      level := level + 1;
      r := state.Random();
    }
  }

  lemma {:induction false} FindPlace(nodes: seq<SLEntry>, key: nat) returns (k: nat)
    requires Ordered(nodes) && |nodes| >= 1
    ensures Belongs(nodes, key, k)
  {
    k := 1;
    while k < |nodes| && nodes[k].key < key
      invariant 1 <= k <= |nodes| && forall i :: 1 <= i < k ==> nodes[i].key < key
    {
      k := k + 1;
    }
  }

  class SkipList {
    var level: nat
    var count: int
    const head: SLEntry
    var p0: SLEntry?
    ghost var nodes: seq<SLEntry>      // head, then the entries in order
    ghost var hs: seq<nat>             // their heights
    ghost var contents: map<nat, nat>  // the map the list stands for

    ghost predicate Valid()
      reads this, nodes
    {
      && |nodes| >= 1 && nodes[0] == head
      && Ordered(nodes) && Linked(nodes, hs) && Heights(hs, level)
      && Holds(nodes, contents) && count == |contents| == |nodes| - 1
    }

    // drmSLCreate
    constructor ()
      ensures Valid() && contents == map[] && nodes == [head] && fresh(head)
    {
      level := 0;
      count := 0;
      p0 := null;
      head := new SLEntry(MAX_LEVEL, 0, 0);
      new;
      nodes := [head];
      hs := [MAX_LEVEL + 1];
      contents := map[];
      HeadAlone(head);
    }

    /** SLLocate: the entry key belongs at and, for every level in use, the entry it would be linked behind. */
    method Locate(key: nat) returns (entry: SLEntry?, update: seq<SLEntry?>, ghost k: nat, ghost us: seq<nat>)
      requires Valid()
      ensures Belongs(nodes, key, k) && entry == At(nodes, k)
      ensures PredsAt(nodes, hs, k, us, update, level)
      ensures (entry != null && entry.key == key) <==> key in contents
    {
      hide Holds, Nxt, Linked, Ordered, Heights;
      HeightFacts(hs, level);
      LinkedFacts(nodes, hs);
      k := FindPlace(nodes, key);
      update := seq(MAX_LEVEL + 1, _ => null);
      us := seq(MAX_LEVEL + 1, _ => 0);
      var e := head;
      ghost var p: nat := 0;
      var i: int := level;
      while i >= 0
        invariant -1 <= i <= level && |update| == |us| == MAX_LEVEL + 1
        invariant p < k && nodes[p] == e && hs[p] > i
        invariant forall l :: i < l <= level ==> Pred(hs, k, l, us[l]) && update[l] == nodes[us[l]]
        invariant i < 0 ==> Nxt(hs, p, 0) >= k
      {
        e, p := Advance(e, i, key, nodes, hs, p, k);
        us := us[i := p];
        update := update[i := e];
        i := i - 1;
      }
      LinkFact(nodes, hs, p, 0);
      NextDoor(hs, p, k);
      entry := e.forward[0];
      ThereOrNot(nodes, contents, key, k);
    }

    /** drmSLInsert; `rand` is what SLRandomLevel drew. */
    method Insert(key: nat, value: nat, rand: nat) returns (ret: int, ghost k: nat)
      requires Valid() && 1 <= rand <= MAX_LEVEL
      modifies this, nodes
      ensures Valid() && p0 == old(p0)
      ensures ret == if key in old(contents) then 1 else 0
      ensures ret == 1 ==> contents == old(contents) && nodes == old(nodes) && level == old(level)
      ensures ret == 0 ==> contents == old(contents)[key := value]
      ensures ret == 0 ==> level == if rand > old(level) then old(level) + 1 else old(level)
      ensures ret == 0 ==> k <= |old(hs)| && hs == InsertAt(old(hs), k, (if rand > old(level) then old(level) + 1 else rand) + 1)
      ensures ret == 0 ==> 1 <= k <= |old(nodes)| && k < |nodes| && fresh(nodes[k]) && nodes == InsertAt(old(nodes), k, nodes[k])
      ensures forall n :: 0 <= n < |nodes| ==> nodes[n] in old(nodes) || fresh(nodes[n])
    {
      hide Holds, Nxt, Linked, Ordered, Heights, Pred, Belongs, PredsAt, InsertAt;
      HeightFacts(hs, level);
      var entry, update, k0, us := Locate(key);
      k := k0;
      BelongsFacts(nodes, key, k);
      ThereOrNot(nodes, contents, key, k);
      if entry != null && entry.key == key { return 1, k; }
      LinkedFacts(nodes, hs);
      PredsForLevel(nodes, hs, k, us, update, level, rand);
      var lvl := rand;
      if lvl > level {
        level := level + 1;
        lvl := level;
        update, us := update[lvl := head], us[lvl := 0];
      }
      Add(key, value, update, lvl, old(level), k, us);
      ret := 0;
    }

    /** The part of drmSLInsert that creates the entry and links it in. */
    method Add(key: nat, value: nat, update: seq<SLEntry?>, lvl: nat, ghost level0: nat, ghost k: nat, ghost us: seq<nat>)
      requires |nodes| >= 1 && nodes[0] == head && Ordered(nodes) && Linked(nodes, hs) && Heights(hs, level0)
      requires Holds(nodes, contents) && count == |contents| == |nodes| - 1
      requires 1 <= lvl <= level0 + 1 && lvl <= MAX_LEVEL && level == if lvl > level0 then lvl else level0
      requires Belongs(nodes, key, k) && key !in contents && 1 <= k <= |nodes| && PredsAt(nodes, hs, k, us, update, lvl)
      modifies this`nodes, this`hs, this`contents, this`count, nodes
      ensures Valid() && contents == old(contents)[key := value]
      ensures k <= |old(hs)| && hs == InsertAt(old(hs), k, lvl + 1)
      ensures k < |nodes| && fresh(nodes[k]) && nodes == InsertAt(old(nodes), k, nodes[k])
    {
      hide Holds, Nxt, Linked, Ordered, Heights, Pred, Belongs, PredsAt, InsertAt, OnList;
      SizesMatch(nodes, hs);
      ThereOrNot(nodes, contents, key, k);
      InsertedHeights(hs, level0, k, lvl);
      var e := new SLEntry(lvl, key, value);
      InsertedMap(nodes, contents, k, e);
      InsertedOrder(nodes, k, e);
      LinkIn(e, update, lvl, nodes, hs, us, k);
      Commit(k, e, InsertAt(hs, k, lvl + 1));
      AtPlace(old(nodes), k, e);
    }

    /** ++list->count, and the ghost record of the new entry. */
    method Commit(ghost k: nat, ghost e: SLEntry, ghost gs: seq<nat>)
      requires |nodes| >= 1 && nodes[0] == head && 1 <= k <= |nodes| && e.key !in contents
      requires Ordered(InsertAt(nodes, k, e)) && Linked(InsertAt(nodes, k, e), gs) && Heights(gs, level)
      requires Holds(InsertAt(nodes, k, e), contents[e.key := e.value]) && count == |contents| == |nodes| - 1
      modifies this`nodes, this`hs, this`contents, this`count
      ensures Valid() && nodes == InsertAt(old(nodes), k, e) && contents == old(contents)[e.key := e.value] && hs == gs
    {
      hide Holds, Nxt, Linked, Ordered, Heights, InsertAt;
      assert |contents[e.key := e.value]| == |contents| + 1;
      nodes, hs := InsertAt(nodes, k, e), gs;
      contents := contents[e.key := e.value];
      count := count + 1;
    }

    /** drmSLDelete. */
    method Delete(key: nat) returns (ret: int, ghost k: nat)
      requires Valid()
      modifies this, nodes
      ensures Valid() && p0 == old(p0)
      ensures ret == if key in old(contents) then 0 else 1
      ensures ret == 1 ==> contents == old(contents) && nodes == old(nodes) && level == old(level)
      ensures ret == 0 ==> contents == old(contents) - {key} && k < |old(hs)| && hs == RemoveAt(old(hs), k)
      ensures ret == 0 ==> 1 <= k < |old(nodes)| && old(nodes)[k].key == key && nodes == RemoveAt(old(nodes), k)
      ensures forall n :: 0 <= n < |nodes| ==> nodes[n] in old(nodes)
    {
      hide Holds, Nxt, Linked, Ordered, Heights, Pred, Belongs, PredsAt, RemoveAt, Loose;
      var entry, update, k0, us := Locate(key);
      k := k0;
      BelongsFacts(nodes, key, k);
      ThereOrNot(nodes, contents, key, k);
      if entry == null || entry.key != key { return 1, k; }
      LinkedFacts(nodes, hs);
      HeightFacts(hs, level);
      RemovedMap(nodes, contents, k);
      RemovedOrder(nodes, k);
      RemovedHeights(hs, level, k);
      LinkOut(entry, update, level, nodes, hs, us, k);
      nodes, hs := RemoveAt(nodes, k), RemoveAt(hs, k);
      contents := contents - {key};
      LowerLevel();
      count := count - 1;
      ret := 0;
    }

    /** while (list->level && !list->head->forward[list->level]) --list->level */
    method LowerLevel()
      requires |nodes| >= 1 && nodes[0] == head && Linked(nodes, hs) && Loose(hs, level)
      modifies this`level
      ensures Heights(hs, level)
    {
      hide Linked, Nxt;
      while level > 0 && (HeadLinkThere(nodes, hs, level); head.forward[level] == null)
        invariant Loose(hs, level)
      {
        level := level - 1;
      }
    }

    /** drmSLLookup: on success the pointer stored is the entry itself, not the value kept in it. */
    method Lookup(key: nat) returns (ret: int, value: SLEntry?)
      requires Valid()
      ensures ret == if key in contents then 0 else -1
      ensures ret == 0 ==> value != null && value in nodes && value.key == key && value.value == contents[key]
      ensures ret == -1 ==> value == null
    {
      hide Nxt, Linked, Heights, PredsAt;
      var entry, update, k, us := Locate(key);
      ThereOrNot(nodes, contents, key, k);
      if entry != null && entry.key == key {
        return 0, entry;
      }
      return -1, null;
    }

    /** drmSLNext, when p0 stands at position pos of the list. */
    method Next(ghost pos: nat) returns (ret: int, key: nat, value: nat)
      requires Valid() && pos >= 1 && p0 == At(nodes, pos)
      modifies this`p0
      ensures Valid()
      ensures pos < |nodes| ==> ret == 1 && key == nodes[pos].key && value == nodes[pos].value && p0 == At(nodes, pos + 1)
      ensures pos >= |nodes| ==> ret == 0 && p0 == null
    {
      hide Nxt, Linked, Heights, Ordered, Holds;
      var entry := p0;
      if entry != null {
        Level0(nodes, hs, level, pos);
        p0 := entry.forward[0];
        return 1, entry.key, entry.value;
      }
      p0 := null;
      return 0, 0, 0;
    }

    /** drmSLFirst. */
    method First() returns (ret: int, key: nat, value: nat)
      requires Valid()
      modifies this`p0
      ensures Valid()
      ensures |nodes| > 1 ==> ret == 1 && key == nodes[1].key && value == nodes[1].value && p0 == At(nodes, 2)
      ensures |nodes| == 1 ==> ret == 0 && p0 == null
    {
      hide Nxt, Linked, Heights, Ordered, Holds;
      Level0(nodes, hs, level, 0);
      p0 := head.forward[0];
      ret, key, value := Next(1);
    }

    /** for (ok = drmSLFirst(...); ok; ok = drmSLNext(...)): every key of the map once, ascending, with its value. */
    method Enumerate() returns (pairs: seq<(nat, nat)>)
      requires Valid()
      modifies this`p0
      ensures Valid()
      ensures forall i, j :: 0 <= i < j < |pairs| ==> pairs[i].0 < pairs[j].0
      ensures forall p :: p in pairs <==> p.0 in contents && contents[p.0] == p.1
      ensures |pairs| == count
    {
      hide Nxt, Linked, Heights, Ordered, Holds;
      pairs := [];
      var ok, key, value := First();
      while ok == 1
        invariant Valid() && unchanged(this`nodes) && unchanged(this`contents) && unchanged(this`count)
        invariant ok == 0 || ok == 1
        invariant ok == 1 ==> |pairs| + 1 < |nodes| && key == nodes[|pairs| + 1].key && value == nodes[|pairs| + 1].value
        invariant ok == 1 ==> p0 == At(nodes, |pairs| + 2)
        invariant ok == 0 ==> |pairs| + 1 == |nodes|
        invariant forall i :: 0 <= i < |pairs| ==> i + 1 < |nodes| && pairs[i] == (nodes[i + 1].key, nodes[i + 1].value)
        decreases |nodes| - |pairs|, ok
      {
        pairs := pairs + [(key, value)];
        ok, key, value := Next(|pairs| + 1);
      }
      PairsAreMap(nodes, contents, pairs);
    }
  }

  lemma Level0(nodes: seq<SLEntry>, hs: seq<nat>, level: nat, i: nat)
    requires Linked(nodes, hs) && Heights(hs, level) && i < |nodes|
    ensures |nodes[i].forward| > 0 && nodes[i].forward[0] == At(nodes, i + 1)
  {
    LinkFact(nodes, hs, i, 0);
  }

  lemma PairsAreMap(nodes: seq<SLEntry>, m: map<nat, nat>, pairs: seq<(nat, nat)>)
    requires Ordered(nodes) && Holds(nodes, m) && |pairs| + 1 == |nodes|
    requires forall i :: 0 <= i < |pairs| ==> pairs[i] == (nodes[i + 1].key, nodes[i + 1].value)
    ensures forall i, j :: 0 <= i < j < |pairs| ==> pairs[i].0 < pairs[j].0
    ensures forall p :: p in pairs <==> p.0 in m && m[p.0] == p.1
  {
    forall p: (nat, nat) | p.0 in m && m[p.0] == p.1 ensures p in pairs {
      assert OnList(nodes, p.0);
      var i :| 1 <= i < |nodes| && nodes[i].key == p.0;
      assert pairs[i - 1] == p;
    }
  }

  /** Heights as they may be just after a deletion: `level` large enough, perhaps too large. */
  ghost predicate Loose(hs: seq<nat>, level: nat) {
    && |hs| >= 1 && hs[0] == MAX_LEVEL + 1 && level <= MAX_LEVEL
    && (forall i :: 1 <= i < |hs| ==> 2 <= hs[i] <= level + 1)
  }

  lemma HeadLinkThere(nodes: seq<SLEntry>, hs: seq<nat>, level: nat)
    requires |nodes| >= 1 && Linked(nodes, hs) && Loose(hs, level)
    ensures level < |nodes[0].forward| && (nodes[0].forward[level] == null <==> Nxt(hs, 0, level) == |hs|)
  {
    hide Nxt;
    LinkFact(nodes, hs, 0, level);
  }

  lemma RemovedHeights(hs: seq<nat>, level: nat, k: nat)
    requires Heights(hs, level) && 1 <= k < |hs|
    ensures Loose(RemoveAt(hs, k), level)
  {}

  lemma RemovedOrder(nodes: seq<SLEntry>, k: nat)
    requires Ordered(nodes) && 1 <= k < |nodes|
    ensures Ordered(RemoveAt(nodes, k))
  {}

  lemma RemovedMap(nodes: seq<SLEntry>, m: map<nat, nat>, k: nat)
    requires Ordered(nodes) && Holds(nodes, m) && 1 <= k < |nodes|
    ensures nodes[k].key in m && Holds(RemoveAt(nodes, k), m - {nodes[k].key})
  {
    hide Ordered, RemoveAt;
    KeyElsewhere(nodes, k);
    var ns := RemoveAt(nodes, k);
    forall key | key in m - {nodes[k].key} ensures OnList(ns, key) {
      assert OnList(nodes, key);
      var i :| 1 <= i < |nodes| && nodes[i].key == key;
      assert ns[if i < k then i else i - 1].key == key;
    }
  }

  lemma KeyElsewhere(nodes: seq<SLEntry>, k: nat)
    requires Ordered(nodes) && 1 <= k < |nodes|
    ensures forall i :: 1 <= i < |nodes| && i != k ==> nodes[i].key != nodes[k].key
  {}

  /** While entry k is being unlinked: below level i the links to it skip it, above they still lead to it. */
  ghost predicate HalfUnlinked(nodes: seq<SLEntry>, hs: seq<nat>, k: nat, i: nat)
    reads nodes
  {
    && |hs| == |nodes| && 1 <= k < |nodes|
    && (forall j :: 0 <= j < |nodes| ==> |nodes[j].forward| == hs[j])
    && (forall l :: 0 <= l < hs[k] ==> nodes[k].forward[l] == At(nodes, Nxt(hs, k, l)))
    && (forall j, l :: 0 <= j < |nodes| && j != k && 0 <= l < hs[j] ==>
          nodes[j].forward[l] == At(nodes, if l < i && Nxt(hs, j, l) == k then Nxt(hs, k, l) else Nxt(hs, j, l)))
  }

  method UnlinkLevel(entry: SLEntry, prev: SLEntry, i: nat, ghost nodes: seq<SLEntry>, ghost hs: seq<nat>, ghost k: nat, ghost u: nat)
    requires HalfUnlinked(nodes, hs, k, i) && Ordered(nodes) && entry == nodes[k]
    requires Pred(hs, k, i, u) && prev == nodes[u]
    modifies prev
    ensures HalfUnlinked(nodes, hs, k, i + 1)
  {
    hide Nxt, At, Pred, Ordered;
    NowhereElse(nodes, u);
    PredFacts(hs, k, i, u);
    OnlyPredPoints(hs, k, i, u);
    LinkHere(nodes, hs, k, i, u);
    if prev.forward[i] == entry {
      prev.forward := prev.forward[i := entry.forward[i]];
    }
  }

  /** The level-i link of entry u leads to entry k exactly if k is its level-i successor. */
  lemma LinkHere(nodes: seq<SLEntry>, hs: seq<nat>, k: nat, i: nat, u: nat)
    requires HalfUnlinked(nodes, hs, k, i) && Ordered(nodes) && u < k && hs[u] > i
    ensures i < |nodes[u].forward| && (nodes[u].forward[i] == nodes[k] <==> Nxt(hs, u, i) == k)
    ensures Nxt(hs, u, i) == k ==> i < hs[k]
  {
    hide Nxt;
  }

  lemma OnlyPredPoints(hs: seq<nat>, k: nat, l: nat, u: nat)
    requires Pred(hs, k, l, u) && k < |hs|
    ensures forall j :: 0 <= j < |hs| && hs[j] > l && Nxt(hs, j, l) == k ==> j == u
    ensures Nxt(hs, u, l) == k <==> hs[k] > l
  {
    forall j: nat | j < |hs| && hs[j] > l && Nxt(hs, j, l) == k ensures j == u { PredUnique(hs, k, l, j, u); }
  }

  method LinkOut(entry: SLEntry, update: seq<SLEntry?>, level: nat, ghost nodes: seq<SLEntry>, ghost hs: seq<nat>,
                 ghost us: seq<nat>, ghost k: nat)
    requires Linked(nodes, hs) && Ordered(nodes) && Heights(hs, level) && 1 <= k < |nodes| && entry == nodes[k]
    requires PredsAt(nodes, hs, k, us, update, level)
    modifies nodes
    ensures Linked(RemoveAt(nodes, k), RemoveAt(hs, k))
  {
    hide Linked, HalfUnlinked, Ordered, Nxt, Pred, RemoveAt, Heights;
    StartUnlinking(nodes, hs, k);
    var i := 0;
    while i <= level
      invariant i <= level + 1 && HalfUnlinked(nodes, hs, k, i)
    {
      UnlinkLevel(entry, update[i], i, nodes, hs, k, us[i]);
      i := i + 1;
    }
    RemovedLinked(nodes, hs, k, level);
  }

  lemma StartUnlinking(nodes: seq<SLEntry>, hs: seq<nat>, k: nat)
    requires Linked(nodes, hs) && 1 <= k < |nodes|
    ensures HalfUnlinked(nodes, hs, k, 0)
  {
    hide Nxt;
  }

  lemma RemovedLink(nodes: seq<SLEntry>, hs: seq<nat>, k: nat, level: nat, j: nat, l: nat)
    requires HalfUnlinked(nodes, hs, k, level + 1) && hs[k] <= level + 1
    requires j < |nodes| && j != k && l < hs[j]
    ensures nodes[j].forward[l] == At(RemoveAt(nodes, k), Nxt(RemoveAt(hs, k), if j < k then j else j - 1, l))
  {
    hide Nxt, HalfUnlinked, At, RemoveAt;
    HalfUnlinkedLink(nodes, hs, k, level + 1, j, l);
    NxtRemove(hs, k, j, l);
    AtRemoved(nodes, k, if Nxt(hs, j, l) == k then Nxt(hs, k, l) else Nxt(hs, j, l));
  }

  lemma HalfUnlinkedLink(nodes: seq<SLEntry>, hs: seq<nat>, k: nat, i: nat, j: nat, l: nat)
    requires HalfUnlinked(nodes, hs, k, i) && hs[k] <= i
    requires j < |nodes| && j != k && l < hs[j]
    ensures 1 <= k < |nodes| == |hs| && l < |nodes[j].forward|
    ensures nodes[j].forward[l] == At(nodes, if Nxt(hs, j, l) == k then Nxt(hs, k, l) else Nxt(hs, j, l))
  {
    hide Nxt, At;
    NxtHeight(hs, j, l);
  }

  lemma NxtHeight(hs: seq<nat>, j: nat, l: nat)
    requires j < |hs|
    ensures Nxt(hs, j, l) < |hs| ==> hs[Nxt(hs, j, l)] > l
  {}

  lemma AtRemoved(nodes: seq<SLEntry>, k: nat, t: nat)
    requires k < |nodes| && t != k
    ensures At(nodes, t) == At(RemoveAt(nodes, k), if t <= k then t else t - 1)
  {}

  lemma RemovedLinked(nodes: seq<SLEntry>, hs: seq<nat>, k: nat, level: nat)
    requires HalfUnlinked(nodes, hs, k, level + 1) && Heights(hs, level)
    ensures Linked(RemoveAt(nodes, k), RemoveAt(hs, k))
  {
    hide Nxt, At, HalfUnlinked;
    HalfUnlinkedSizes(nodes, hs, k, level + 1);
    var ns, gs := RemoveAt(nodes, k), RemoveAt(hs, k);
    forall j', l: nat | 0 <= j' < |ns| && l < gs[j'] ensures ns[j'].forward[l] == At(ns, Nxt(gs, j', l)) {
      RemovedLink(nodes, hs, k, level, if j' < k then j' else j' + 1, l);
    }
  }

  lemma HalfUnlinkedSizes(nodes: seq<SLEntry>, hs: seq<nat>, k: nat, i: nat)
    requires HalfUnlinked(nodes, hs, k, i)
    ensures |hs| == |nodes| && 1 <= k < |nodes| && forall j :: 0 <= j < |nodes| ==> |nodes[j].forward| == hs[j]
  {
    hide Nxt, At;
  }

  /** The inner loop of SLLocate: along level i up to the last entry with a smaller key. */
  method Advance(from: SLEntry, i: nat, key: nat, ghost nodes: seq<SLEntry>, ghost hs: seq<nat>, ghost p0: nat, ghost k: nat)
    returns (e: SLEntry, ghost p: nat)
    requires Linked(nodes, hs) && Belongs(nodes, key, k) && p0 < k && from == nodes[p0] && hs[p0] > i
    ensures p < k && nodes[p] == e && Pred(hs, k, i, p)
  {
    hide Linked, Nxt;
    LinkedFacts(nodes, hs);
    e, p := from, p0;
    LinkFact(nodes, hs, p, i);
    while e.forward[i] != null && e.forward[i].key < key
      invariant p < k && nodes[p] == e && hs[p] > i
      invariant i < |e.forward| && e.forward[i] == At(nodes, Nxt(hs, p, i))
      decreases |nodes| - p
    {
      LinkFact(nodes, hs, p, i);
      p := Nxt(hs, p, i);
      e := e.forward[i];
      LinkFact(nodes, hs, p, i);
    }
  }

  lemma BelongsFacts(nodes: seq<SLEntry>, key: nat, k: nat)
    requires Belongs(nodes, key, k)
    ensures 1 <= k <= |nodes|
  {}

  lemma LinkedFacts(nodes: seq<SLEntry>, hs: seq<nat>)
    requires Linked(nodes, hs)
    ensures |hs| == |nodes| && forall i :: 0 <= i < |nodes| ==> |nodes[i].forward| == hs[i]
  {}

  /** The key is in the map exactly when the entry found by SLLocate carries it. */
  lemma ThereOrNot(nodes: seq<SLEntry>, m: map<nat, nat>, key: nat, k: nat)
    requires Ordered(nodes) && Holds(nodes, m) && Belongs(nodes, key, k)
    ensures key in m <==> k < |nodes| && nodes[k].key == key
  {
    if key in m {
      var i :| 1 <= i < |nodes| && nodes[i].key == key;
      assert i >= k && nodes[k].key >= key;
    }
  }

  lemma SizesMatch(nodes: seq<SLEntry>, hs: seq<nat>)
    requires Linked(nodes, hs)
    ensures |hs| == |nodes|
  {}

  lemma AtPlace(nodes: seq<SLEntry>, k: nat, e: SLEntry)
    requires k <= |nodes|
    ensures |InsertAt(nodes, k, e)| == |nodes| + 1 && InsertAt(nodes, k, e)[k] == e
  {}

  /** Between the new entry's creation and its last link: below level i it is linked in, above it is not. */
  ghost predicate HalfLinked(nodes: seq<SLEntry>, hs: seq<nat>, e: SLEntry, us: seq<nat>, i: nat, lvl: nat)
    reads nodes, e
  {
    e !in nodes && HalfLinks(Forwards(nodes), e.forward, nodes, hs, e, us, i, lvl)
  }

  /** The forward arrays of the entries. */
  ghost function Forwards(nodes: seq<SLEntry>): (fs: seq<seq<SLEntry?>>)
    reads nodes
    ensures |fs| == |nodes| && forall j :: 0 <= j < |nodes| ==> fs[j] == nodes[j].forward
  {
    seq(|nodes|, j requires 0 <= j < |nodes| reads nodes => nodes[j].forward)
  }

  ghost predicate HalfLinks(fs: seq<seq<SLEntry?>>, ef: seq<SLEntry?>, nodes: seq<SLEntry>, hs: seq<nat>, e: SLEntry,
                            us: seq<nat>, i: nat, lvl: nat)
  {
    && |hs| == |nodes| == |fs| && |us| == MAX_LEVEL + 1 && lvl <= MAX_LEVEL && i <= lvl + 1 && |ef| == lvl + 1
    && (forall l :: 0 <= l < i ==> us[l] < |nodes| && ef[l] == At(nodes, Nxt(hs, us[l], l)))
    && (forall j :: 0 <= j < |nodes| ==> |fs[j]| == hs[j])
    && (forall j, l :: 0 <= j < |nodes| && 0 <= l < hs[j] ==>
          fs[j][l] == if l < i && us[l] == j then e else At(nodes, Nxt(hs, j, l)))
  }

  /** One turn of the "fix up forward pointers" loop. */
  method LinkLevel(e: SLEntry, prev: SLEntry, i: nat, ghost nodes: seq<SLEntry>, ghost hs: seq<nat>, ghost us: seq<nat>,
                   ghost k: nat, ghost lvl: nat)
    requires HalfLinked(nodes, hs, e, us, i, lvl) && Ordered(nodes) && i <= lvl
    requires Pred(hs, k, i, us[i]) && prev == nodes[us[i]]
    modifies e, prev
    ensures HalfLinked(nodes, hs, e, us, i + 1, lvl)
  {
    hide Nxt, Pred, Ordered, At, HalfLinks;
    HalfUs(nodes, hs, e, us, i, lvl);
    PredFacts(hs, k, i, us[i]);
    NowhereElse(nodes, us[i]);
    ghost var u, fs, ef := us[i], Forwards(nodes), e.forward;
    LevelLinked(fs, ef, nodes, hs, e, us, i, lvl);
    e.forward := e.forward[i := prev.forward[i]];
    prev.forward := prev.forward[i := e];
    assert Forwards(nodes) == fs[u := fs[u][i := e]];
  }

  lemma HalfUs(nodes: seq<SLEntry>, hs: seq<nat>, e: SLEntry, us: seq<nat>, i: nat, lvl: nat)
    requires HalfLinked(nodes, hs, e, us, i, lvl)
    ensures lvl < |us| && |hs| == |nodes| && |e.forward| == lvl + 1 && e !in nodes
  {
    hide Nxt, At;
  }

  /** The two assignments, on the forward arrays alone. */
  lemma LevelLinked(fs: seq<seq<SLEntry?>>, ef: seq<SLEntry?>, nodes: seq<SLEntry>, hs: seq<nat>, e: SLEntry,
                    us: seq<nat>, i: nat, lvl: nat)
    requires HalfLinks(fs, ef, nodes, hs, e, us, i, lvl) && i <= lvl && us[i] < |hs| && hs[us[i]] > i
    ensures us[i] < |fs| && i < |fs[us[i]]| && i < |ef|
    ensures HalfLinks(fs[us[i] := fs[us[i]][i := e]], ef[i := fs[us[i]][i]], nodes, hs, e, us, i + 1, lvl)
  {
    hide Nxt, At;
  }

  /** "Fix up forward pointers". */
  method LinkIn(e: SLEntry, update: seq<SLEntry?>, lvl: nat, ghost nodes: seq<SLEntry>, ghost hs: seq<nat>,
                ghost us: seq<nat>, ghost k: nat)
    requires Linked(nodes, hs) && Ordered(nodes) && e !in nodes && |e.forward| == lvl + 1 && lvl <= MAX_LEVEL
    requires 1 <= k <= |nodes| && PredsAt(nodes, hs, k, us, update, lvl)
    modifies e, nodes
    ensures Linked(InsertAt(nodes, k, e), InsertAt(hs, k, lvl + 1))
  {
    hide Linked, HalfLinked, Ordered, Nxt, Pred, InsertAt;
    Unlinked(nodes, hs, e, us, lvl);
    LinkedFacts(nodes, hs);
    var i := 0;
    while i <= lvl
      invariant i <= lvl + 1 && HalfLinked(nodes, hs, e, us, i, lvl)
    {
      LinkLevel(e, update[i], i, nodes, hs, us, k, lvl);
      i := i + 1;
    }
    InsertedLinked(nodes, hs, e, us, k, lvl);
  }

  lemma Unlinked(nodes: seq<SLEntry>, hs: seq<nat>, e: SLEntry, us: seq<nat>, lvl: nat)
    requires Linked(nodes, hs) && e !in nodes && |e.forward| == lvl + 1 && |us| == MAX_LEVEL + 1 && lvl <= MAX_LEVEL
    ensures HalfLinked(nodes, hs, e, us, 0, lvl)
  {}

  lemma NowhereElse(nodes: seq<SLEntry>, u: nat)
    requires Ordered(nodes)
    ensures forall j :: 0 <= j < |nodes| && j != u && u < |nodes| ==> nodes[j] != nodes[u]
  {}

  lemma PredFacts(hs: seq<nat>, k: nat, l: nat, u: nat)
    requires Pred(hs, k, l, u)
    ensures u < k <= |hs| && hs[u] > l
  {}

  lemma PredUnique(hs: seq<nat>, k: nat, l: nat, u: nat, v: nat)
    requires Pred(hs, k, l, u) && Pred(hs, k, l, v)
    ensures u == v
  {}

  lemma NewEntryLink(nodes: seq<SLEntry>, hs: seq<nat>, e: SLEntry, us: seq<nat>, k: nat, lvl: nat, l: nat)
    requires HalfLinked(nodes, hs, e, us, lvl + 1, lvl) && 1 <= k <= |hs| && l <= lvl && Pred(hs, k, l, us[l])
    ensures e.forward[l] == At(InsertAt(nodes, k, e), Nxt(InsertAt(hs, k, lvl + 1), k, l))
  {
    hide Nxt, HalfLinked;
    HalfNew(nodes, hs, e, us, lvl, l);
    NxtInserted(hs, k, lvl + 1, us[l], l);
  }

  lemma OldEntryLink(nodes: seq<SLEntry>, hs: seq<nat>, e: SLEntry, us: seq<nat>, k: nat, lvl: nat, i: nat, l: nat)
    requires HalfLinked(nodes, hs, e, us, lvl + 1, lvl) && 1 <= k <= |hs|
    requires l <= lvl ==> Pred(hs, k, l, us[l])
    requires i < |nodes| && l < hs[i]
    ensures nodes[i].forward[l] == At(InsertAt(nodes, k, e), Nxt(InsertAt(hs, k, lvl + 1), Up(k, i), l))
  {
    hide Nxt, InsertAt, HalfLinked;
    HalfOld(nodes, hs, e, us, lvl, i, l);
    NxtInsert(hs, k, lvl + 1, i, l);
    if l <= lvl && Pred(hs, k, l, i) { PredUnique(hs, k, l, i, us[l]); }
  }

  /** Once all its levels are linked in, the new entry at position k makes a properly linked list. */
  lemma InsertedLinked(nodes: seq<SLEntry>, hs: seq<nat>, e: SLEntry, us: seq<nat>, k: nat, lvl: nat)
    requires HalfLinked(nodes, hs, e, us, lvl + 1, lvl) && 1 <= k <= |hs|
    requires forall l :: 0 <= l <= lvl ==> Pred(hs, k, l, us[l])
    ensures Linked(InsertAt(nodes, k, e), InsertAt(hs, k, lvl + 1))
  {
    hide HalfLinked, Nxt, At, Pred, InsertAt;
    HalfSizes(nodes, hs, e, us, lvl);
    var ns, gs := InsertAt(nodes, k, e), InsertAt(hs, k, lvl + 1);
    forall i', l: nat | 0 <= i' < |ns| && l < gs[i'] ensures ns[i'].forward[l] == At(ns, Nxt(gs, i', l)) {
      if i' == k {
        NewEntryLink(nodes, hs, e, us, k, lvl, l);
      } else {
        OldEntryLink(nodes, hs, e, us, k, lvl, if i' < k then i' else i' - 1, l);
      }
    }
  }

  lemma HalfOld(nodes: seq<SLEntry>, hs: seq<nat>, e: SLEntry, us: seq<nat>, lvl: nat, i: nat, l: nat)
    requires HalfLinked(nodes, hs, e, us, lvl + 1, lvl) && i < |nodes| && l < hs[i]
    ensures |hs| == |nodes| && |us| == MAX_LEVEL + 1 && lvl <= MAX_LEVEL && l < |nodes[i].forward|
    ensures nodes[i].forward[l] == if l <= lvl && us[l] == i then e else At(nodes, Nxt(hs, i, l))
  {
    hide Nxt, At;
  }

  lemma HalfNew(nodes: seq<SLEntry>, hs: seq<nat>, e: SLEntry, us: seq<nat>, lvl: nat, l: nat)
    requires HalfLinked(nodes, hs, e, us, lvl + 1, lvl) && l <= lvl
    ensures l < |us| && us[l] < |nodes| == |hs| && l < |e.forward| && e.forward[l] == At(nodes, Nxt(hs, us[l], l))
  {
    hide Nxt, At;
  }

  lemma HalfSizes(nodes: seq<SLEntry>, hs: seq<nat>, e: SLEntry, us: seq<nat>, lvl: nat)
    requires HalfLinked(nodes, hs, e, us, lvl + 1, lvl)
    ensures |hs| == |nodes| && |us| == MAX_LEVEL + 1 && |e.forward| == lvl + 1
    ensures forall j :: 0 <= j < |nodes| ==> |nodes[j].forward| == hs[j]
  {}

  lemma InsertedOrder(nodes: seq<SLEntry>, k: nat, e: SLEntry)
    requires Ordered(nodes) && Belongs(nodes, e.key, k) && e !in nodes && (k < |nodes| ==> nodes[k].key != e.key)
    ensures Ordered(InsertAt(nodes, k, e))
  {
    var ns := InsertAt(nodes, k, e);
    forall i, j | 1 <= i < j < |ns| ensures ns[i].key < ns[j].key {
      if i == k && j > k + 1 { assert nodes[k].key < nodes[j - 1].key; }
    }
  }

  lemma InsertedMap(nodes: seq<SLEntry>, m: map<nat, nat>, k: nat, e: SLEntry)
    requires Holds(nodes, m) && 1 <= k <= |nodes| && e.key !in m
    ensures Holds(InsertAt(nodes, k, e), m[e.key := e.value])
  {
    var ns := InsertAt(nodes, k, e);
    forall key | key in m[e.key := e.value] ensures OnList(ns, key) {
      if key == e.key {
        assert ns[k].key == key;
      } else {
        var i :| 1 <= i < |nodes| && nodes[i].key == key;
        assert ns[Up(k, i)].key == key;
      }
    }
  }

  /** The level the new entry gets: what was drawn, but at most one more than the list had. */
  function LevelFor(level: nat, rand: nat): nat {
    if rand > level then level + 1 else rand
  }

  lemma InsertedHeights(hs: seq<nat>, level: nat, k: nat, rand: nat)
    requires Heights(hs, level) && 1 <= k <= |hs| && 1 <= rand <= MAX_LEVEL
    ensures var lvl := LevelFor(level, rand);
            Heights(InsertAt(hs, k, lvl + 1), if lvl > level then lvl else level)
  {
    hide Nxt, InsertAt;
    var lvl := LevelFor(level, rand);
    var level2 := if lvl > level then lvl else level;
    var r := InsertAt(hs, k, lvl + 1);
    forall i | 1 <= i < |r| ensures 2 <= r[i] <= level2 + 1 {
      assert r[i] == if i < k then hs[i] else if i == k then lvl + 1 else hs[i - 1];
    }
    NxtInsert(hs, k, lvl + 1, 0, level2);
    assert Up(k, 0) == 0 && r[0] == hs[0];
    assert lvl > level ==> Nxt(hs, 0, level2) == |hs|;
  }

  /** The update array serves the new entry's level too: the head is the predecessor at a level no entry has yet. */
  lemma PredsForLevel(nodes: seq<SLEntry>, hs: seq<nat>, k: nat, us: seq<nat>, update: seq<SLEntry?>, level: nat, rand: nat)
    requires Heights(hs, level) && 1 <= k <= |hs| == |nodes| && PredsAt(nodes, hs, k, us, update, level) && rand <= MAX_LEVEL
    ensures |update| == |us| == MAX_LEVEL + 1
    ensures if rand > level then PredsAt(nodes, hs, k, us[level + 1 := 0], update[level + 1 := nodes[0]], level + 1)
            else PredsAt(nodes, hs, k, us, update, rand)
  {
    hide Nxt;
  }

  lemma HeightFacts(hs: seq<nat>, level: nat)
    requires Heights(hs, level)
    ensures |hs| >= 1 && hs[0] > level && level <= MAX_LEVEL && forall i :: 1 <= i < |hs| ==> hs[i] >= 1
  {}

  lemma HeadAlone(head: SLEntry)
    requires head.forward == seq(MAX_LEVEL + 1, _ => null)
    ensures Linked([head], [MAX_LEVEL + 1]) && Heights([MAX_LEVEL + 1], 0) && Ordered([head]) && Holds([head], map[])
  {}

  /** What following one link means. */
  lemma LinkFact(nodes: seq<SLEntry>, hs: seq<nat>, i: nat, l: nat)
    requires Linked(nodes, hs) && i < |nodes| && l < hs[i]
    ensures |nodes[i].forward| == hs[i] && nodes[i].forward[l] == At(nodes, Nxt(hs, i, l))
    ensures i < Nxt(hs, i, l) <= |nodes| && (Nxt(hs, i, l) < |nodes| ==> hs[Nxt(hs, i, l)] > l)
  {}

  /** At level 0 the predecessor is next door. */
  lemma NextDoor(hs: seq<nat>, p: nat, k: nat)
    requires p < k <= |hs| && Nxt(hs, p, 0) >= k && forall i :: 1 <= i < |hs| ==> hs[i] >= 1
    ensures Nxt(hs, p, 0) == k == p + 1
  {}

  // ----- whole histories

  // One call, with the level SLRandomLevel happens to draw.
  datatype Call = Ins(key: nat, value: nat, rand: nat) | Del(key: nat)

  /** What one call does to the map: an insert of a present key changes nothing. */
  function Effect(m: map<nat, nat>, c: Call): map<nat, nat> {
    match c
    case Ins(key, value, _) => if key in m then m else m[key := value]
    case Del(key) => m - {key}
  }

  /** The map a history of calls stands for. */
  function Meaning(calls: seq<Call>): map<nat, nat> {
    if calls == [] then map[] else Effect(Meaning(calls[..|calls| - 1]), calls[|calls| - 1])
  }

  lemma MeaningStep(calls: seq<Call>, c: Call)
    ensures Meaning([]) == map[]
    ensures Meaning(calls + [c]) == Effect(Meaning(calls), c)
  {
    assert (calls + [c])[..|calls|] == calls;
  }

  method DoCall(list: SkipList, c: Call)
    requires list.Valid() && (c.Ins? ==> 1 <= c.rand <= MAX_LEVEL)
    modifies list, list.nodes
    ensures list.Valid() && list.contents == Effect(old(list.contents), c)
    ensures forall n :: 0 <= n < |list.nodes| ==> list.nodes[n] in old(list.nodes) || fresh(list.nodes[n])
  {
    hide Nxt, Linked, Heights, Ordered, Holds, InsertAt, RemoveAt;
    match c {
      case Ins(key, value, rand) => var ret, k := list.Insert(key, value, rand);
      case Del(key) => var ret, k := list.Delete(key);
    }
  }

  /** After any history, whatever levels were drawn, the list is well formed and holds exactly the history's map. */
  method Replay(list: SkipList, calls: seq<Call>)
    requires list.Valid() && list.contents == map[]
    requires forall c :: c in calls && c.Ins? ==> 1 <= c.rand <= MAX_LEVEL
    modifies list, list.nodes
    ensures list.Valid() && list.contents == Meaning(calls)
    ensures forall n :: 0 <= n < |list.nodes| ==> list.nodes[n] in old(list.nodes) || fresh(list.nodes[n])
  {
    hide Nxt, Linked, Heights, Ordered, Holds, Meaning, Effect;
    if calls == [] {
      MeaningStep([], Del(0));
    } else {
      var n := |calls| - 1;
      Replay(list, calls[..n]);
      assert calls == calls[..n] + [calls[n]];
      MeaningStep(calls[..n], calls[n]);
      DoCall(list, calls[n]);
    }
  }

  /** Lookup succeeds after a history exactly for the keys whose last effective call was an insert. */
  lemma {:induction false} MeaningOf(calls: seq<Call>, key: nat)
    ensures key in Meaning(calls) <==> exists i ::
              && 0 <= i < |calls| && calls[i].Ins? && calls[i].key == key
              && forall j :: i < j < |calls| ==> calls[j] != Del(key)
  {
    if calls != [] {
      var n := |calls| - 1;
      MeaningOf(calls[..n], key);
      var c := calls[n];
      if key in Meaning(calls[..n]) && c != Del(key) {
        var i :| 0 <= i < n && calls[..n][i].Ins? && calls[..n][i].key == key &&
                 forall j :: i < j < n ==> calls[..n][j] != Del(key);
        assert calls[i].Ins? && calls[i].key == key && forall j :: i < j < |calls| ==> calls[j] != Del(key);
      }
      if i :| 0 <= i < |calls| && calls[i].Ins? && calls[i].key == key && forall j :: i < j < |calls| ==> calls[j] != Del(key) {
        if i < n { assert calls[..n][i].Ins? && calls[..n][i].key == key; }
      }
    }
  }
}
