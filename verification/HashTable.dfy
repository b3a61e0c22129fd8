/** The libdrm self-organising hash table (xf86drmHash.c), as linked chains refining a finite map. */
module HashTables {
  import opened HashFn
  import opened RandomGen

  class HashBucket {
    const key: nat
    const value: nat
    var next: HashBucket?

    constructor (key: nat, value: nat, next: HashBucket?)
      ensures this.key == key && this.value == value && this.next == next
    {
      this.key := key;
      this.value := value;
      this.next := next;
    }
  }

  function At(c: seq<HashBucket>, i: nat): HashBucket? {
    if i < |c| then c[i] else null
  }

  /** The `next` pointers run through c and end there. */
  ghost predicate Chained(c: seq<HashBucket>)
    reads c
  {
    forall i :: 0 <= i < |c| ==> c[i].next == At(c, i + 1)
  }

  /** The keys of slot h hash to h and are distinct. */
  ghost predicate Keyed(c: seq<HashBucket>, h: nat, scatter: seq<int>)
    requires |scatter| == 256
  {
    && (forall i :: 0 <= i < |c| ==> Hash(scatter, c[i].key) == h)
    && (forall i, j :: 0 <= i < j < |c| ==> c[i].key != c[j].key)
  }

  ghost predicate HasKey(c: seq<HashBucket>, key: nat) {
    exists i :: 0 <= i < |c| && c[i].key == key
  }

  /** Slot h holds exactly the part of the map m whose keys hash to h. */
  ghost predicate Holds(c: seq<HashBucket>, h: nat, scatter: seq<int>, m: map<nat, nat>)
    requires |scatter| == 256
  {
    && (forall i :: 0 <= i < |c| ==> c[i].key in m && m[c[i].key] == c[i].value)
    && (forall key :: key in m && Hash(scatter, key) == h ==> HasKey(c, key))
  }

  /** All the chains together hold exactly m, each key once and in the slot it hashes to. */
  ghost predicate Represents(chains: seq<seq<HashBucket>>, scatter: seq<int>, m: map<nat, nat>)
    requires |scatter| == 256
  {
    |chains| == HASH_SIZE && forall h :: 0 <= h < HASH_SIZE ==> Keyed(chains[h], h, scatter) && Holds(chains[h], h, scatter, m)
  }

  /** The pointers of every chain are as the chain says. */
  ghost predicate Linkage(chains: seq<seq<HashBucket>>, nodes: set<HashBucket>)
    reads nodes
  {
    forall h :: 0 <= h < |chains| ==> (forall i :: 0 <= i < |chains[h]| ==> chains[h][i] in nodes) && Chained(chains[h])
  }

  /** No bucket is on two chains, or twice on one. */
  ghost predicate Apart(chains: seq<seq<HashBucket>>) {
    && (forall h, i, j :: 0 <= h < |chains| && 0 <= i < j < |chains[h]| ==> chains[h][i] != chains[h][j])
    && (forall g, h, i, j :: 0 <= g < h < |chains| && 0 <= i < |chains[g]| && 0 <= j < |chains[h]| ==> chains[g][i] != chains[h][j])
  }

  lemma RepresentsApart(chains: seq<seq<HashBucket>>, scatter: seq<int>, m: map<nat, nat>)
    requires |scatter| == 256 && Represents(chains, scatter, m)
    ensures Apart(chains)
  {
    hide Holds, Hash;
    forall h, i, j | 0 <= h < |chains| && 0 <= i < j < |chains[h]| ensures chains[h][i] != chains[h][j] {
      assert Keyed(chains[h], h, scatter);
    }
    forall g, h, i, j | 0 <= g < h < |chains| && 0 <= i < |chains[g]| && 0 <= j < |chains[h]|
      ensures chains[g][i] != chains[h][j]
    {
      assert Keyed(chains[g], g, scatter) && Keyed(chains[h], h, scatter);
    }
  }

  /** HashFind's reorganisation: the element at i moves to the front, the others keep their order. */
  function ToFront<T>(c: seq<T>, i: nat): (r: seq<T>)
    requires i < |c|
    ensures |r| == |c| && r[0] == c[i]
    ensures forall j :: 1 <= j <= i ==> r[j] == c[j - 1]
    ensures forall j :: i < j < |c| ==> r[j] == c[j]
  {
    [c[i]] + c[..i] + c[i + 1..]
  }

  /** It is a permutation. */
  lemma ToFrontPermutes<T>(c: seq<T>, i: nat)
    requires i < |c|
    ensures multiset(ToFront(c, i)) == multiset(c)
  {
    assert c == c[..i] + [c[i]] + c[i + 1..];
    assert multiset(c) == multiset(c[..i]) + multiset([c[i]]) + multiset(c[i + 1..]);
  }

  /** Dropping the head afterwards removes exactly the element that was at i. */
  lemma DropAfterToFront<T>(c: seq<T>, i: nat)
    requires i < |c|
    ensures ToFront(c, i)[1..] == c[..i] + c[i + 1..]
  {}

  lemma ToFrontKeeps(chains: seq<seq<HashBucket>>, scatter: seq<int>, m: map<nat, nat>, h: nat, i: nat)
    requires |scatter| == 256 && Represents(chains, scatter, m) && h < HASH_SIZE && i < |chains[h]|
    ensures Represents(chains[h := ToFront(chains[h], i)], scatter, m)
  {
    hide Hash;
    var c := chains[h];
    var r := ToFront(c, i);
    forall key | key in m && Hash(scatter, key) == h ensures HasKey(r, key) {
      assert HasKey(c, key);
      var j :| 0 <= j < |c| && c[j].key == key;
      assert r[if j < i then j + 1 else if j == i then 0 else j].key == key;
    }
    forall a, b | 0 <= a < b < |r| ensures r[a].key != r[b].key {
      if a == 0 {
        assert r[0].key == c[i].key;
      }
    }
  }

  /** What a walk down a slot has learned. */
  lemma KeyThere(chains: seq<seq<HashBucket>>, scatter: seq<int>, m: map<nat, nat>, h: nat, i: nat)
    requires |scatter| == 256 && Represents(chains, scatter, m) && h < HASH_SIZE && i < |chains[h]|
    ensures chains[h][i].key in m && m[chains[h][i].key] == chains[h][i].value
  {
    assert Holds(chains[h], h, scatter, m);
  }

  lemma KeyMissing(chains: seq<seq<HashBucket>>, scatter: seq<int>, m: map<nat, nat>, key: nat)
    requires |scatter| == 256 && Represents(chains, scatter, m)
    requires forall j :: 0 <= j < |chains[Hash(scatter, key)]| ==> chains[Hash(scatter, key)][j].key != key
    ensures key !in m
  {
    assert Holds(chains[Hash(scatter, key)], Hash(scatter, key), scatter, m);
    assert !HasKey(chains[Hash(scatter, key)], key);
  }

  /** A new bucket at the front of its slot. */
  lemma PushKeeps(chains: seq<seq<HashBucket>>, scatter: seq<int>, m: map<nat, nat>, b: HashBucket)
    requires |scatter| == 256 && Represents(chains, scatter, m) && b.key !in m
    ensures var h := Hash(scatter, b.key); Represents(chains[h := [b] + chains[h]], scatter, m[b.key := b.value])
  {
    hide Hash;
    var h := Hash(scatter, b.key);
    var c := chains[h];
    var r := [b] + c;
    var m2 := m[b.key := b.value];
    forall key | key in m2 && Hash(scatter, key) == h ensures HasKey(r, key) {
      if key == b.key {
        assert r[0].key == key;
      } else {
        assert HasKey(c, key);
        var j :| 0 <= j < |c| && c[j].key == key;
        assert r[j + 1].key == key;
      }
    }
    forall g | 0 <= g < HASH_SIZE && g != h ensures Keyed(chains[g], g, scatter) && Holds(chains[g], g, scatter, m2) {
      assert Holds(chains[g], g, scatter, m);
    }
    assert Keyed(r, h, scatter) && Holds(r, h, scatter, m2);
  }

  /** Without the head of a slot. */
  lemma PopKeeps(chains: seq<seq<HashBucket>>, scatter: seq<int>, m: map<nat, nat>, h: nat)
    requires |scatter| == 256 && Represents(chains, scatter, m) && h < HASH_SIZE && |chains[h]| > 0
    ensures Represents(chains[h := chains[h][1..]], scatter, m - {chains[h][0].key})
  {
    hide Hash;
    var c := chains[h];
    var r := c[1..];
    var m2 := m - {c[0].key};
    forall key | key in m2 && Hash(scatter, key) == h ensures HasKey(r, key) {
      assert HasKey(c, key);
      var j :| 0 <= j < |c| && c[j].key == key;
      assert r[j - 1].key == key;
    }
    forall g | 0 <= g < HASH_SIZE && g != h ensures Keyed(chains[g], g, scatter) && Holds(chains[g], g, scatter, m2) {
      assert Keyed(chains[g], g, scatter) && Holds(chains[g], g, scatter, m);
      assert Hash(scatter, c[0].key) == h;
    }
    assert Keyed(r, h, scatter) && Holds(r, h, scatter, m2);
  }

  /** What drmHashNext still emits from cursor p0 with `rest` left of the current chain: a chain is emitted one
      turn after it is loaded, so the one loaded last never is. */
  ghost function Rest(chains: seq<seq<HashBucket>>, p0: nat, rest: seq<HashBucket>): seq<HashBucket>
    requires |chains| == HASH_SIZE
    decreases HASH_SIZE - p0
  {
    if p0 >= HASH_SIZE then [] else rest + Rest(chains, p0 + 1, chains[p0])
  }

  /** The whole enumeration; drmHashFirst loads slot 0, and drmHashNext loads it again. */
  ghost function Emitted(chains: seq<seq<HashBucket>>): seq<HashBucket>
    requires |chains| == HASH_SIZE
  {
    Rest(chains, 0, chains[0])
  }

  lemma LinkageAt(chains: seq<seq<HashBucket>>, nodes: set<HashBucket>, h: nat)
    requires h < |chains| && Linkage(chains, nodes)
    ensures Chained(chains[h]) && forall i :: 0 <= i < |chains[h]| ==> chains[h][i] in nodes
  {}

  lemma Follow(c: seq<HashBucket>, i: nat)
    requires i < |c| && Chained(c)
    ensures c[i].next == At(c, i + 1) && Chained(c[1..])
  {
    forall j | 0 <= j < |c| - 1 ensures c[1..][j].next == At(c[1..], j + 1) {
      assert c[j + 1].next == At(c, j + 2);
    }
  }

  lemma LinkagePush(chains: seq<seq<HashBucket>>, nodes: set<HashBucket>, h: nat, b: HashBucket)
    requires h < |chains| && Linkage(chains, nodes) && b.next == At(chains[h], 0)
    ensures Linkage(chains[h := [b] + chains[h]], nodes + {b})
  {
    LinkageAt(chains, nodes, h);
    var c := chains[h];
    forall i | 0 <= i < |c| + 1 ensures ([b] + c)[i].next == At([b] + c, i + 1) {
      if i > 0 { assert c[i - 1].next == At(c, i); }
    }
  }

  lemma LinkagePop(chains: seq<seq<HashBucket>>, nodes: set<HashBucket>, h: nat)
    requires h < |chains| && Linkage(chains, nodes) && |chains[h]| > 0
    ensures Linkage(chains[h := chains[h][1..]], nodes) && chains[h][0].next == At(chains[h], 1)
  {
    hide Chained;
    Follow(chains[h], 0);
  }

  /** The pointer assignments of the reorganisation, on the chain itself ... */
  method SwapLinks(prev: HashBucket, bucket: HashBucket, head: HashBucket?, ghost c: seq<HashBucket>, ghost i: nat)
    requires 0 < i < |c| && Chained(c) && forall a, b :: 0 <= a < b < |c| ==> c[a] != c[b]
    requires prev == c[i - 1] && bucket == c[i] && head == c[0]
    modifies prev, bucket
    ensures Chained(ToFront(c, i))
  {
    prev.next := bucket.next;
    bucket.next := head;
  }

  /** ... and on the others, which they do not touch. */
  method Relink(prev: HashBucket, bucket: HashBucket, head: HashBucket?,
                ghost chains: seq<seq<HashBucket>>, ghost nodes: set<HashBucket>, ghost h: nat, ghost i: nat)
    requires Apart(chains) && Linkage(chains, nodes) && h < |chains| && 0 < i < |chains[h]|
    requires prev == chains[h][i - 1] && bucket == chains[h][i] && head == chains[h][0]
    modifies prev, bucket
    ensures Linkage(chains[h := ToFront(chains[h], i)], nodes)
  {
    hide Chained, ToFront;
    SwapLinks(prev, bucket, head, chains[h], i);
  }

  class HashTable {
    const scatter: seq<int>
    const width: Width
    var buckets: seq<HashBucket?>
    var hits: nat
    var partials: nat
    var misses: nat
    var p0: nat
    var p1: HashBucket?
    ghost var chains: seq<seq<HashBucket>>
    ghost var nodes: set<HashBucket>
    ghost var contents: map<nat, nat>

    ghost predicate Valid()
      reads this, nodes
    {
      && |scatter| == 256 && Represents(chains, scatter, contents)
      && |buckets| == HASH_SIZE && (forall h :: 0 <= h < HASH_SIZE ==> buckets[h] == At(chains[h], 0))
      && Linkage(chains, nodes)
    }

    // drmHashCreate
    constructor (scatter: seq<int>, width: Width)
      requires |scatter| == 256
      ensures Valid() && contents == map[] && nodes == {} && hits == partials == misses == 0
      ensures this.scatter == scatter && this.width == width
    {
      this.scatter, this.width := scatter, width;
      buckets := seq(HASH_SIZE, _ => null);
      hits, partials, misses := 0, 0, 0;
      p0, p1 := 0, null;
      chains := seq(HASH_SIZE, _ => []);
      nodes := {};
      contents := map[];
    }

    /** prev->next = bucket->next; bucket->next = head; head = bucket. */
    method Organize(prev: HashBucket, bucket: HashBucket, h: nat, ghost i: nat)
      requires Valid() && h < HASH_SIZE && 0 < i < |chains[h]|
      requires prev == chains[h][i - 1] && bucket == chains[h][i]
      modifies this`buckets, this`chains, prev, bucket
      ensures Valid() && chains == old(chains)[h := ToFront(old(chains)[h], i)]
    {
      hide Represents, Linkage, Apart, ToFront;
      RepresentsFacts(chains, scatter, contents);
      RepresentsApart(chains, scatter, contents);
      ToFrontKeeps(chains, scatter, contents, h, i);
      LinkageAt(chains, nodes, h);
      Relink(prev, bucket, buckets[h], chains, nodes, h, i);
      buckets := buckets[h := bucket];
      chains := chains[h := ToFront(chains[h], i)];
    }

    /** HashFind: the bucket of the key, moved to the front of its chain; the map is unchanged. */
    method HashFind(key: nat) returns (bucket: HashBucket?, hash: nat, ghost i: nat)
      requires Valid()
      modifies this`hits, this`partials, this`misses, this`chains, this`buckets, nodes
      ensures Valid() && hash == Hash(scatter, key)
      ensures bucket == null <==> key !in contents
      ensures bucket == null ==> chains == old(chains)
      ensures bucket != null ==> i < |old(chains)[hash]| && old(chains)[hash][i] == bucket
      ensures bucket != null ==> bucket.key == key && bucket.value == contents[key]
      ensures bucket != null ==> chains == old(chains)[hash := ToFront(old(chains)[hash], i)]
      ensures bucket != null ==> buckets[hash] == bucket && chains[hash][0] == bucket
      ensures hits == old(hits) + (if bucket != null && i == 0 then 1 else 0)
      ensures partials == old(partials) + (if bucket != null && i > 0 then 1 else 0)
      ensures misses == old(misses) + (if bucket == null then 1 else 0)
    {
      hide Represents, Hash, Linkage, ToFront, Chained;
      RepresentsFacts(chains, scatter, contents);
      hash := HashHash(scatter, key, width);
      ghost var c := chains[hash];
      LinkageAt(chains, nodes, hash);
      var prev: HashBucket? := null;
      bucket := buckets[hash];
      i := 0;
      while bucket != null
        invariant i <= |c| && bucket == At(c, i) && prev == (if i == 0 then null else At(c, i - 1))
        invariant forall j :: 0 <= j < i ==> c[j].key != key
        modifies {}
        decreases |c| - i
      {
        if bucket.key == key { break; }
        Follow(c, i);
        prev := bucket;
        bucket := bucket.next;
        i := i + 1;
      }
      if bucket != null {
        KeyThere(chains, scatter, contents, hash, i);
        if prev != null {
          Organize(prev, bucket, hash, i);
          partials := partials + 1;
        } else {
          FrontStays(c);
          hits := hits + 1;
        }
        return;
      }
      KeyMissing(chains, scatter, contents, key);
      misses := misses + 1;
    }

    /** drmHashLookup: 0 and the value, or 1. */
    method Lookup(key: nat) returns (ret: int, value: nat)
      requires Valid()
      modifies this`hits, this`partials, this`misses, this`chains, this`buckets, nodes
      ensures Valid() && Finds() == old(Finds()) + 1
      ensures ret == if key in contents then 0 else 1
      ensures ret == 0 ==> value == contents[key]
      ensures key in contents ==> |chains[Hash(scatter, key)]| > 0 && chains[Hash(scatter, key)][0].key == key
    {
      hide Represents, Hash, Keyed, Holds, ToFront, Linkage;
      RepresentsFacts(chains, scatter, contents);
      var bucket, hash, i := HashFind(key);
      RepresentsFacts(chains, scatter, contents);
      value := 0;
      if bucket == null { return 1, value; }
      return 0, bucket.value;
    }

    /** drmHashInsert: 0 and a new bucket at the front of its slot, or the map unchanged and 1 for a key that is
        there, -1 when there is no memory for a bucket. */
    method Insert(key: nat, value: nat, memory: bool) returns (ret: int)
      requires Valid()
      modifies this, nodes
      ensures Valid() && Finds() == old(Finds()) + 1 && p0 == old(p0) && p1 == old(p1) && fresh(nodes - old(nodes))
      ensures ret == if key in old(contents) then 1 else if memory then 0 else -1
      ensures ret != 0 ==> contents == old(contents)
      ensures ret == 0 ==> contents == old(contents)[key := value]
      ensures ret == 0 ==> PutIn(old(chains), chains, Hash(scatter, key)) && fresh(chains[Hash(scatter, key)][0])
    {
      hide Represents, Hash, ToFront, Linkage, Apart;
      var bucket, hash, i := HashFind(key);
      if bucket != null { return 1; }
      if !memory { return -1; }
      RepresentsFacts(chains, scatter, contents);
      var b := new HashBucket(key, value, buckets[hash]);
      PushKeeps(chains, scatter, contents, b);
      LinkagePush(chains, nodes, hash, b);
      buckets := buckets[hash := b];
      chains := chains[hash := [b] + chains[hash]];
      nodes := nodes + {b};
      contents := contents[key := value];
      ret := 0;
    }

    /** drmHashDelete: drops the head of the slot, which HashFind made the requested bucket. */
    method Delete(key: nat) returns (ret: int)
      requires Valid()
      modifies this, nodes
      ensures Valid() && Finds() == old(Finds()) + 1 && nodes == old(nodes) && p0 == old(p0) && p1 == old(p1)
      ensures ret == if key in old(contents) then 0 else 1
      ensures contents == old(contents) - {key}
      ensures ret == 1 ==> chains == old(chains)
      ensures ret == 0 ==> TookOut(old(chains), chains, Hash(scatter, key), key)
    {
      hide Represents, Hash, ToFront, Linkage;
      RepresentsFacts(chains, scatter, contents);
      var bucket, hash, i := HashFind(key);
      if bucket == null { return 1; }
      RepresentsFacts(chains, scatter, contents);
      PopKeeps(chains, scatter, contents, hash);
      DropAfterToFront(old(chains)[hash], i);
      LinkagePop(chains, nodes, hash);
      buckets := buckets[hash := bucket.next];
      chains := chains[hash := chains[hash][1..]];
      contents := contents - {key};
      ret := 0;
    }

    ghost function Finds(): nat
      reads this
    {
      hits + partials + misses
    }

    /** The cursor p1 stands at the front of `rest`, a tail of some chain. */
    ghost predicate CursorAt(rest: seq<HashBucket>)
      reads this, nodes
    {
      p1 == At(rest, 0) && (forall i :: 0 <= i < |rest| ==> rest[i] in nodes) && Chained(rest)
    }

    /** drmHashNext: emits the next bucket of Rest, or 0 when there is none. */
    method Next(ghost rest: seq<HashBucket>) returns (ret: int, key: nat, value: nat, ghost left: seq<HashBucket>)
      requires Valid() && CursorAt(rest)
      modifies this`p0, this`p1
      ensures Valid() && CursorAt(left)
      ensures |chains| == HASH_SIZE && ret == if Rest(chains, old(p0), rest) == [] then 0 else 1
      ensures ret == 1 ==> var emitted := Rest(chains, old(p0), rest);
                           key == emitted[0].key && value == emitted[0].value && Rest(chains, p0, left) == emitted[1..]
    {
      hide Represents, Linkage, Chained;
      RepresentsFacts(chains, scatter, contents);
      left := rest;
      while p0 < HASH_SIZE
        invariant CursorAt(left) && Rest(chains, p0, left) == Rest(chains, old(p0), rest)
        decreases HASH_SIZE - p0
      {
        if p1 != null {
          Follow(left, 0);
          key, value := p1.key, p1.value;
          p1 := p1.next;
          assert Rest(chains, p0, left)[1..] == Rest(chains, p0, left[1..]);
          return 1, key, value, left[1..];
        }
        LinkageAt(chains, nodes, p0);
        left := chains[p0];
        p1 := buckets[p0];
        p0 := p0 + 1;
      }
      ret, key, value := 0, 0, 0;
    }

    /** drmHashFirst. */
    method First() returns (ret: int, key: nat, value: nat, ghost left: seq<HashBucket>)
      requires Valid()
      modifies this`p0, this`p1
      ensures Valid() && CursorAt(left)
      ensures |chains| == HASH_SIZE && ret == if Emitted(chains) == [] then 0 else 1
      ensures ret == 1 ==> key == Emitted(chains)[0].key && value == Emitted(chains)[0].value
      ensures ret == 1 ==> Rest(chains, p0, left) == Emitted(chains)[1..]
    {
      hide Represents, Hash, Keyed, Holds, Rest;
      RepresentsFacts(chains, scatter, contents);
      p0, p1 := 0, buckets[0];
      ret, key, value, left := Next(chains[0]);
    }

    /** drmHashFirst, then drmHashNext until it returns 0. */
    method Enumerate() returns (out: seq<(nat, nat)>)
      requires Valid()
      modifies this`p0, this`p1
      ensures Valid() && |chains| == HASH_SIZE && |out| == |Emitted(chains)|
      ensures forall i :: 0 <= i < |out| ==> out[i] == (Emitted(chains)[i].key, Emitted(chains)[i].value)
    {
      hide Represents, Hash, Keyed, Holds, Rest, Linkage;
      RepresentsFacts(chains, scatter, contents);
      ghost var all := Emitted(chains);
      var ret, key, value, left := First();
      out := [];
      while ret == 1
        invariant Valid() && CursorAt(left) && ret == (if |out| == |all| then 0 else 1) && |out| <= |all|
        invariant ret == 1 ==> key == all[|out|].key && value == all[|out|].value
        invariant ret == 1 ==> Rest(chains, p0, left) == all[|out| + 1..]
        invariant forall i :: 0 <= i < |out| ==> out[i] == (all[i].key, all[i].value)
        decreases |all| - |out|
      {
        out := out + [(key, value)];
        ret, key, value, left := Next(left);
      }
    }
  }

  lemma RepresentsFacts(chains: seq<seq<HashBucket>>, scatter: seq<int>, m: map<nat, nat>)
    requires |scatter| == 256 && Represents(chains, scatter, m)
    ensures |chains| == HASH_SIZE
  {}

  /** Slot h has a new bucket at its front; nothing else changed. */
  ghost predicate PutIn(chains0: seq<seq<HashBucket>>, chains: seq<seq<HashBucket>>, h: nat) {
    h < |chains0| == |chains| && chains[h] != [] && chains == chains0[h := [chains[h][0]] + chains0[h]]
  }

  /** Slot h lost the bucket of the key; its other buckets are in their old order and no other slot changed. */
  ghost predicate TookOut(chains0: seq<seq<HashBucket>>, chains: seq<seq<HashBucket>>, h: nat, key: nat) {
    h < |chains0| && exists i :: 0 <= i < |chains0[h]| && chains0[h][i].key == key
                                 && chains == chains0[h := chains0[h][..i] + chains0[h][i + 1..]]
  }

  lemma FrontStays<T>(c: seq<T>)
    requires |c| > 0
    ensures ToFront(c, 0) == c
  {}

  lemma CountOnce<T>(c: seq<T>, i: nat)
    requires i < |c| && forall a, b :: 0 <= a < b < |c| ==> c[a] != c[b]
    ensures multiset(c)[c[i]] == 1
  {
    assert c == c[..i] + [c[i]] + c[i + 1..];
    assert multiset(c) == multiset(c[..i]) + multiset([c[i]]) + multiset(c[i + 1..]);
    assert c[i] !in c[..i] && c[i] !in c[i + 1..];
  }

  lemma RestStep(chains: seq<seq<HashBucket>>, p0: nat, rest: seq<HashBucket>)
    requires |chains| == HASH_SIZE
    ensures p0 >= HASH_SIZE ==> Rest(chains, p0, rest) == []
    ensures p0 < HASH_SIZE ==> multiset(Rest(chains, p0, rest)) == multiset(rest) + multiset(Rest(chains, p0 + 1, chains[p0]))
  {}

  lemma {:induction false} RestCounts(chains: seq<seq<HashBucket>>, p0: nat, rest: seq<HashBucket>, h: nat, i: nat)
    requires |chains| == HASH_SIZE && Apart(chains) && h < HASH_SIZE && i < |chains[h]| && p0 <= HASH_SIZE
    ensures multiset(Rest(chains, p0, rest))[chains[h][i]]
         == (if p0 < HASH_SIZE then multiset(rest)[chains[h][i]] else 0) + (if p0 <= h < HASH_SIZE - 1 then 1 else 0)
    decreases HASH_SIZE - p0
  {
    hide Apart, Rest;
    RestStep(chains, p0, rest);
    if p0 < HASH_SIZE {
      RestCounts(chains, p0 + 1, chains[p0], h, i);
      SlotCount(chains, p0, h, i);
    }
  }

  lemma SlotCount(chains: seq<seq<HashBucket>>, g: nat, h: nat, i: nat)
    requires Apart(chains) && g < |chains| && h < |chains| && i < |chains[h]|
    ensures multiset(chains[g])[chains[h][i]] == if g == h then 1 else 0
  {
    if g == h {
      CountOnce(chains[h], i);
    } else {
      assert chains[h][i] !in chains[g];
    }
  }

  /** The exact enumeration: a bucket of slot 0 comes up twice, one of slot 511 never, any other once. */
  lemma EmittedCounts(chains: seq<seq<HashBucket>>, scatter: seq<int>, m: map<nat, nat>, h: nat, i: nat)
    requires |scatter| == 256 && Represents(chains, scatter, m) && h < HASH_SIZE && i < |chains[h]|
    ensures multiset(Emitted(chains))[chains[h][i]] == if h == 0 then 2 else if h == HASH_SIZE - 1 then 0 else 1
  {
    hide Hash, Keyed, Holds;
    RepresentsApart(chains, scatter, m);
    RestCounts(chains, 0, chains[0], h, i);
    SlotCount(chains, 0, h, i);
  }

  ghost predicate EachOnce(chains: seq<seq<HashBucket>>)
    requires |chains| == HASH_SIZE
  {
    forall h, i :: 0 <= h < HASH_SIZE && 0 <= i < |chains[h]| ==> multiset(Emitted(chains))[chains[h][i]] == 1
  }

  /** So "every key once" holds exactly when no key hashes to slot 0 or to slot 511. */
  lemma EachOnceIff(chains: seq<seq<HashBucket>>, scatter: seq<int>, m: map<nat, nat>)
    requires |scatter| == 256 && Represents(chains, scatter, m)
    ensures EachOnce(chains) <==> forall key :: key in m ==> Hash(scatter, key) != 0 && Hash(scatter, key) != HASH_SIZE - 1
  {
    hide Hash, Emitted;
    if EachOnce(chains) {
      forall key | key in m ensures Hash(scatter, key) != 0 && Hash(scatter, key) != HASH_SIZE - 1 {
        var h := Hash(scatter, key);
        HashInRange(scatter, key);
        assert Holds(chains[h], h, scatter, m);
        assert HasKey(chains[h], key);
        var i :| 0 <= i < |chains[h]| && chains[h][i].key == key;
        EmittedCounts(chains, scatter, m, h, i);
      }
    }
    if forall key :: key in m ==> Hash(scatter, key) != 0 && Hash(scatter, key) != HASH_SIZE - 1 {
      forall h, i | 0 <= h < HASH_SIZE && 0 <= i < |chains[h]| ensures multiset(Emitted(chains))[chains[h][i]] == 1 {
        assert Keyed(chains[h], h, scatter);
        KeyThere(chains, scatter, m, h, i);
        EmittedCounts(chains, scatter, m, h, i);
      }
    }
  }

  lemma HashInRange(scatter: seq<int>, key: nat)
    requires |scatter| == 256
    ensures Hash(scatter, key) < HASH_SIZE
  {}

  /** A slot no key of the map hashes to is empty. */
  lemma EmptySlot(chains: seq<seq<HashBucket>>, scatter: seq<int>, m: map<nat, nat>, h: nat)
    requires |scatter| == 256 && Represents(chains, scatter, m) && h < HASH_SIZE
    requires forall key :: key in m ==> Hash(scatter, key) != h
    ensures chains[h] == []
  {
    hide Hash;
    assert Keyed(chains[h], h, scatter);
    if chains[h] != [] { KeyThere(chains, scatter, m, h, 0); }
  }

  lemma FirstTwoDiffer(c: seq<HashBucket>, h: nat, scatter: seq<int>)
    requires |scatter| == 256 && Keyed(c, h, scatter)
    ensures |c| <= 1 || c[0].key != c[1].key
  {}

  /** A slot only one key of the map hashes to holds just that key's bucket. */
  lemma LoneSlot(chains: seq<seq<HashBucket>>, scatter: seq<int>, m: map<nat, nat>, key: nat)
    requires |scatter| == 256 && Represents(chains, scatter, m) && key in m
    requires forall k :: k in m && Hash(scatter, k) == Hash(scatter, key) ==> k == key
    ensures var c := chains[Hash(scatter, key)]; |c| == 1 && c[0].key == key && c[0].value == m[key]
  {
    hide Hash;
    HashInRange(scatter, key);
    var h := Hash(scatter, key);
    assert Keyed(chains[h], h, scatter) && Holds(chains[h], h, scatter, m);
    assert HasKey(chains[h], key);
    FirstTwoDiffer(chains[h], h, scatter);
    forall i | 0 <= i < |chains[h]| ensures chains[h][i].key == key && chains[h][i].value == m[key] {
      KeyThere(chains, scatter, m, h, i);
    }
  }

  lemma {:induction false} RestEmpty(chains: seq<seq<HashBucket>>, p0: nat)
    requires |chains| == HASH_SIZE && forall h :: p0 <= h < HASH_SIZE - 1 ==> chains[h] == []
    ensures p0 < HASH_SIZE ==> Rest(chains, p0, []) == []
    decreases HASH_SIZE - p0
  {
    if p0 < HASH_SIZE - 1 {
      RestEmpty(chains, p0 + 1);
    } else if p0 == HASH_SIZE - 1 {
      assert Rest(chains, HASH_SIZE, chains[p0]) == [];
    }
  }

  /** With the real scatter table, a table of the keys 0 and 204 is enumerated as key 0 twice and nothing else. */
  lemma EnumerationHazard(chains: seq<seq<HashBucket>>, scatter: seq<int>, m: map<nat, nat>)
    requires IsScatter(scatter) && Represents(chains, scatter, m) && m.Keys == {0, 204}
    ensures var e := Emitted(chains); |e| == 2 && e[0] == e[1] && e[0].key == 0 && e[0].value == m[0]
    ensures !EachOnce(chains)
  {
    hide Hash, Represents, Rest, EachOnce;
    EndSlots(scatter);
    RepresentsFacts(chains, scatter, m);
    LoneSlot(chains, scatter, m, 0);
    forall h | 1 <= h < HASH_SIZE - 1 ensures chains[h] == [] { EmptySlot(chains, scatter, m, h); }
    RestEmpty(chains, 2);
    RestTwice(chains);
    EachOnceIff(chains, scatter, m);
  }

  lemma RestTwice(chains: seq<seq<HashBucket>>)
    requires |chains| == HASH_SIZE
    ensures Emitted(chains) == chains[0] + chains[0] + Rest(chains, 2, chains[1])
  {
    assert Rest(chains, 1, chains[0]) == chains[0] + Rest(chains, 2, chains[1]);
  }

  /** Two insertions into a new table reach it. */
  method LosesAndRepeats(width: Width, v0: nat, v204: nat) returns (table: HashTable, out: seq<(nat, nat)>)
    ensures fresh(table) && table.Valid() && table.contents == map[0 := v0, 204 := v204]
    ensures out == [(0, v0), (0, v0)]
  {
    hide Hash, IsScatter, Represents, Linkage, Emitted, EachOnce;
    var scatter := InitScatter(width);
    table := new HashTable(scatter, width);
    var ret := table.Insert(0, v0, true);
    ret := table.Insert(204, v204, true);
    EnumerationHazard(table.chains, scatter, table.contents);
    out := table.Enumerate();
  }

  // ------------------------------------------------------------------ runs

  datatype Op = Find(key: nat) | Put(key: nat, value: nat, memory: bool) | Drop(key: nat)

  /** What an operation does to a map. */
  function Effect(m: map<nat, nat>, op: Op): map<nat, nat> {
    if op.Put? && op.key !in m && op.memory then m[op.key := op.value]
    else if op.Drop? then m - {op.key}
    else m
  }

  /** The map after a run, the newest operation last. */
  function Meaning(ops: seq<Op>): map<nat, nat> {
    if ops == [] then map[] else Effect(Meaning(ops[..|ops| - 1]), ops[|ops| - 1])
  }

  /** What an operation must return on a map: 0 iff the key is there, except that insertion wants it absent and
      needs memory, and a successful find gives the value. */
  ghost predicate Answers(m: map<nat, nat>, op: Op, code: int, value: nat) {
    && code == (if (op.key in m) == op.Put? then 1 else if op.Put? && !op.memory then -1 else 0)
    && (op.Find? && code == 0 ==> op.key in m && value == m[op.key])
  }

  /** Any run on a new table returns what the map calls for, and every operation is counted once. */
  method Replay(table: HashTable, ops: seq<Op>) returns (codes: seq<int>, found: seq<nat>)
    requires table.Valid() && table.contents == map[] && table.Finds() == 0 && table.nodes == {}
    modifies table
    ensures table.Valid() && table.contents == Meaning(ops) && table.Finds() == |ops|
    ensures |codes| == |found| == |ops|
    ensures forall i :: 0 <= i < |ops| ==> Answers(Meaning(ops[..i]), ops[i], codes[i], found[i])
  {
    hide HashTable.Valid, Answers, Effect;
    codes, found := [], [];
    assert ops[..0] == [];
    for n := 0 to |ops|
      invariant table.Valid() && fresh(table.nodes) && table.contents == Meaning(ops[..n]) && table.Finds() == n == |codes| == |found|
      invariant forall i :: 0 <= i < n ==> Answers(Meaning(ops[..i]), ops[i], codes[i], found[i])
    {
      MeaningStep(ops, n);
      var code, value := Perform(table, ops[n]);
      codes, found := codes + [code], found + [value];
    }
    assert ops[..|ops|] == ops;
  }

  lemma MeaningStep(ops: seq<Op>, n: nat)
    requires n < |ops|
    ensures Meaning(ops[..n + 1]) == Effect(Meaning(ops[..n]), ops[n])
  {
    assert ops[..n + 1][..n] == ops[..n];
  }

  method Perform(table: HashTable, op: Op) returns (code: int, value: nat)
    requires table.Valid()
    modifies table, table.nodes
    ensures table.Valid() && fresh(table.nodes - old(table.nodes)) && table.Finds() == old(table.Finds()) + 1
    ensures table.contents == Effect(old(table.contents), op) && Answers(old(table.contents), op, code, value)
  {
    hide Represents, Linkage, Hash;
    value := 0;
    match op
    case Find(key) => code, value := table.Lookup(key);
    case Put(key, v, memory) => code := table.Insert(key, v, memory);
    case Drop(key) =>
      code := table.Delete(key);
  }
}
