/** The bucketed free queues (`struct pgfreelist`) as an index: every page that should be filed is on
    exactly the queue of its bucket, once.  A page is named by its position in the `vm_page` array. */
module FreeIndex {
  import opened PageLists

  // PGFL_UNKNOWN and PGFL_ZEROS
  datatype Queue = Unknown | Zeros
  datatype Bucket = Bucket(flist: nat, color: nat, queue: Queue)
  type Buckets = map<Bucket, seq<nat>>

  /** An intrusive LIST_REMOVE takes x off whichever list it is linked on. */
  function Unlink(q: Buckets, x: nat): (r: Buckets)
    ensures r.Keys == q.Keys
  {
    map b | b in q :: Without(q[b], x)
  }

  /** LIST_INSERT_HEAD. */
  function Push(q: Buckets, b: Bucket, x: nat): (r: Buckets)
    requires b in q
    ensures r.Keys == q.Keys
  {
    q[b := [x] + q[b]]
  }

  /** The queues hold exactly the pages of f, each on the queue of its bucket and only once. */
  ghost predicate Indexes(q: Buckets, f: map<nat, Bucket>) {
    && (forall b, x :: b in q && x in q[b] ==> x in f && f[x] == b)
    && (forall x :: x in f ==> f[x] in q && x in q[f[x]])
    && (forall b :: b in q ==> Distinct(q[b]))
  }

  lemma UnlinkIndexes(q: Buckets, f: map<nat, Bucket>, x: nat)
    requires Indexes(q, f)
    ensures Indexes(Unlink(q, x), f - {x})
  {
    var r, g := Unlink(q, x), f - {x};
    forall b | b in q ensures Distinct(r[b]) && x !in r[b] { WithoutDistinct(q[b], x); }
    forall b, y | b in r && y in r[b] ensures y in g && g[y] == b { assert y in q[b]; }
  }

  lemma PushIndexes(q: Buckets, f: map<nat, Bucket>, b: Bucket, x: nat)
    requires Indexes(q, f) && b in q && x !in f
    ensures Indexes(Push(q, b, x), f[x := b])
  {
    var r, g := Push(q, b, x), f[x := b];
    assert x !in q[b];
    forall c, y | c in r && y in r[c] ensures y in g && g[y] == c {
      if c == b { assert y == x || y in q[b]; }
    }
    forall y | y in g ensures g[y] in r && y in r[g[y]] {
      if y == x { assert r[b][0] == x; } else if g[y] == b { assert y in q[b]; assert y in r[b]; }
    }
  }

  /** Number of pages on all the queues of q whose queue kind is k. */
  ghost function TotalOn(q: Buckets, k: Queue): nat
    decreases |q|
  {
    if q == map[] then 0 else
      var b :| b in q;
      (if b.queue == k then |q[b]| else 0) + TotalOn(q - {b}, k)
  }

  ghost function FiledAs(f: map<nat, Bucket>, k: Queue): set<nat> {
    set x | x in f && f[x].queue == k
  }

  ghost function SetOf(s: seq<nat>): set<nat> {
    set x | x in s
  }

  lemma {:induction false} DistinctSize(s: seq<nat>)
    requires Distinct(s)
    ensures |SetOf(s)| == |s|
  {
    if s != [] {
      DistinctSize(s[1..]);
      assert SetOf(s) == {s[0]} + SetOf(s[1..]);
    }
  }

  /** Setting one bucket aside leaves an index of the remaining pages. */
  lemma SetAside(q: Buckets, f: map<nat, Bucket>, b: Bucket)
    requires Indexes(q, f) && b in q
    ensures Indexes(q - {b}, f - SetOf(q[b]))
  {
    var r, g := q - {b}, f - SetOf(q[b]);
    BucketSet(q, f, b);
    forall c, x | c in r && x in r[c] ensures x in g && g[x] == c {
      assert x in q[c];
    }
    forall x | x in g ensures g[x] in r && x in r[g[x]] {}
  }

  lemma FiledSplit(f: map<nat, Bucket>, here: set<nat>, b: Bucket, k: Queue)
    requires forall x :: x in here <==> x in f && f[x] == b
    ensures |FiledAs(f, k)| == (if b.queue == k then |here| else 0) + |FiledAs(f - here, k)|
  {
    var rest := FiledAs(f - here, k);
    if b.queue == k {
      assert FiledAs(f, k) == rest + here;
      assert rest !! here;
    } else {
      assert FiledAs(f, k) == rest;
    }
  }

  lemma BucketSet(q: Buckets, f: map<nat, Bucket>, b: Bucket)
    requires Indexes(q, f) && b in q
    ensures forall x :: x in SetOf(q[b]) <==> x in f && f[x] == b
  {}

  /** The queues of one kind hold, together, exactly as many pages as are filed as that kind. */
  lemma {:induction false} TotalIsSize(q: Buckets, f: map<nat, Bucket>, k: Queue)
    requires Indexes(q, f)
    ensures TotalOn(q, k) == |FiledAs(f, k)|
    decreases |q|
  {
    if q == map[] {
      assert FiledAs(f, k) == {};
    } else {
      var b :| b in q && TotalOn(q, k) == (if b.queue == k then |q[b]| else 0) + TotalOn(q - {b}, k);
      SetAside(q, f, b);
      BucketSet(q, f, b);
      DistinctSize(q[b]);
      FiledSplit(f, SetOf(q[b]), b, k);
      TotalIsSize(q - {b}, f - SetOf(q[b]), k);
    }
  }
}
