/** Re-filing every free page under a larger number of colours (uvm_page_recolor): one page at a time,
    off the src queues and onto the new ones, and exactly when the outcome is a coherent state. */
module Recolor {
  import opened BitMask
  import opened FreeIndex
  import opened FreePages
  import opened PageSteps

  /** The part of f whose pages have been moved. */
  ghost function Moved(f: map<nat, Bucket>, done: set<nat>): map<nat, Bucket> {
    map p | p in f && p in done :: f[p]
  }

  /** Half way: pages outside `done` are still filed under f, pages in `done` already under g. */
  ghost predicate Moving(src: Buckets, dst: Buckets, f: map<nat, Bucket>, g: map<nat, Bucket>, done: set<nat>) {
    && Indexes(src, f - done)
    && Indexes(dst, Moved(g, done))
  }

  lemma MoveOne(src: Buckets, dst: Buckets, f: map<nat, Bucket>, g: map<nat, Bucket>, done: set<nat>, p: nat)
    requires Moving(src, dst, f, g, done)
    requires p in f - done && p in g && g[p] in dst
    ensures Moving(Unlink(src, p), Push(dst, g[p], p), f, g, done + {p})
  {
    hide Indexes, Unlink, Push;
    UnlinkIndexes(src, f - done, p);
    assert f - done - {p} == f - (done + {p});
    PushIndexes(dst, Moved(g, done), g[p], p);
    assert Moved(g, done)[p := g[p]] == Moved(g, done + {p});
  }

  /** The new queues take in a page from wherever it was. */
  lemma TakeInOne(dst: Buckets, g: map<nat, Bucket>, done: set<nat>, p: nat)
    requires Indexes(dst, Moved(g, done)) && p !in done && p in g && g[p] in dst
    ensures Indexes(Push(dst, g[p], p), Moved(g, done + {p}))
  {
    hide Indexes, Push;
    PushIndexes(dst, Moved(g, done), g[p], p);
    assert Moved(g, done)[p := g[p]] == Moved(g, done + {p});
  }

  lemma HeadStillThere(src: Buckets, f: map<nat, Bucket>, done: set<nat>, b: Bucket)
    requires Indexes(src, f - done) && b in src && src[b] != []
    ensures var p := src[b][0]; p in f - done && f[p] == b
  {}

  /** Once every src queue is empty, everything has moved. */
  lemma AllMoved(src: Buckets, dst: Buckets, f: map<nat, Bucket>, g: map<nat, Bucket>, done: set<nat>)
    requires Moving(src, dst, f, g, done) && f.Keys == g.Keys
    requires forall b :: b in src ==> src[b] == []
    ensures Moved(g, done) == g
  {
    forall p | p in g ensures p in done {
      assert p in f - done ==> f[p] in src && p in src[f[p]];
    }
  }

  lemma FreshIndex(dst: Buckets, g: map<nat, Bucket>)
    requires forall b :: b in dst ==> dst[b] == []
    ensures Indexes(dst, Moved(g, {}))
  {}

  /** A page's bucket under the new mask: only the colour may differ. */
  lemma NewBucket(s: State, n: nat, p: nat)
    requires Coherent(s) && MaskOk(n) && p < |s.pages| && IsFree(s.pages[p])
    ensures var b := BucketOf(s.pages[p], n);
            b.flist == s.pages[p].flist < s.nfreelist && b.color < n && b.queue == QueueOf(s.pages[p])
  {
    hide GlobalOk, CpuOk;
    ColorMask(s.pages[p].frame, n);
  }

  lemma SameFreePages(pages: seq<VmPage>, n: nat, m: nat)
    requires n >= 1 && m >= 1
    ensures FreeMap(pages, n).Keys == FreeMap(pages, m).Keys
    ensures forall k :: FiledAs(FreeMap(pages, n), k) == FiledAs(FreeMap(pages, m), k)
  {
    forall k ensures FiledAs(FreeMap(pages, n), k) == FiledAs(FreeMap(pages, m), k) {
      forall p ensures p in FiledAs(FreeMap(pages, n), k) <==> p in FiledAs(FreeMap(pages, m), k) {}
    }
  }

  /** What recolouring by CPU c leaves: every free page filed under the new mask, in the global queues and
      in the queues of CPU c, and nothing else about the pages, counters or idle CPUs changed. */
  ghost predicate Recolored(s: State, t: State, c: nat, n: nat)
    requires c < |s.cpus|
  {
    && n >= 1 && |t.cpus| == |s.cpus|
    && t == s.(ncolors := n, pageFree := t.pageFree, cpus := t.cpus)
    && Shape(t.pageFree, s.nfreelist, n) && Shape(t.cpus[c].pageFree, s.nfreelist, n)
    && Indexes(t.pageFree, FreeMap(s.pages, n)) && Indexes(t.cpus[c].pageFree, FreeMap(s.pages, n))
    && (forall d :: 0 <= d < |t.cpus| ==> t.cpus[d] == s.cpus[d].(pageFree := t.cpus[d].pageFree))
    && (forall d :: 0 <= d < |t.cpus| && d != c ==> t.cpus[d].pageFree.Keys == s.cpus[d].pageFree.Keys)
  }

  /** So a free page is on the queue of its frame number modulo the new number of colours, in both indexes, and on no
      other; list and kind are as before. */
  lemma RefiledWhere(s: State, t: State, c: nat, n: nat, p: nat, b: Bucket)
    requires c < |s.cpus| && MaskOk(n) && Recolored(s, t, c, n) && p < |s.pages| && b in t.pageFree
    ensures b in t.cpus[c].pageFree
    ensures var pg := s.pages[p];
      var its := PqFree in pg.pqflags && b.flist == pg.flist && b.color == pg.frame % n && (b.queue.Zeros? <==> PgZero in pg.flags);
      (p in t.pageFree[b] <==> its) && (p in t.cpus[c].pageFree[b] <==> its)
  {
    hide Indexes, BucketOf;
    BucketIs(s.pages[p], n);
    FoundIff(t.pageFree, FreeMap(s.pages, n), p, b);
    FoundIff(t.cpus[c].pageFree, FreeMap(s.pages, n), p, b);
  }

  lemma FoundIff(q: Buckets, f: map<nat, Bucket>, p: nat, b: Bucket)
    requires Indexes(q, f) && b in q
    ensures p in q[b] <==> p in f && f[p] == b
  {}

  /** A page being zeroed was promised to the bucket it came from. */
  ghost predicate ZeroingStillRight(s: State, n: nat)
    requires n >= 1
  {
    forall c :: 0 <= c < |s.idle| && s.idle[c].Zeroing? ==>
      s.idle[c].page < |s.pages| && ColorOf(s.pages[s.idle[c].page], n) == s.idle[c].bucket
  }

  /** A page being freed was promised to the bucket uvm_pagefree computed before it took the lock. */
  ghost predicate FreeingStillRight(s: State, n: nat)
    requires n >= 1
  {
    forall p :: p in s.leaving ==> p < |s.pages| && ColorOf(s.pages[p], n) == s.leaving[p].color
  }

  /** Every page promised to a bucket keeps its colour under the new mask. */
  ghost predicate PendingStillRight(s: State, n: nat)
    requires n >= 1
  {
    ZeroingStillRight(s, n) && FreeingStillRight(s, n)
  }

  lemma OneCpu(s: State, n: nat)
    requires PagesOk(s) && |s.cpus| == 1 && n >= 1
    ensures CpuMap(s.pages, n, 0) == FreeMap(s.pages, n)
  {}

  lemma RefiledCpu(u: UvmCpu, q: Buckets, f: map<nat, Bucket>, g: map<nat, Bucket>, nf: nat, n: nat, m: nat)
    requires CpuOk(u, f, nf, n) && Shape(q, nf, m) && Indexes(q, g) && n <= m
    requires |FiledAs(f, Unknown)| == |FiledAs(g, Unknown)| && |FiledAs(f, Zeros)| == |FiledAs(g, Zeros)|
    ensures CpuOk(u.(pageFree := q), g, nf, m)
  {}

  lemma RefiledGlobal(s: State, q: Buckets, g: map<nat, Bucket>, m: nat)
    requires Coherent(s) && Shape(q, s.nfreelist, m) && Indexes(q, g)
    requires |g| == |FreeMap(s.pages, s.ncolors)| && |FiledAs(g, Zeros)| == |FiledAs(FreeMap(s.pages, s.ncolors), Zeros)|
    ensures GlobalOk(q, s.free, s.zeropages, g, s.nfreelist, m)
  {
    hide CpuOk, Indexes, Shape, FiledAs;
  }

  lemma RecoloredCoherent(s: State, t: State, n: nat)
    requires Coherent(s) && |s.cpus| == 1 && s.ncolors <= n && MaskOk(n) && Recolored(s, t, 0, n)
    ensures Coherent(t)
  {
    hide Indexes, Shape, FiledAs, GlobalOk, CpuOk, FreeMap, CpuMap, MaskOk;
    OneCpu(s, n);
    OneCpu(s, s.ncolors);
    SameCounts(s, n);
    RefiledGlobal(s, t.pageFree, FreeMap(s.pages, n), n);
    RefiledCpu(s.cpus[0], t.cpus[0].pageFree, CpuMap(s.pages, s.ncolors, 0), CpuMap(s.pages, n, 0), s.nfreelist, s.ncolors, n);
  }

  lemma SameCounts(s: State, n: nat)
    requires s.ncolors >= 1 && n >= 1
    ensures |FreeMap(s.pages, n)| == |FreeMap(s.pages, s.ncolors)|
    ensures |FiledAs(FreeMap(s.pages, n), Zeros)| == |FiledAs(FreeMap(s.pages, s.ncolors), Zeros)|
    ensures |FiledAs(FreeMap(s.pages, n), Unknown)| == |FiledAs(FreeMap(s.pages, s.ncolors), Unknown)|
  {
    hide FiledAs;
    SameFreePages(s.pages, s.ncolors, n);
    assert |FreeMap(s.pages, n).Keys| == |FreeMap(s.pages, s.ncolors).Keys|;
  }

  lemma RecoloredIdle(s: State, t: State, c: nat, n: nat)
    requires Inv(s) && c < |s.cpus| && Recolored(s, t, c, n)
    ensures IdleOk(t) <==> ZeroingStillRight(s, n)
  {
    hide Coherent, Indexes, Shape, ZeroOk;
    NotNoColors(s);
    forall d | 0 <= d < |s.idle| && s.idle[d].Zeroing?
      ensures WorkOk(t, d) <==> s.idle[d].page < |s.pages| && ColorOf(s.pages[s.idle[d].page], n) == s.idle[d].bucket
    {
      assert WorkOk(s, d);
    }
  }

  lemma RecoloredLeaving(s: State, t: State, c: nat, n: nat)
    requires Inv(s) && c < |s.cpus| && Recolored(s, t, c, n)
    ensures |t.memory| == |t.pages| && (AllLeavingOk(t) <==> FreeingStillRight(s, n))
  {
    hide Coherent, Indexes, Shape, ZeroOk, IdleOk;
    NotNoColors(s);
    MemoryFits(s);
    forall p | p in s.leaving
      ensures LeavingOk(t, p) <==> p < |s.pages| && ColorOf(s.pages[p], n) == s.leaving[p].color
    {
      assert LeavingOk(s, p);
    }
  }

  lemma NotNoColors(s: State)
    requires Coherent(s)
    ensures s.ncolors >= 1
  {}

  /** With a second CPU attached its bucket arrays stay too short for the new colours. */
  lemma OtherCpuTooShort(s: State, t: State, c: nat, n: nat)
    requires Coherent(s) && c < |s.cpus| && |s.cpus| > 1 && s.ncolors < n && Recolored(s, t, c, n)
    ensures !Coherent(t)
  {
    var d := if c == 0 then 1 else 0;
    var b := Bucket(0, s.ncolors, Zeros);
    assert CpuOk(s.cpus[d], CpuMap(s.pages, s.ncolors, d), s.nfreelist, s.ncolors);
    assert b !in s.cpus[d].pageFree;
    NoRoom(t.cpus[d], CpuMap(s.pages, n, d), s.nfreelist, n, b);
    hide Indexes, GlobalOk, FiledAs;
  }

  lemma NoRoom(u: UvmCpu, f: map<nat, Bucket>, nf: nat, n: nat, b: Bucket)
    requires b.flist < nf && b.color < n && b !in u.pageFree
    ensures !CpuOk(u, f, nf, n)
  {}

  /** Growing the number of colours leaves a coherent state exactly when no other CPU is attached and
      every page being zeroed or freed at the time keeps its colour under the new mask. */
  lemma RecolorSafeIff(s: State, t: State, c: nat, n: nat)
    requires Inv(s) && c < |s.cpus| && s.ncolors < n && MaskOk(n) && Recolored(s, t, c, n)
    ensures Inv(t) <==> |s.cpus| == 1 && PendingStillRight(s, n)
  {
    hide Coherent, IdleOk, Recolored, ZeroingStillRight, FreeingStillRight, AllLeavingOk;
    RecoloredIdle(s, t, c, n);
    RecoloredLeaving(s, t, c, n);
    MemoryFits(s);
    if |s.cpus| == 1 {
      RecoloredCoherent(s, t, n);
      RecoloredZero(s, t, c, n);
    } else {
      OtherCpuTooShort(s, t, c, n);
    }
  }

  lemma MemoryFits(s: State)
    requires Coherent(s)
    ensures |s.memory| == |s.pages|
  {}

  lemma RecoloredZero(s: State, t: State, c: nat, n: nat)
    requires c < |s.cpus| && Recolored(s, t, c, n) && |s.memory| == |s.pages| && ZeroOk(s)
    ensures |t.memory| == |t.pages| && ZeroOk(t)
  {
    hide Indexes, Shape;
  }

  /** One CPU, one colour, one page of odd frame that is on no queue. */
  function OddPage(idle: seq<IdleWork>, leaving: map<nat, Bucket>): State {
    var q := InitBuckets(1, 1);
    State(1, 1, [VmPage(1, 0, {}, {}, 0)], [false], q, [UvmCpu(q, 0, 0, 0, true)], idle, 0, 0, leaving)
  }

  function OddPageRecolored(idle: seq<IdleWork>, leaving: map<nat, Bucket>): State {
    var q := InitBuckets(1, 2);
    OddPage(idle, leaving).(ncolors := 2, pageFree := q, cpus := [UvmCpu(q, 0, 0, 0, true)])
  }

  lemma OddColors(pg: VmPage)
    requires pg.frame == 1
    ensures MaskOk(1) && MaskOk(2) && ColorOf(pg, 1) == 0 && ColorOf(pg, 2) == 1
  {
    assert BitAnd(0, 1) == 0 && BitAnd(1, 0) == 0 && BitAnd(1, 2) == 0 && BitAnd(1, 1) == 1;
  }

  lemma NothingFiled(q: Buckets)
    requires forall b :: b in q ==> q[b] == []
    ensures Indexes(q, map[]) && FiledAs(map[], Unknown) == {} && FiledAs(map[], Zeros) == {}
  {}

  lemma NoFreePages(pages: seq<VmPage>, n: nat)
    requires n >= 1 && forall p :: 0 <= p < |pages| ==> !IsFree(pages[p])
    ensures FreeMap(pages, n) == map[] && forall c :: CpuMap(pages, n, c) == map[]
  {
    hide BucketOf;
  }

  lemma OddPageCoherent(idle: seq<IdleWork>, leaving: map<nat, Bucket>)
    requires |idle| == 1
    ensures var s := OddPage(idle, leaving); Coherent(s) && Recolored(s, OddPageRecolored(idle, leaving), 0, 2)
  {
    hide InitBuckets, BitAnd, Indexes, FiledAs, FreeMap, CpuMap, Shape;
    var s := OddPage(idle, leaving);
    OddColors(s.pages[0]);
    NoFreePages(s.pages, 1);
    NoFreePages(s.pages, 2);
    NothingFiled(InitBuckets(1, 1));
    NothingFiled(InitBuckets(1, 2));
  }

  /** It does happen: a page of odd frame is being zeroed when the colours grow from one to two. */
  lemma ZeroingHazard() returns (s: State, t: State)
    ensures Inv(s) && |s.cpus| == 1 && s.ncolors == 1 && s.idle == [Zeroing(0, 0, 0)] && s.leaving == map[]
    ensures Recolored(s, t, 0, 2) && !Inv(t)
  {
    hide Coherent, Recolored, BitAnd;
    s, t := OddPage([Zeroing(0, 0, 0)], map[]), OddPageRecolored([Zeroing(0, 0, 0)], map[]);
    OddColors(s.pages[0]);
    OddPageCoherent(s.idle, s.leaving);
    assert WorkOk(s, 0);
    assert !ZeroingStillRight(s, 2);
    RecolorSafeIff(s, t, 0, 2);
  }

  /** And so does the other case: uvm_pagefree has computed the page's colour and waits for the lock. */
  lemma FreeingHazard() returns (s: State, t: State)
    ensures Inv(s) && |s.cpus| == 1 && s.ncolors == 1 && s.idle == [NoWork] && s.leaving == map[0 := Bucket(0, 0, Unknown)]
    ensures Recolored(s, t, 0, 2) && !Inv(t)
  {
    hide Coherent, Recolored, BitAnd;
    s, t := OddPage([NoWork], map[0 := Bucket(0, 0, Unknown)]), OddPageRecolored([NoWork], map[0 := Bucket(0, 0, Unknown)]);
    OddColors(s.pages[0]);
    OddPageCoherent(s.idle, s.leaving);
    assert LeavingOk(s, 0);
    assert !FreeingStillRight(s, 2);
    RecolorSafeIff(s, t, 0, 2);
  }

  // ----- the loops

  /** uvm_page_init_buckets on every free list. */
  function InitBuckets(nfreelist: nat, ncolors: nat): (r: Buckets)
    ensures Shape(r, nfreelist, ncolors)
    ensures forall b :: b in r ==> r[b] == []
  {
    map fl: nat, color: nat, q: Queue | fl < nfreelist && color < ncolors :: Bucket(fl, color, q) := []
  }

  /** Buckets the three nested loops have finished with. */
  predicate Passed(b: Bucket, lcv: nat, color: nat, i: nat) {
    b.flist < lcv || (b.flist == lcv && (b.color < color || (b.color == color && b.queue == Unknown && i > 0)
                                         || (b.color == color && i > 1)))
  }

  ghost predicate Cleared(src: Buckets, lcv: nat, color: nat, i: nat) {
    forall b :: b in src && Passed(b, lcv, color, i) ==> src[b] == []
  }

  /** Everything that holds between two moves. */
  ghost predicate Midway(s: State, n: nat, c: nat, src: Buckets, cpus: seq<UvmCpu>, gpgfl: Buckets, pgfl: Buckets, done: set<nat>)
    requires s.ncolors >= 1 && n >= 1
  {
    && Moving(src, gpgfl, FreeMap(s.pages, s.ncolors), FreeMap(s.pages, n), done)
    && Indexes(pgfl, Moved(FreeMap(s.pages, n), done))
    && Shape(gpgfl, s.nfreelist, n) && Shape(pgfl, s.nfreelist, n)
    && src.Keys == s.pageFree.Keys
    && |cpus| == |s.cpus|
    && (forall d :: 0 <= d < |cpus| ==>
          cpus[d] == s.cpus[d].(pageFree := cpus[d].pageFree) && cpus[d].pageFree.Keys == s.cpus[d].pageFree.Keys)
  }

  lemma MidwayStarts(s: State, n: nat, c: nat)
    requires Coherent(s) && MaskOk(n)
    ensures s.ncolors >= 1 && n >= 1
    ensures var q := InitBuckets(s.nfreelist, n); Midway(s, n, c, s.pageFree, s.cpus, q, q, {})
  {
    hide CpuOk, Indexes, InitBuckets, FreeMap;
    FreshIndex(InitBuckets(s.nfreelist, n), FreeMap(s.pages, n));
    assert FreeMap(s.pages, s.ncolors) - {} == FreeMap(s.pages, s.ncolors);
  }

  /** The page at the head of an old queue and where it goes. */
  lemma NextToMove(s: State, n: nat, c: nat, src: Buckets, cpus: seq<UvmCpu>, gpgfl: Buckets, pgfl: Buckets, done: set<nat>, b: Bucket)
    requires Coherent(s) && MaskOk(n) && Midway(s, n, c, src, cpus, gpgfl, pgfl, done) && b in src && src[b] != []
    ensures var p := src[b][0];
            && p !in done && p < |s.pages| && IsFree(s.pages[p]) && s.pages[p].offset < |cpus|
            && var t := Bucket(b.flist, ColorOf(s.pages[p], n), b.queue);
            && t == BucketOf(s.pages[p], n) && t in gpgfl && t in pgfl
  {
    hide Indexes, GlobalOk, CpuOk;
    var f := FreeMap(s.pages, s.ncolors);
    HeadStillThere(src, f, done, b);
    NewBucket(s, n, src[b][0]);
  }

  lemma MidwayMove(s: State, n: nat, c: nat, src: Buckets, cpus: seq<UvmCpu>, gpgfl: Buckets, pgfl: Buckets, done: set<nat>, p: nat)
    requires s.ncolors >= 1 && n >= 1 && Midway(s, n, c, src, cpus, gpgfl, pgfl, done)
    requires p < |s.pages| && p !in done && IsFree(s.pages[p]) && s.pages[p].offset < |cpus|
    requires BucketOf(s.pages[p], n) in gpgfl && BucketOf(s.pages[p], n) in pgfl
    ensures var t, d := BucketOf(s.pages[p], n), s.pages[p].offset;
            Midway(s, n, c, Unlink(src, p), cpus[d := cpus[d].(pageFree := Unlink(cpus[d].pageFree, p))],
                   Push(gpgfl, t, p), Push(pgfl, t, p), done + {p})
  {
    hide Indexes, Moved, BucketOf, Unlink, Push, Moving;
    var f, g := FreeMap(s.pages, s.ncolors), FreeMap(s.pages, n);
    assert p in f && p in g && g[p] == BucketOf(s.pages[p], n);
    MoveOneFrom(src, gpgfl, f, g, done, p);
    TakeInOne(pgfl, g, done, p);
  }

  lemma MoveOneFrom(src: Buckets, dst: Buckets, f: map<nat, Bucket>, g: map<nat, Bucket>, done: set<nat>, p: nat)
    requires Moving(src, dst, f, g, done) && p in f && p !in done && p in g && g[p] in dst
    ensures Moving(Unlink(src, p), Push(dst, g[p], p), f, g, done + {p})
  {
    hide Indexes, Moving;
    MoveOne(src, dst, f, g, done, p);
  }

  lemma UnlinkCleared(src: Buckets, p: nat, lcv: nat, color: nat, i: nat)
    requires Cleared(src, lcv, color, i)
    ensures Cleared(Unlink(src, p), lcv, color, i)
  {}

  lemma MidwayDone(s: State, n: nat, c: nat, src: Buckets, cpus: seq<UvmCpu>, gpgfl: Buckets, pgfl: Buckets, done: set<nat>)
    requires Coherent(s) && MaskOk(n) && c < |s.cpus| && Midway(s, n, c, src, cpus, gpgfl, pgfl, done)
    requires forall b :: b in src ==> src[b] == []
    ensures Recolored(s, s.(ncolors := n, pageFree := gpgfl, cpus := cpus[c := cpus[c].(pageFree := pgfl)]), c, n)
  {
    hide Indexes, Moved, CpuOk, GlobalOk;
    var f, g := FreeMap(s.pages, s.ncolors), FreeMap(s.pages, n);
    SameFreePages(s.pages, s.ncolors, n);
    AllMoved(src, gpgfl, f, g, done);
  }

  /** The nested loops of uvm_page_recolor, run by CPU c. */
  method Refile(ghost s: State, pages: seq<VmPage>, pageFree: Buckets, cpus0: seq<UvmCpu>, c: nat,
                nfreelist: nat, ocolors: nat, newncolors: nat)
    returns (gpgfl: Buckets, pgfl: Buckets, cpus: seq<UvmCpu>)
    requires Coherent(s) && c < |s.cpus| && MaskOk(newncolors)
    requires pages == s.pages && pageFree == s.pageFree && cpus0 == s.cpus && nfreelist == s.nfreelist && ocolors == s.ncolors
    ensures |cpus| == |s.cpus|
    ensures Recolored(s, s.(ncolors := newncolors, pageFree := gpgfl, cpus := cpus[c := cpus[c].(pageFree := pgfl)]), c, newncolors)
  {
    hide Coherent, Midway, Cleared, MaskOk, Recolored, ColorOf, InitBuckets;
    MidwayStarts(s, newncolors, c);
    var src := pageFree;
    cpus, gpgfl, pgfl := cpus0, InitBuckets(nfreelist, newncolors), InitBuckets(nfreelist, newncolors);
    ghost var done := {};
    ClearedNone(src);
    var lcv := 0;
    while lcv < nfreelist
      invariant lcv <= nfreelist && Midway(s, newncolors, c, src, cpus, gpgfl, pgfl, done) && Cleared(src, lcv, 0, 0)
    {
      var color := 0;
      while color < ocolors
        invariant color <= ocolors && Midway(s, newncolors, c, src, cpus, gpgfl, pgfl, done) && Cleared(src, lcv, color, 0)
      {
        var i := 0;
        while i < 2
          invariant i <= 2 && Midway(s, newncolors, c, src, cpus, gpgfl, pgfl, done) && Cleared(src, lcv, color, i)
        {
          var b := Bucket(lcv, color, if i == 0 then Unknown else Zeros);
          OldBucketThere(s, newncolors, c, src, cpus, gpgfl, pgfl, done, b);
          while src[b] != []
            invariant Midway(s, newncolors, c, src, cpus, gpgfl, pgfl, done) && Cleared(src, lcv, color, i) && b in src
            decreases |src[b]|
          {
            var p := src[b][0];
            NextToMove(s, newncolors, c, src, cpus, gpgfl, pgfl, done, b);
            MidwayMove(s, newncolors, c, src, cpus, gpgfl, pgfl, done, p);
            UnlinkCleared(src, p, lcv, color, i);
            var d := pages[p].offset;
            var t := Bucket(lcv, ColorOf(pages[p], newncolors), b.queue);
            src := Unlink(src, p);
            cpus := cpus[d := cpus[d].(pageFree := Unlink(cpus[d].pageFree, p))];
            gpgfl, pgfl := Push(gpgfl, t, p), Push(pgfl, t, p);
            done := done + {p};
          }
          ClearedBucket(src, lcv, color, i);
          i := i + 1;
        }
        ClearedColor(src, lcv, color);
        color := color + 1;
      }
      ClearedList(s, newncolors, c, src, cpus, gpgfl, pgfl, done, lcv);
      lcv := lcv + 1;
    }
    ClearedAll(s, newncolors, c, src, cpus, gpgfl, pgfl, done);
    MidwayDone(s, newncolors, c, src, cpus, gpgfl, pgfl, done);
    MidwaySize(s, newncolors, c, src, cpus, gpgfl, pgfl, done);
  }

  lemma ClearedNone(src: Buckets)
    ensures Cleared(src, 0, 0, 0)
  {}

  lemma ClearedBucket(src: Buckets, lcv: nat, color: nat, i: nat)
    requires i < 2 && Cleared(src, lcv, color, i)
    requires var b := Bucket(lcv, color, if i == 0 then Unknown else Zeros); b in src && src[b] == []
    ensures Cleared(src, lcv, color, i + 1)
  {}

  lemma ClearedColor(src: Buckets, lcv: nat, color: nat)
    requires Cleared(src, lcv, color, 2)
    ensures Cleared(src, lcv, color + 1, 0)
  {}

  lemma ClearedList(s: State, n: nat, c: nat, src: Buckets, cpus: seq<UvmCpu>, gpgfl: Buckets, pgfl: Buckets, done: set<nat>, lcv: nat)
    requires Coherent(s) && n >= 1 && Midway(s, n, c, src, cpus, gpgfl, pgfl, done) && Cleared(src, lcv, s.ncolors, 0)
    ensures Cleared(src, lcv + 1, 0, 0)
  {
    hide Indexes, CpuOk, Moving;
  }

  lemma ClearedAll(s: State, n: nat, c: nat, src: Buckets, cpus: seq<UvmCpu>, gpgfl: Buckets, pgfl: Buckets, done: set<nat>)
    requires Coherent(s) && n >= 1 && Midway(s, n, c, src, cpus, gpgfl, pgfl, done) && Cleared(src, s.nfreelist, 0, 0)
    ensures forall b :: b in src ==> src[b] == []
  {
    hide Indexes, CpuOk, Moving;
  }

  lemma OldBucketThere(s: State, n: nat, c: nat, src: Buckets, cpus: seq<UvmCpu>, gpgfl: Buckets, pgfl: Buckets, done: set<nat>, b: Bucket)
    requires Coherent(s) && n >= 1 && Midway(s, n, c, src, cpus, gpgfl, pgfl, done)
    requires b.flist < s.nfreelist && b.color < s.ncolors
    ensures b in src
  {
    hide Indexes, CpuOk, Moving;
  }

  lemma MidwaySize(s: State, n: nat, c: nat, src: Buckets, cpus: seq<UvmCpu>, gpgfl: Buckets, pgfl: Buckets, done: set<nat>)
    requires s.ncolors >= 1 && n >= 1 && Midway(s, n, c, src, cpus, gpgfl, pgfl, done)
    ensures |cpus| == |s.cpus|
  {
    hide Moving, Indexes, Shape;
  }
}
