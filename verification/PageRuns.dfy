/** What holds along every run of the allocator's steps, from boot, under any interleaving of CPUs. */
module PageRuns {
  import opened PageLists
  import opened FreeIndex
  import opened FreePages
  import opened BitMask
  import opened PageSteps

  /** Every step of the run is one its caller may take where it takes it. */
  ghost predicate Permits(s: State, run: seq<Step>)
    decreases |run|
  {
    run == [] ||
    (Sized(s) && Guard(s, run[0]) && (InBounds(s, run[0]) ==> Permits(Apply(s, run[0]), run[1..])))
  }

  ghost predicate Runs(s: State, run: seq<Step>)
    decreases |run|
  {
    run == [] || (Enabled(s, run[0]) && Runs(Apply(s, run[0]), run[1..]))
  }

  ghost function After(s: State, run: seq<Step>): State
    requires Runs(s, run)
    decreases |run|
  {
    if run == [] then s else After(Apply(s, run[0]), run[1..])
  }

  /** The state uvm_page_init builds before it frees the first page: one CPU, empty queues. */
  ghost predicate Boot(s: State) {
    && s.nfreelist >= 1 && s.ncolors >= 1 && MaskOk(s.ncolors)
    && |s.cpus| == |s.idle| == 1 && s.idle[0] == NoWork
    && |s.memory| == |s.pages|
    && (forall p :: 0 <= p < |s.pages| ==> s.pages[p].pqflags == {} && s.pages[p].flist < s.nfreelist)
    && Shape(s.pageFree, s.nfreelist, s.ncolors)
    && s.pageFree == EmptyBuckets(s.pageFree)
    && s.cpus[0] == UvmCpu(s.pageFree, 0, 0, 0, s.cpus[0].idleZero)
    && s.free == s.zeropages == 0 && s.leaving == map[]
  }

  lemma EmptyIndex(q: Buckets)
    requires q == EmptyBuckets(q)
    ensures Indexes(q, map[])
    ensures FiledAs(map[], Unknown) == {} && FiledAs(map[], Zeros) == {}
  {
    assert forall b :: b in q ==> q[b] == [];
  }

  lemma BootInv(s: State)
    requires Boot(s)
    ensures Inv(s)
  {
    hide Indexes, EmptyBuckets, FiledAs, FreeMap, CpuMap, Shape, Coherent, IdleOk, MaskOk;
    NobodyFree(s.pages, s.ncolors);
    BootCoherent(s);
    BootIdle(s);
  }

  lemma NobodyFree(pages: seq<VmPage>, ncolors: nat)
    requires ncolors >= 1 && forall p :: 0 <= p < |pages| ==> pages[p].pqflags == {}
    ensures FreeMap(pages, ncolors) == map[] && CpuMap(pages, ncolors, 0) == map[]
  {}

  lemma BootIdle(s: State)
    requires Boot(s)
    ensures IdleOk(s)
  {
    hide Shape, EmptyBuckets, MaskOk;
  }

  lemma BootCoherent(s: State)
    requires Boot(s)
    ensures Coherent(s)
  {
    hide Indexes, EmptyBuckets, FiledAs, FreeMap, CpuMap, Shape, MaskOk;
    EmptyIndex(s.pageFree);
    NobodyFree(s.pages, s.ncolors);
  }

  /** Any run of allocations, frees, idle zeroing, CPU attachments and owners' writes keeps both
      indexes, all counters and the zero-fill promise, and never leaves an array's bounds. */
  lemma {:induction false} RunKeeps(s: State, run: seq<Step>)
    requires Inv(s) && Permits(s, run)
    ensures Runs(s, run) && Inv(After(s, run))
    decreases |run|
  {
    if run != [] {
      hide Inv, Guard, InBounds, Apply;
      StepKeeps(s, run[0]);
      RunKeeps(Apply(s, run[0]), run[1..]);
    }
  }

  lemma EveryRunFromBoot(s: State, run: seq<Step>)
    requires Boot(s) && Permits(s, run)
    ensures Runs(s, run) && Inv(After(s, run))
  {
    BootInv(s);
    RunKeeps(s, run);
  }

  // ----- what the invariant means

  ghost function Occurrences(q: seq<nat>, x: nat): nat {
    if q == [] then 0 else (if q[0] == x then 1 else 0) + Occurrences(q[1..], x)
  }

  lemma {:induction false} OccursOnce(q: seq<nat>, x: nat)
    requires Distinct(q)
    ensures Occurrences(q, x) == if x in q then 1 else 0
  {
    if q != [] { OccursOnce(q[1..], x); }
  }

  lemma IndexedOnce(q: Buckets, f: map<nat, Bucket>, x: nat, b: Bucket)
    requires Indexes(q, f) && b in q
    ensures Occurrences(q[b], x) == if x in f && f[x] == b then 1 else 0
  {
    OccursOnce(q[b], x);
  }

  /** A page's bucket is its free list, its frame number modulo the colours, and whether it is known to be zeroed. It is
      on the global queue of its bucket and on the matching queue of its own CPU exactly once
      if it is PQ_FREE, and on no other queue; a page that is not PQ_FREE is on no queue at all. */
  lemma ExactlyOneQueueEach(s: State, p: nat, b: Bucket, c: nat)
    requires Inv(s) && p < |s.pages| && c < |s.cpus| && b.flist < s.nfreelist && b.color < s.ncolors
    ensures b in s.pageFree && b in s.cpus[c].pageFree
    ensures var pg := s.pages[p];
      var its := b.flist == pg.flist && b.color == pg.frame % s.ncolors && (b.queue.Zeros? <==> PgZero in pg.flags);
      && Occurrences(s.pageFree[b], p) == (if PqFree in pg.pqflags && its then 1 else 0)
      && Occurrences(s.cpus[c].pageFree[b], p) == (if PqFree in pg.pqflags && its && pg.offset == c then 1 else 0)
  {
    assert CpuOk(s.cpus[c], CpuMap(s.pages, s.ncolors, c), s.nfreelist, s.ncolors);
    hide Indexes;
    BucketIs(s.pages[p], s.ncolors);
    IndexedOnce(s.pageFree, FreeMap(s.pages, s.ncolors), p, b);
    IndexedOnce(s.cpus[c].pageFree, CpuMap(s.pages, s.ncolors, c), p, b);
  }

  /** A page an idle CPU is zeroing is on no queue of any kind. */
  lemma ZeroingOnNoQueue(s: State, w: nat, b: Bucket, c: nat)
    requires Inv(s) && w < |s.idle| && s.idle[w].Zeroing?
    requires c < |s.cpus| && b.flist < s.nfreelist && b.color < s.ncolors
    ensures s.idle[w].page < |s.pages| && b in s.pageFree && b in s.cpus[c].pageFree
    ensures Occurrences(s.pageFree[b], s.idle[w].page) == 0
    ensures Occurrences(s.cpus[c].pageFree[b], s.idle[w].page) == 0
  {
    assert WorkOk(s, w);
    ExactlyOneQueueEach(s, s.idle[w].page, b, c);
  }

  lemma KindsSplit(f: map<nat, Bucket>)
    ensures |f| == |FiledAs(f, Unknown)| + |FiledAs(f, Zeros)|
  {
    assert f.Keys == FiledAs(f, Unknown) + FiledAs(f, Zeros);
  }

  /** uvmexp.free, uvmexp.zeropages and each CPU's pages[] are the total lengths of the queues they count. */
  lemma CountersAreQueueLengths(s: State, c: nat)
    requires Inv(s) && c < |s.cpus|
    ensures s.free == TotalOn(s.pageFree, Unknown) + TotalOn(s.pageFree, Zeros)
    ensures s.zeropages == TotalOn(s.pageFree, Zeros)
    ensures s.cpus[c].unknown == TotalOn(s.cpus[c].pageFree, Unknown)
    ensures s.cpus[c].zeros == TotalOn(s.cpus[c].pageFree, Zeros)
  {
    var f, g := FreeMap(s.pages, s.ncolors), CpuMap(s.pages, s.ncolors, c);
    assert CpuOk(s.cpus[c], g, s.nfreelist, s.ncolors);
    hide Indexes;
    KindsSplit(f);
    TotalIsSize(s.pageFree, f, Unknown);
    TotalIsSize(s.pageFree, f, Zeros);
    TotalIsSize(s.cpus[c].pageFree, g, Unknown);
    TotalIsSize(s.cpus[c].pageFree, g, Zeros);
  }

  ghost function SumPages(cpus: seq<UvmCpu>, q: Queue): int {
    if cpus == [] then 0
    else SumPages(cpus[..|cpus| - 1], q) + (var u := cpus[|cpus| - 1]; if q == Zeros then u.zeros else u.unknown)
  }

  ghost function BelowMap(pages: seq<VmPage>, ncolors: nat, k: nat): map<nat, Bucket>
    requires ncolors >= 1
  {
    map p: nat | p < |pages| && IsFree(pages[p]) && pages[p].offset < k :: BucketOf(pages[p], ncolors)
  }

  lemma BelowGrows(pages: seq<VmPage>, n: nat, k: nat, q: Queue)
    requires n >= 1
    ensures |FiledAs(BelowMap(pages, n, k + 1), q)| ==
            |FiledAs(BelowMap(pages, n, k), q)| + |FiledAs(CpuMap(pages, n, k), q)|
  {
    var a, b := FiledAs(BelowMap(pages, n, k), q), FiledAs(CpuMap(pages, n, k), q);
    assert FiledAs(BelowMap(pages, n, k + 1), q) == a + b;
    assert a !! b;
  }

  lemma {:induction false} SumBelow(s: State, k: nat, q: Queue)
    requires Inv(s) && k <= |s.cpus|
    ensures SumPages(s.cpus[..k], q) == |FiledAs(BelowMap(s.pages, s.ncolors, k), q)|
  {
    hide Inv, FiledAs, BelowMap, CpuMap, CpuOk;
    InvFacts(s);
    if k == 0 {
      NoneBelow(s.pages, s.ncolors, q);
    } else {
      SumBelow(s, k - 1, q);
      BelowGrows(s.pages, s.ncolors, k - 1, q);
      assert s.cpus[..k][..k - 1] == s.cpus[..k - 1];
      CpuCounts(s, k - 1);
    }
  }

  lemma InvFacts(s: State)
    requires Inv(s)
    ensures s.ncolors >= 1
  {}

  lemma NoneBelow(pages: seq<VmPage>, ncolors: nat, q: Queue)
    requires ncolors >= 1
    ensures FiledAs(BelowMap(pages, ncolors, 0), q) == {}
  {}

  lemma CpuCounts(s: State, c: nat)
    requires Inv(s) && c < |s.cpus|
    ensures s.cpus[c].unknown == |FiledAs(CpuMap(s.pages, s.ncolors, c), Unknown)|
    ensures s.cpus[c].zeros == |FiledAs(CpuMap(s.pages, s.ncolors, c), Zeros)|
  {
    hide FiledAs, CpuMap, FreeMap, Indexes, Shape, IdleOk, GlobalOk;
    assert CpuOk(s.cpus[c], CpuMap(s.pages, s.ncolors, c), s.nfreelist, s.ncolors);
  }

  /** The per-CPU counters add up to the global ones. */
  lemma CpuCountersAddUp(s: State)
    requires Inv(s)
    ensures SumPages(s.cpus, Zeros) == s.zeropages
    ensures SumPages(s.cpus, Unknown) + SumPages(s.cpus, Zeros) == s.free
  {
    hide Inv, FiledAs, BelowMap, FreeMap, SumPages;
    InvFacts(s);
    assert s.cpus[..|s.cpus|] == s.cpus;
    SumBelow(s, |s.cpus|, Unknown);
    SumBelow(s, |s.cpus|, Zeros);
    AllBelow(s);
    GlobalCounts(s);
    KindsSplit(FreeMap(s.pages, s.ncolors));
  }

  lemma AllBelow(s: State)
    requires Inv(s)
    ensures s.ncolors >= 1 && BelowMap(s.pages, s.ncolors, |s.cpus|) == FreeMap(s.pages, s.ncolors)
  {
    hide CpuOk, GlobalOk, BucketOf;
  }

  lemma GlobalCounts(s: State)
    requires Inv(s)
    ensures s.ncolors >= 1 && s.free == |FreeMap(s.pages, s.ncolors)| && s.zeropages == |FiledAs(FreeMap(s.pages, s.ncolors), Zeros)|
  {
    hide CpuOk, FiledAs, FreeMap, Indexes, Shape;
  }

  /** An allocation zero-fills exactly the frame it hands out on a UVM_PGA_ZERO request, whichever
      queue the page came from, and touches no memory on other requests. */
  lemma ZeroedAlloc(s: State, step: Step)
    requires Inv(s) && step.Alloc? && Guard(s, step)
    ensures Enabled(s, step)
    ensures Apply(s, step).memory == if step.wantZero then s.memory[step.page := true] else s.memory
  {
    GuardEnables(s, step);
    hide Coherent, IdleOk;
    if PgZero in s.pages[step.page].flags { assert s.memory[step.page]; }
  }

  /** The same on every state reachable from boot. */
  lemma ZeroGuarantee(s: State, run: seq<Step>, last: Step)
    requires Boot(s) && last.Alloc? && Permits(s, run + [last])
    ensures Runs(s, run) && Enabled(After(s, run), last)
    ensures var t := After(s, run);
            Apply(t, last).memory == if last.wantZero then t.memory[last.page := true] else t.memory
  {
    BootInv(s);
    hide Inv, Boot, Guard, InBounds, Apply;
    PrefixPermits(s, run, last);
    ZeroedAlloc(After(s, run), last);
  }

  lemma {:induction false} PrefixPermits(s: State, run: seq<Step>, last: Step)
    requires Inv(s) && Permits(s, run + [last])
    ensures Permits(s, run) && Runs(s, run) && Inv(After(s, run))
    ensures Sized(After(s, run)) && Guard(After(s, run), last)
    decreases |run|
  {
    hide Inv, Guard, InBounds, Apply;
    if run == [] {
      assert (run + [last])[0] == last;
    } else {
      assert (run + [last])[0] == run[0] && (run + [last])[1..] == run[1..] + [last];
      StepKeeps(s, run[0]);
      PrefixPermits(Apply(s, run[0]), run[1..], last);
    }
  }
}
