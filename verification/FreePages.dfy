/** The state behind the NetBSD free-page queues: the vm_page array, the global and the per-CPU
    bucketed queues, their counters, the pages idle CPUs hold while zeroing, and which physical
    frames currently contain only zeros. */
module FreePages {
  import opened BitMask
  import opened FreeIndex

  datatype PgFlag = PgBusy | PgWanted | PgTabled | PgClean | PgFake | PgZero
  datatype PqFlag = PqFree | PqAnon

  // `offset` is the CPU the page is filed under while PQ_FREE is set (VM_FREE_PAGE_TO_CPU).
  datatype VmPage = VmPage(frame: nat, flist: nat, flags: set<PgFlag>, pqflags: set<PqFlag>, offset: nat)

  // struct uvm_cpu: `unknown` and `zeros` are pages[PGFL_UNKNOWN] and pages[PGFL_ZEROS]
  datatype UvmCpu = UvmCpu(pageFree: Buckets, unknown: int, zeros: int, nextColor: nat, idleZero: bool)

  // The locals of uvm_pageidlezero while it holds a page outside the lock.
  datatype IdleWork = NoWork | Zeroing(page: nat, freeList: nat, bucket: nat)

  datatype State = State(
    nfreelist: nat,
    ncolors: nat,
    pages: seq<VmPage>,
    memory: seq<bool>,       // is the frame of page p filled with zeros?
    pageFree: Buckets,
    cpus: seq<UvmCpu>,
    idle: seq<IdleWork>,
    free: int,
    zeropages: int,
    leaving: map<nat, Bucket>)   // pages uvm_pagefree has chosen a bucket for but not inserted yet

  predicate IsFree(pg: VmPage) { PqFree in pg.pqflags }

  function QueueOf(pg: VmPage): Queue {
    if PgZero in pg.flags then Zeros else Unknown
  }

  // VM_PGCOLOR_BUCKET with colormask == ncolors - 1
  function ColorOf(pg: VmPage, ncolors: nat): nat
    requires ncolors >= 1
  {
    BitAnd(pg.frame, ncolors - 1)
  }

  function BucketOf(pg: VmPage, ncolors: nat): Bucket
    requires ncolors >= 1
  {
    Bucket(pg.flist, ColorOf(pg, ncolors), QueueOf(pg))
  }

  /** With a power of two of colours, a page's colour is its frame number modulo that number. */
  lemma ColorIsMod(pg: VmPage, ncolors: nat)
    requires MaskOk(ncolors)
    ensures ColorOf(pg, ncolors) == pg.frame % ncolors
  {
    ColorMask(pg.frame, ncolors);
  }

  lemma BucketIs(pg: VmPage, ncolors: nat)
    requires MaskOk(ncolors)
    ensures BucketOf(pg, ncolors) == Bucket(pg.flist, pg.frame % ncolors, if PgZero in pg.flags then Zeros else Unknown)
  {
    ColorIsMod(pg, ncolors);
  }

  ghost function FreeMap(pages: seq<VmPage>, ncolors: nat): map<nat, Bucket>
    requires ncolors >= 1
  {
    map p: nat | p < |pages| && IsFree(pages[p]) :: BucketOf(pages[p], ncolors)
  }

  ghost function CpuMap(pages: seq<VmPage>, ncolors: nat, c: nat): map<nat, Bucket>
    requires ncolors >= 1
  {
    map p: nat | p < |pages| && IsFree(pages[p]) && pages[p].offset == c :: BucketOf(pages[p], ncolors)
  }

  ghost predicate Shape(q: Buckets, nfreelist: nat, ncolors: nat) {
    forall b :: b in q <==> b.flist < nfreelist && b.color < ncolors
  }

  /** One CPU's queues and counters agree with the pages filed under it. */
  ghost predicate CpuOk(u: UvmCpu, f: map<nat, Bucket>, nfreelist: nat, ncolors: nat) {
    && Shape(u.pageFree, nfreelist, ncolors)
    && Indexes(u.pageFree, f)
    && u.unknown == |FiledAs(f, Unknown)|
    && u.zeros == |FiledAs(f, Zeros)|
    && u.nextColor < ncolors
  }

  /** The global queues and counters agree with the free pages. */
  ghost predicate GlobalOk(q: Buckets, free: int, zeropages: int, f: map<nat, Bucket>, nfreelist: nat, ncolors: nat) {
    && Shape(q, nfreelist, ncolors)
    && Indexes(q, f)
    && free == |f|
    && zeropages == |FiledAs(f, Zeros)|
  }

  ghost predicate PagesOk(s: State) {
    && s.nfreelist >= 1 && s.ncolors >= 1 && MaskOk(s.ncolors)
    && |s.memory| == |s.pages|
    && |s.idle| == |s.cpus|
    && (forall p :: 0 <= p < |s.pages| ==> s.pages[p].flist < s.nfreelist)
    && (forall p :: 0 <= p < |s.pages| && IsFree(s.pages[p]) ==>
          s.pages[p].offset < |s.cpus| && s.pages[p].pqflags == {PqFree})
  }

  /** The dual index: every free page is on exactly one global queue and on the matching queue of
      the CPU recorded in it, and every counter is the number of pages it stands for. */
  ghost predicate Coherent(s: State) {
    && PagesOk(s)
    && GlobalOk(s.pageFree, s.free, s.zeropages, FreeMap(s.pages, s.ncolors), s.nfreelist, s.ncolors)
    && forall c :: 0 <= c < |s.cpus| ==> CpuOk(s.cpus[c], CpuMap(s.pages, s.ncolors, c), s.nfreelist, s.ncolors)
  }

  /** A page an idle CPU is zeroing is on no queue, still remembers its CPU, and will go back to its own bucket. */
  ghost predicate WorkOk(s: State, c: nat)
    requires s.ncolors >= 1 && c < |s.idle|
  {
    s.idle[c].Zeroing? ==>
      var w := s.idle[c];
      && w.page < |s.pages|
      && var pg := s.pages[w.page];
      && pg.pqflags == {} && PgZero !in pg.flags && pg.offset == c
      && BucketOf(pg, s.ncolors) == Bucket(w.freeList, w.bucket, Unknown)
  }

  ghost predicate IdleOk(s: State)
    requires s.ncolors >= 1
  {
    && (forall c :: 0 <= c < |s.idle| ==> WorkOk(s, c))
    && (forall c, d :: 0 <= c < d < |s.idle| && s.idle[c].Zeroing? && s.idle[d].Zeroing? ==>
          s.idle[c].page != s.idle[d].page)
  }

  predicate BeingZeroed(s: State, p: nat) {
    exists c :: 0 <= c < |s.idle| && s.idle[c].Zeroing? && s.idle[c].page == p
  }

  /** A page uvm_pagefree is about to insert is still in nobody's hands, on no queue, and will go to its own bucket. */
  ghost predicate LeavingOk(s: State, p: nat)
    requires s.ncolors >= 1 && |s.memory| == |s.pages| && p in s.leaving
  {
    && p < |s.pages| && !IsFree(s.pages[p]) && !BeingZeroed(s, p)
    && s.leaving[p] == BucketOf(s.pages[p], s.ncolors)
    && (PgZero in s.pages[p].flags ==> s.memory[p])
  }

  ghost predicate AllLeavingOk(s: State)
    requires s.ncolors >= 1 && |s.memory| == |s.pages|
  {
    forall p :: p in s.leaving ==> LeavingOk(s, p)
  }

  /** Every page on a ZEROS queue is zero-filled. */
  ghost predicate ZeroOk(s: State)
    requires |s.memory| == |s.pages|
  {
    forall p :: 0 <= p < |s.pages| && IsFree(s.pages[p]) && PgZero in s.pages[p].flags ==> s.memory[p]
  }

  ghost predicate Inv(s: State) {
    Coherent(s) && IdleOk(s) && ZeroOk(s) && AllLeavingOk(s)
  }

  // ----- the two moves every operation is made of

  function CountOut(u: UvmCpu, q: Queue): UvmCpu {
    if q == Zeros then u.(zeros := u.zeros - 1) else u.(unknown := u.unknown - 1)
  }

  function CountIn(u: UvmCpu, q: Queue): UvmCpu {
    if q == Zeros then u.(zeros := u.zeros + 1) else u.(unknown := u.unknown + 1)
  }

  /** A free page leaves both queues and its descriptor becomes `after`. */
  function Take(s: State, p: nat, after: VmPage): State
    requires p < |s.pages| && s.pages[p].offset < |s.cpus|
  {
    var pg := s.pages[p];
    var u := s.cpus[pg.offset];
    s.(pages := s.pages[p := after],
       pageFree := Unlink(s.pageFree, p),
       cpus := s.cpus[pg.offset := CountOut(u.(pageFree := Unlink(u.pageFree, p)), QueueOf(pg))],
       free := s.free - 1,
       zeropages := if QueueOf(pg) == Zeros then s.zeropages - 1 else s.zeropages)
  }

  /** Page p, whose descriptor becomes `after`, enters at the head of both queues of bucket b. */
  function Put(s: State, p: nat, after: VmPage, b: Bucket): State
    requires p < |s.pages| && after.offset < |s.cpus|
    requires b in s.pageFree && b in s.cpus[after.offset].pageFree
  {
    var u := s.cpus[after.offset];
    s.(pages := s.pages[p := after],
       pageFree := Push(s.pageFree, b, p),
       cpus := s.cpus[after.offset := CountIn(u.(pageFree := Push(u.pageFree, b, p)), b.queue)],
       free := s.free + 1,
       zeropages := if b.queue == Zeros then s.zeropages + 1 else s.zeropages)
  }

  lemma KeysRemove(f: map<nat, Bucket>, p: nat)
    requires p in f
    ensures |f - {p}| == |f| - 1
  {
    assert (f - {p}).Keys == f.Keys - {p};
  }

  lemma FiledAsRemove(f: map<nat, Bucket>, p: nat, k: Queue)
    requires p in f
    ensures |FiledAs(f - {p}, k)| == |FiledAs(f, k)| - (if f[p].queue == k then 1 else 0)
  {
    var g := f - {p};
    assert FiledAs(g, k) == FiledAs(f, k) - {p};
  }

  lemma KeysAdd(f: map<nat, Bucket>, p: nat, b: Bucket)
    requires p !in f
    ensures |f[p := b]| == |f| + 1
  {
    assert f[p := b].Keys == f.Keys + {p};
  }

  lemma FiledAsAdd(f: map<nat, Bucket>, p: nat, b: Bucket, k: Queue)
    requires p !in f
    ensures |FiledAs(f[p := b], k)| == |FiledAs(f, k)| + (if b.queue == k then 1 else 0)
  {
    var g := f[p := b];
    assert FiledAs(g, k) == if b.queue == k then FiledAs(f, k) + {p} else FiledAs(f, k);
  }

  lemma TakeMaps(pages: seq<VmPage>, n: nat, p: nat, after: VmPage, c: nat)
    requires n >= 1 && p < |pages| && IsFree(pages[p]) && !IsFree(after)
    ensures FreeMap(pages[p := after], n) == FreeMap(pages, n) - {p}
    ensures CpuMap(pages[p := after], n, c) ==
            if pages[p].offset == c then CpuMap(pages, n, c) - {p} else CpuMap(pages, n, c)
  {}

  lemma PutMaps(pages: seq<VmPage>, n: nat, p: nat, after: VmPage, c: nat)
    requires n >= 1 && p < |pages| && !IsFree(pages[p]) && IsFree(after)
    ensures FreeMap(pages[p := after], n) == FreeMap(pages, n)[p := BucketOf(after, n)]
    ensures CpuMap(pages[p := after], n, c) ==
            if after.offset == c then CpuMap(pages, n, c)[p := BucketOf(after, n)] else CpuMap(pages, n, c)
  {}

  lemma GlobalTake(q: Buckets, free: int, zp: int, f: map<nat, Bucket>, p: nat, nf: nat, n: nat)
    requires GlobalOk(q, free, zp, f, nf, n) && p in f
    ensures GlobalOk(Unlink(q, p), free - 1, if f[p].queue == Zeros then zp - 1 else zp, f - {p}, nf, n)
  {
    UnlinkIndexes(q, f, p);
    KeysRemove(f, p);
    FiledAsRemove(f, p, Zeros);
  }

  lemma GlobalPut(q: Buckets, free: int, zp: int, f: map<nat, Bucket>, p: nat, b: Bucket, nf: nat, n: nat)
    requires GlobalOk(q, free, zp, f, nf, n) && p !in f && b in q
    ensures GlobalOk(Push(q, b, p), free + 1, if b.queue == Zeros then zp + 1 else zp, f[p := b], nf, n)
  {
    PushIndexes(q, f, b, p);
    KeysAdd(f, p, b);
    FiledAsAdd(f, p, b, Zeros);
  }

  lemma CpuTake(u: UvmCpu, f: map<nat, Bucket>, p: nat, nf: nat, n: nat)
    requires CpuOk(u, f, nf, n) && p in f
    ensures CpuOk(CountOut(u.(pageFree := Unlink(u.pageFree, p)), f[p].queue), f - {p}, nf, n)
  {
    UnlinkIndexes(u.pageFree, f, p);
    FiledAsRemove(f, p, Unknown);
    FiledAsRemove(f, p, Zeros);
  }

  lemma CpuPut(u: UvmCpu, f: map<nat, Bucket>, p: nat, b: Bucket, nf: nat, n: nat)
    requires CpuOk(u, f, nf, n) && p !in f && b in u.pageFree
    ensures CpuOk(CountIn(u.(pageFree := Push(u.pageFree, b, p)), b.queue), f[p := b], nf, n)
  {
    PushIndexes(u.pageFree, f, b, p);
    FiledAsAdd(f, p, b, Unknown);
    FiledAsAdd(f, p, b, Zeros);
  }

  lemma TakePages(s: State, p: nat, after: VmPage)
    requires PagesOk(s) && p < |s.pages| && IsFree(s.pages[p])
    requires !IsFree(after) && after.flist == s.pages[p].flist
    ensures PagesOk(Take(s, p, after))
  {}

  lemma TakeCpu(s: State, p: nat, after: VmPage, c: nat)
    requires Coherent(s) && p < |s.pages| && IsFree(s.pages[p]) && !IsFree(after) && c < |s.cpus|
    ensures var t := Take(s, p, after);
            CpuOk(t.cpus[c], CpuMap(t.pages, s.ncolors, c), s.nfreelist, s.ncolors)
  {
    TakeMaps(s.pages, s.ncolors, p, after, c);
    if c == s.pages[p].offset { CpuTake(s.cpus[c], CpuMap(s.pages, s.ncolors, c), p, s.nfreelist, s.ncolors); }
  }

  /** Taking a free page off keeps both indexes and every counter exact. */
  lemma TakeCoherent(s: State, p: nat, after: VmPage)
    requires Coherent(s) && p < |s.pages| && IsFree(s.pages[p])
    requires !IsFree(after) && after.flist == s.pages[p].flist
    ensures Coherent(Take(s, p, after))
  {
    var t := Take(s, p, after);
    TakePages(s, p, after);
    TakeMaps(s.pages, s.ncolors, p, after, 0);
    GlobalTake(s.pageFree, s.free, s.zeropages, FreeMap(s.pages, s.ncolors), p, s.nfreelist, s.ncolors);
    forall c | 0 <= c < |t.cpus| ensures CpuOk(t.cpus[c], CpuMap(t.pages, t.ncolors, c), t.nfreelist, t.ncolors) {
      TakeCpu(s, p, after, c);
    }
  }

  lemma BucketExists(s: State, pg: VmPage)
    requires Coherent(s) && pg.flist < s.nfreelist && pg.offset < |s.cpus|
    ensures var b := BucketOf(pg, s.ncolors);
            b in s.pageFree && b in s.cpus[pg.offset].pageFree
  {
    hide Indexes, FiledAs, FreeMap, CpuMap, BitAnd;
    assert CpuOk(s.cpus[pg.offset], CpuMap(s.pages, s.ncolors, pg.offset), s.nfreelist, s.ncolors);
    BucketIs(pg, s.ncolors);
  }

  lemma PutPages(s: State, p: nat, after: VmPage, b: Bucket)
    requires PagesOk(s) && p < |s.pages|
    requires after.pqflags == {PqFree} && after.flist == s.pages[p].flist && after.offset < |s.cpus|
    requires b in s.pageFree && b in s.cpus[after.offset].pageFree
    ensures PagesOk(Put(s, p, after, b))
  {}

  lemma PutCpu(s: State, p: nat, after: VmPage, b: Bucket, c: nat)
    requires Coherent(s) && p < |s.pages| && !IsFree(s.pages[p]) && IsFree(after)
    requires after.offset < |s.cpus| && c < |s.cpus|
    requires b == BucketOf(after, s.ncolors) && b in s.pageFree && b in s.cpus[after.offset].pageFree
    ensures var t := Put(s, p, after, b);
            CpuOk(t.cpus[c], CpuMap(t.pages, s.ncolors, c), s.nfreelist, s.ncolors)
  {
    PutMaps(s.pages, s.ncolors, p, after, c);
    if c == after.offset { CpuPut(s.cpus[c], CpuMap(s.pages, s.ncolors, c), p, b, s.nfreelist, s.ncolors); }
  }

  /** Filing a page under its own bucket keeps both indexes and every counter exact. */
  lemma PutCoherent(s: State, p: nat, after: VmPage, b: Bucket)
    requires Coherent(s) && p < |s.pages| && !IsFree(s.pages[p])
    requires after.pqflags == {PqFree} && after.flist == s.pages[p].flist && after.offset < |s.cpus|
    requires b == BucketOf(after, s.ncolors) && b in s.pageFree && b in s.cpus[after.offset].pageFree
    ensures Coherent(Put(s, p, after, b))
  {
    var t := Put(s, p, after, b);
    PutPages(s, p, after, b);
    PutMaps(s.pages, s.ncolors, p, after, 0);
    GlobalPut(s.pageFree, s.free, s.zeropages, FreeMap(s.pages, s.ncolors), p, b, s.nfreelist, s.ncolors);
    forall c | 0 <= c < |t.cpus| ensures CpuOk(t.cpus[c], CpuMap(t.pages, t.ncolors, c), t.nfreelist, t.ncolors) {
      PutCpu(s, p, after, b, c);
    }
  }
}
