/** The atomic steps of the page allocator, one per stretch of code run under the free-queue lock,
    and what every interleaving of them by any number of CPUs preserves. */
module PageSteps {
  import opened FreeIndex
  import opened FreePages
  import opened BitMask

  datatype Step =
    | Alloc(cpu: nat, page: nat, wantZero: bool, offset: nat)
    | FreeStart(page: nat)                              // uvm_pagefree reads the page's bucket, before the lock
    | Free(cpu: nat, page: nat)                         // and inserts the page there, under the lock
    | IdleTake(cpu: nat, freeList: nat, bucket: nat)    // a page leaves the queues, the lock is dropped
    | IdleDone(cpu: nat)                                // zeroed: back at the head of the ZEROS queues
    | IdleAbort(cpu: nat, zeroed: bool)                 // given up: back on the UNKNOWN queues
    | Touch(page: nat, flags: set<PgFlag>, zeroed: bool) // its owner writes an allocated page
    | Note(cpu: nat, nextColor: nat, idleZero: bool)     // a CPU's own round-robin colour and idle-zero switch
    | Attach                                            // one more CPU

  /** Allocated to somebody: neither free, nor in an idle CPU's hands, nor being freed. */
  predicate Owned(s: State, p: nat) {
    p < |s.pages| && !IsFree(s.pages[p]) && !BeingZeroed(s, p) && p !in s.leaving
  }

  predicate Sized(s: State) {
    s.ncolors >= 1 && |s.idle| == |s.cpus| && |s.memory| == |s.pages|
  }

  /** When a step may happen, in its caller's terms. */
  predicate Guard(s: State, step: Step)
    requires Sized(s)
  {
    match step
    case Alloc(c, p, _, _) => c < |s.cpus| && p < |s.pages| && IsFree(s.pages[p])
    case FreeStart(p) => Owned(s, p) && (PgZero in s.pages[p].flags ==> s.memory[p])
    case Free(c, p) => c < |s.cpus| && p in s.leaving
    case IdleTake(c, fl, b) =>
      && c < |s.cpus| && s.idle[c].NoWork?
      && var q := s.cpus[c].pageFree;
      && Bucket(fl, b, Unknown) in q && q[Bucket(fl, b, Unknown)] != []
    case IdleDone(c) => c < |s.cpus| && s.idle[c].Zeroing?
    case IdleAbort(c, _) => c < |s.cpus| && s.idle[c].Zeroing?
    case Touch(p, _, _) => Owned(s, p)
    case Note(c, nc, _) => c < |s.cpus| && nc < s.ncolors
    case Attach => true
  }

  /** The descriptor of a page just handed out: uvm_pagealloc_strat rewrites flags, pqflags and offset. */
  function HandedOut(pg: VmPage, wantZero: bool, offset: nat): VmPage {
    pg.(flags := if wantZero then {PgBusy, PgFake} else {PgBusy, PgClean, PgFake}, pqflags := {}, offset := offset)
  }

  function Released(pg: VmPage, cpu: nat): VmPage {
    pg.(pqflags := {PqFree}, offset := cpu)
  }

  function ZeroedBack(pg: VmPage): VmPage {
    pg.(flags := pg.flags + {PgZero}, pqflags := {PqFree})
  }

  function AbortedBack(pg: VmPage): VmPage {
    pg.(pqflags := {PqFree})
  }

  predicate CanTake(s: State, p: nat) {
    p < |s.pages| && s.pages[p].offset < |s.cpus|
  }

  predicate CanPut(s: State, p: nat, after: VmPage, b: Bucket) {
    p < |s.pages| && after.offset < |s.cpus| && b in s.pageFree && b in s.cpus[after.offset].pageFree
  }

  /** No array the step indexes is indexed outside its bounds. */
  predicate InBounds(s: State, step: Step)
    requires Sized(s) && Guard(s, step)
  {
    match step
    case Alloc(_, p, _, _) => CanTake(s, p)
    case FreeStart(_) => true
    case Free(c, p) => p < |s.pages| && CanPut(s, p, Released(s.pages[p], c), s.leaving[p])
    case IdleTake(c, fl, b) => CanTake(s, s.cpus[c].pageFree[Bucket(fl, b, Unknown)][0])
    case IdleDone(c) =>
      var w := s.idle[c];
      w.page < |s.pages| && CanPut(s, w.page, ZeroedBack(s.pages[w.page]), Bucket(w.freeList, w.bucket, Zeros))
    case IdleAbort(c, _) =>
      var w := s.idle[c];
      w.page < |s.pages| && CanPut(s, w.page, AbortedBack(s.pages[w.page]), Bucket(w.freeList, w.bucket, Unknown))
    case Touch(_, _, _) => true
    case Note(_, _, _) => true
    case Attach => true
  }

  predicate Enabled(s: State, step: Step) {
    Sized(s) && Guard(s, step) && InBounds(s, step)
  }

  function EmptyBuckets(q: Buckets): Buckets {
    map b | b in q :: []
  }

  function Apply(s: State, step: Step): State
    requires Enabled(s, step)
  {
    match step
    case Alloc(c, p, wantZero, off) =>
      var pg := s.pages[p];
      Take(s, p, HandedOut(pg, wantZero, off)).(
        memory := if wantZero && PgZero !in pg.flags then s.memory[p := true] else s.memory)
    case FreeStart(p) => s.(leaving := s.leaving[p := BucketOf(s.pages[p], s.ncolors)])
    case Free(c, p) => Put(s, p, Released(s.pages[p], c), s.leaving[p]).(leaving := s.leaving - {p})
    case IdleTake(c, fl, b) =>
      var p := s.cpus[c].pageFree[Bucket(fl, b, Unknown)][0];
      Take(s, p, s.pages[p].(pqflags := {})).(idle := s.idle[c := Zeroing(p, fl, b)])
    case IdleDone(c) =>
      var w := s.idle[c];
      Put(s, w.page, ZeroedBack(s.pages[w.page]), Bucket(w.freeList, w.bucket, Zeros)).(
        memory := s.memory[w.page := true], idle := s.idle[c := NoWork])
    case IdleAbort(c, zeroed) =>
      var w := s.idle[c];
      Put(s, w.page, AbortedBack(s.pages[w.page]), Bucket(w.freeList, w.bucket, Unknown)).(
        memory := s.memory[w.page := zeroed], idle := s.idle[c := NoWork])
    case Touch(p, fl, zeroed) =>
      s.(pages := s.pages[p := s.pages[p].(flags := fl)], memory := s.memory[p := zeroed])
    case Note(c, nc, iz) =>
      s.(cpus := s.cpus[c := s.cpus[c].(nextColor := nc, idleZero := iz)])
    case Attach =>
      s.(cpus := s.cpus + [UvmCpu(EmptyBuckets(s.pageFree), 0, 0, 0, false)], idle := s.idle + [NoWork])
  }

  /** An owner may give its page any flags and any contents, and changes nothing else. */
  lemma OwnersWrite(s: State, p: nat, flags: set<PgFlag>, zeroed: bool)
    requires Enabled(s, Touch(p, flags, zeroed))
    ensures var t := Apply(s, Touch(p, flags, zeroed));
      && p < |s.pages| && t.memory == s.memory[p := zeroed]
      && t.pages == s.pages[p := VmPage(s.pages[p].frame, s.pages[p].flist, flags, s.pages[p].pqflags, s.pages[p].offset)]
      && t.pageFree == s.pageFree && t.cpus == s.cpus && t.idle == s.idle && t.leaving == s.leaving
  {}

  lemma CpuHead(u: UvmCpu, f: map<nat, Bucket>, nf: nat, n: nat, b: Bucket)
    requires CpuOk(u, f, nf, n) && b in u.pageFree && u.pageFree[b] != []
    ensures u.pageFree[b][0] in f && f[u.pageFree[b][0]] == b
  {}

  /** What is at the head of a CPU's queue is a free page of that bucket filed under that CPU. */
  lemma HeadIsFree(s: State, c: nat, b: Bucket)
    requires Coherent(s) && c < |s.cpus| && b in s.cpus[c].pageFree && s.cpus[c].pageFree[b] != []
    ensures var p := s.cpus[c].pageFree[b][0];
            p < |s.pages| && IsFree(s.pages[p]) && s.pages[p].offset == c && BucketOf(s.pages[p], s.ncolors) == b
  {
    hide CpuOk, GlobalOk;
    CpuHead(s.cpus[c], CpuMap(s.pages, s.ncolors, c), s.nfreelist, s.ncolors, b);
  }

  /** No step of any CPU ever reaches outside the bucket arrays. */
  lemma GuardEnables(s: State, step: Step)
    requires Inv(s) && Guard(s, step)
    ensures Enabled(s, step)
  {
    hide CpuOk, GlobalOk;
    match step
    case Free(c, p) => assert LeavingOk(s, p); BucketExists(s, Released(s.pages[p], c));
    case IdleTake(c, fl, b) => HeadIsFree(s, c, Bucket(fl, b, Unknown));
    case IdleDone(c) => assert WorkOk(s, c); BucketExists(s, ZeroedBack(s.pages[s.idle[c].page]));
    case IdleAbort(c, _) => assert WorkOk(s, c); BucketExists(s, AbortedBack(s.pages[s.idle[c].page]));
    case _ =>
  }

  // ----- each step keeps the invariant

  lemma AllocKeeps(s: State, step: Step)
    requires Inv(s) && Enabled(s, step) && step.Alloc?
    ensures Inv(Apply(s, step))
  {
    hide CpuOk, GlobalOk, FreeMap, CpuMap, MaskOk, BitAnd, Push, Unlink;
    var t := Apply(s, step);
    var after := HandedOut(s.pages[step.page], step.wantZero, step.offset);
    TakeCoherent(s, step.page, after);
    CoherentIgnoresMemory(Take(s, step.page, after), t);
    forall c | 0 <= c < |t.idle| ensures WorkOk(t, c) { assert WorkOk(s, c); }
    forall p | p in t.leaving ensures LeavingOk(t, p) { assert p in s.leaving ==> LeavingOk(s, p); }
  }

  /** Coherence does not look at memory contents or at what idle CPUs and unfinished frees hold. */
  lemma CoherentIgnoresMemory(s: State, t: State)
    requires Coherent(s) && |t.memory| == |s.memory| && |t.idle| == |s.idle|
    requires t == s.(memory := t.memory, idle := t.idle, leaving := t.leaving)
    ensures Coherent(t)
  {
    hide CpuOk, GlobalOk;
    forall c | 0 <= c < |t.cpus| ensures CpuOk(t.cpus[c], CpuMap(t.pages, t.ncolors, c), t.nfreelist, t.ncolors) {
      assert CpuOk(s.cpus[c], CpuMap(s.pages, s.ncolors, c), s.nfreelist, s.ncolors);
    }
  }

  lemma FreeStartKeeps(s: State, step: Step)
    requires Inv(s) && Enabled(s, step) && step.FreeStart?
    ensures Inv(Apply(s, step))
  {
    hide CpuOk, GlobalOk;
    var t := Apply(s, step);
    CoherentIgnoresMemory(s, t);
    forall c | 0 <= c < |t.idle| ensures WorkOk(t, c) { assert WorkOk(s, c); }
    forall p | p in t.leaving ensures LeavingOk(t, p) { assert p in s.leaving ==> LeavingOk(s, p); }
  }

  lemma FreeKeeps(s: State, step: Step)
    requires Inv(s) && Enabled(s, step) && step.Free?
    ensures Inv(Apply(s, step))
  {
    hide CpuOk, GlobalOk, FreeMap, CpuMap, MaskOk, BitAnd, Push, Unlink;
    var t := Apply(s, step);
    var pg := Released(s.pages[step.page], step.cpu);
    assert LeavingOk(s, step.page);
    var b := s.leaving[step.page];
    PutCoherent(s, step.page, pg, b);
    CoherentIgnoresMemory(Put(s, step.page, pg, b), t);
    forall c | 0 <= c < |t.idle| ensures WorkOk(t, c) { assert WorkOk(s, c); }
    forall p | p in t.leaving ensures LeavingOk(t, p) { assert LeavingOk(s, p); }
  }

  lemma IdleTakeKeeps(s: State, step: Step)
    requires Inv(s) && Enabled(s, step) && step.IdleTake?
    ensures Inv(Apply(s, step))
  {
    hide CpuOk, GlobalOk, FreeMap, CpuMap, MaskOk, BitAnd, Push, Unlink;
    var t := Apply(s, step);
    HeadIsFree(s, step.cpu, Bucket(step.freeList, step.bucket, Unknown));
    var p := t.idle[step.cpu].page;
    var after := s.pages[p].(pqflags := {});
    TakeCoherent(s, p, after);
    CoherentIgnoresMemory(Take(s, p, after), t);
    forall c | 0 <= c < |t.idle| ensures WorkOk(t, c) { assert WorkOk(s, c); }
    forall c | 0 <= c < |t.idle| && s.idle[c].Zeroing? ensures s.idle[c].page != p { assert WorkOk(s, c); }
    forall x | x in t.leaving ensures LeavingOk(t, x) { assert LeavingOk(s, x); }
  }

  lemma IdleReturnKeeps(s: State, step: Step)
    requires Inv(s) && Enabled(s, step) && (step.IdleDone? || step.IdleAbort?)
    ensures Inv(Apply(s, step))
  {
    hide CpuOk, GlobalOk, FreeMap, CpuMap, MaskOk, BitAnd, Push, Unlink;
    var t := Apply(s, step);
    var w := s.idle[step.cpu];
    assert WorkOk(s, step.cpu);
    var after := t.pages[w.page];
    var b := BucketOf(after, s.ncolors);
    PutCoherent(s, w.page, after, b);
    CoherentIgnoresMemory(Put(s, w.page, after, b), t);
    forall c | 0 <= c < |t.idle| ensures WorkOk(t, c) { assert WorkOk(s, c); }
    forall p | p in t.leaving ensures LeavingOk(t, p) { assert p in s.leaving ==> LeavingOk(s, p); }
  }

  lemma TouchMaps(pages: seq<VmPage>, n: nat, p: nat, after: VmPage, c: nat)
    requires n >= 1 && p < |pages| && !IsFree(pages[p]) && !IsFree(after)
    ensures FreeMap(pages[p := after], n) == FreeMap(pages, n)
    ensures CpuMap(pages[p := after], n, c) == CpuMap(pages, n, c)
  {}

  lemma TouchKeeps(s: State, step: Step)
    requires Inv(s) && Enabled(s, step) && step.Touch?
    ensures Inv(Apply(s, step))
  {
    hide CpuOk, GlobalOk;
    var t := Apply(s, step);
    TouchMaps(s.pages, s.ncolors, step.page, t.pages[step.page], 0);
    forall c | 0 <= c < |t.cpus| ensures CpuOk(t.cpus[c], CpuMap(t.pages, t.ncolors, c), t.nfreelist, t.ncolors) {
      TouchMaps(s.pages, s.ncolors, step.page, t.pages[step.page], c);
      assert CpuOk(s.cpus[c], CpuMap(s.pages, s.ncolors, c), s.nfreelist, s.ncolors);
    }
    forall c | 0 <= c < |t.idle| ensures WorkOk(t, c) { assert WorkOk(s, c); }
    forall p | p in t.leaving ensures LeavingOk(t, p) { assert p in s.leaving ==> LeavingOk(s, p); }
  }

  lemma NoteCpu(u: UvmCpu, f: map<nat, Bucket>, nfreelist: nat, ncolors: nat, nextColor: nat, idleZero: bool)
    requires CpuOk(u, f, nfreelist, ncolors) && nextColor < ncolors
    ensures CpuOk(u.(nextColor := nextColor, idleZero := idleZero), f, nfreelist, ncolors)
  {
    hide Indexes, FiledAs, Shape;
  }

  lemma NoteKeeps(s: State, step: Step)
    requires Inv(s) && Enabled(s, step) && step.Note?
    ensures Inv(Apply(s, step))
  {
    hide Indexes, FiledAs, Shape, CpuOk, GlobalOk, FreeMap, CpuMap, MaskOk;
    var t := Apply(s, step);
    forall c | 0 <= c < |t.cpus| ensures CpuOk(t.cpus[c], CpuMap(t.pages, t.ncolors, c), t.nfreelist, t.ncolors) {
      assert CpuOk(s.cpus[c], CpuMap(s.pages, s.ncolors, c), s.nfreelist, s.ncolors);
      if c == step.cpu {
        NoteCpu(s.cpus[c], CpuMap(s.pages, s.ncolors, c), s.nfreelist, s.ncolors, step.nextColor, step.idleZero);
      }
    }
    forall c | 0 <= c < |t.idle| ensures WorkOk(t, c) { assert WorkOk(s, c); }
    forall p | p in t.leaving ensures LeavingOk(t, p) { assert p in s.leaving ==> LeavingOk(s, p); }
  }

  lemma NobodysPages(s: State, c: nat)
    requires PagesOk(s) && c >= |s.cpus|
    ensures CpuMap(s.pages, s.ncolors, c) == map[]
  {}

  lemma NewCpuOk(s: State)
    requires Coherent(s)
    ensures CpuOk(UvmCpu(EmptyBuckets(s.pageFree), 0, 0, 0, false), map[], s.nfreelist, s.ncolors)
  {
    assert FiledAs(map[], Unknown) == {} && FiledAs(map[], Zeros) == {};
  }

  lemma AttachKeeps(s: State, step: Step)
    requires Inv(s) && Enabled(s, step) && step.Attach?
    ensures Inv(Apply(s, step))
  {
    hide CpuOk, GlobalOk;
    var t := Apply(s, step);
    NobodysPages(s, |s.cpus|);
    NewCpuOk(s);
    forall c | 0 <= c < |t.cpus| ensures CpuOk(t.cpus[c], CpuMap(t.pages, t.ncolors, c), t.nfreelist, t.ncolors) {
      if c < |s.cpus| { assert CpuOk(s.cpus[c], CpuMap(s.pages, s.ncolors, c), s.nfreelist, s.ncolors); }
    }
    forall c | 0 <= c < |t.idle| ensures WorkOk(t, c) { if c < |s.idle| { assert WorkOk(s, c); } }
    forall p | p in t.leaving ensures LeavingOk(t, p) { assert LeavingOk(s, p); }
  }

  lemma StepKeeps(s: State, step: Step)
    requires Inv(s) && Guard(s, step)
    ensures Enabled(s, step) && Inv(Apply(s, step))
  {
    GuardEnables(s, step);
    match step
    case Alloc(_, _, _, _) => AllocKeeps(s, step);
    case FreeStart(_) => FreeStartKeeps(s, step);
    case Free(_, _) => FreeKeeps(s, step);
    case IdleTake(_, _, _) => IdleTakeKeeps(s, step);
    case IdleDone(_) => IdleReturnKeeps(s, step);
    case IdleAbort(_, _) => IdleReturnKeeps(s, step);
    case Touch(_, _, _) => TouchKeeps(s, step);
    case Note(_, _, _) => NoteKeeps(s, step);
    case Attach => AttachKeeps(s, step);
  }
}
