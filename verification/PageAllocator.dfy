/** The NetBSD page allocator itself (uvm_page.c): the colour walk, allocation strategies, freeing
    and idle zeroing, written as the source writes them and proved against the step system. */
module PageAllocator {
  import opened BitMask
  import opened PageLists
  import opened FreeIndex
  import opened FreePages
  import opened PageSteps
  import opened ColorWalk
  import opened IdleZero
  import opened Recolor

  const PAGE_SIZE := 4096

  datatype Option<T> = None | Some(value: T)
  datatype Strategy = Normal | Only | Fallback
  datatype IdleOutcome = NotNeeded | Contended | Quit | Finished

  /** The k-th answers uvm_pageidlezero gets: is a process ready to run, did the machine-dependent code give up (and was
      the frame zero by then), was the lock taken when the page was to go back. */
  datatype World = World(runnable: nat -> bool, aborts: nat -> bool, zeroAnyway: nat -> bool, busy: nat -> bool)

  ghost predicate Interrupts(w: World, k: nat) {
    w.runnable(k) || w.aborts(k) || w.busy(k)
  }

  /** No process was ready to run at any of the first k questions. */
  ghost predicate Unstopped(w: World, k: nat) {
    forall i :: 0 < i <= k ==> !w.runnable(i)
  }

  lemma StillUnstopped(w: World, k0: nat, k: nat)
    requires k >= k0 > 0 && Unstopped(w, k0) && (forall i :: k0 < i < k ==> !Interrupts(w, i)) && (k > k0 ==> !w.runnable(k))
    ensures Unstopped(w, k)
  {
    forall i | 0 < i <= k ensures !w.runnable(i) {
      assert k0 < i < k ==> !Interrupts(w, i);
    }
  }

  // ----- what "best page" means, page by page

  /** Smaller is better: colour distance first, then the preferred queue, then the local CPU. */
  function Rank(s: State, cpu: nat, try1: Queue, start: nat, p: nat): nat
    requires s.ncolors >= 1 && start < s.ncolors && p < |s.pages|
    requires ColorOf(s.pages[p], s.ncolors) < s.ncolors
  {
    4 * Dist(start, ColorOf(s.pages[p], s.ncolors), s.ncolors)
    + (if QueueOf(s.pages[p]) == try1 then 0 else 2)
    + (if s.pages[p].offset == cpu then 0 else 1)
  }

  ghost predicate Candidate(s: State, flist: nat, p: nat) {
    p < |s.pages| && IsFree(s.pages[p]) && s.pages[p].flist == flist
  }

  ghost predicate ColorsOk(s: State) {
    s.ncolors >= 1 && forall p :: 0 <= p < |s.pages| ==> ColorOf(s.pages[p], s.ncolors) < s.ncolors
  }

  /** p is a free page of the list, no free page of the list ranks lower, and p is the one most
      recently put on the queue it is taken from. */
  ghost predicate Best(s: State, cpu: nat, flist: nat, try1: Queue, start: nat, p: nat)
    requires ColorsOk(s) && start < s.ncolors && cpu < |s.cpus|
  {
    && Candidate(s, flist, p)
    && (forall r :: Candidate(s, flist, r) ==> Rank(s, cpu, try1, start, p) <= Rank(s, cpu, try1, start, r))
    && HeadOf(if s.pages[p].offset == cpu then s.cpus[cpu].pageFree else s.pageFree, BucketOf(s.pages[p], s.ncolors), p)
  }

  /** LIST_FIRST of bucket b is p. */
  ghost predicate HeadOf(q: Buckets, b: Bucket, p: nat) {
    b in q && q[b] != [] && q[b][0] == p
  }

  ghost predicate NoneFree(s: State) {
    forall p :: 0 <= p < |s.pages| ==> !IsFree(s.pages[p])
  }

  ghost predicate Lowest(s: State, p: nat)
    requires p < |s.pages|
  {
    forall r :: 0 <= r < |s.pages| && IsFree(s.pages[r]) ==> s.pages[p].flist <= s.pages[r].flist
  }

  /** Which page a strategy must pick: the best of the right free list. */
  ghost predicate Picked(s: State, strat: Strategy, freeList: nat, cpu: nat, try1: Queue, start: nat, p: nat) {
    && ColorsOk(s) && start < s.ncolors && cpu < |s.cpus| && CanTake(s, p)
    && Best(s, cpu, s.pages[p].flist, try1, start, p)
    && match strat
       case Normal => Lowest(s, p)
       case Only => s.pages[p].flist == freeList
       case Fallback => s.pages[p].flist == freeList || (Lowest(s, p) && forall q :: !Candidate(s, freeList, q))
  }

  ghost predicate Exhausted(s: State, strat: Strategy, freeList: nat) {
    if strat.Only? then forall p :: !Candidate(s, freeList, p) else NoneFree(s)
  }

  /** What an allocation does to the state: the Alloc step, then the CPU's own bookkeeping. */
  ghost predicate HandedOutTo(s: State, t: State, cpu: nat, p: nat, wantZero: bool, off: nat, zeroEnable: bool) {
    && Enabled(s, Alloc(cpu, p, wantZero, off))
    && var s1 := Apply(s, Alloc(cpu, p, wantZero, off));
    && p < |s.pages| && cpu < |s1.cpus|
    && var u := s1.cpus[cpu];
    && var note := Note(cpu, BitAnd(ColorOf(s.pages[p], s.ncolors) + 1, s.ncolors - 1),
                        if wantZero && u.zeros < u.unknown then zeroEnable else u.idleZero);
    && Enabled(s1, note) && t == Apply(s1, note)
  }

  /** Likewise for uvm_pagefree. */
  ghost predicate FreedBy(s: State, t: State, cpu: nat, p: nat, zeroEnable: bool) {
    && Enabled(s, Free(cpu, p))
    && var s1 := Apply(s, Free(cpu, p));
    && cpu < |s1.cpus|
    && var u := s1.cpus[cpu];
    && var note := Note(cpu, u.nextColor, if u.zeros < u.unknown then zeroEnable else u.idleZero);
    && Enabled(s1, note) && t == Apply(s1, note)
  }

  /** What Best comes to, with colours, queues and CPUs as numbers: no free page of the list is nearer in colour, or as
      near and of a better kind, or equal in both and local where p is not. */
  lemma BestMeans(s: State, cpu: nat, flist: nat, wantZero: bool, start: nat, p: nat, r: nat)
    requires Coherent(s) && ColorsOk(s) && start < s.ncolors && cpu < |s.cpus|
    requires Best(s, cpu, flist, if wantZero then Zeros else Unknown, start, p)
    requires r < |s.pages| && PqFree in s.pages[r].pqflags && s.pages[r].flist == flist
    ensures p < |s.pages| && PqFree in s.pages[p].pqflags && s.pages[p].flist == flist
    ensures var dp, dr := (s.pages[p].frame % s.ncolors + s.ncolors - start) % s.ncolors,
                          (s.pages[r].frame % s.ncolors + s.ncolors - start) % s.ncolors;
            var badP, badR := (PgZero in s.pages[p].flags) != wantZero, (PgZero in s.pages[r].flags) != wantZero;
            dp < dr || (dp == dr && ((!badP && badR) || (badP == badR && (s.pages[p].offset == cpu || s.pages[r].offset != cpu))))
  {
    hide CpuOk, GlobalOk;
    assert Candidate(s, flist, p) && Candidate(s, flist, r);
    ColorIsMod(s.pages[p], s.ncolors);
    ColorIsMod(s.pages[r], s.ncolors);
    DistIsMod(start, s.pages[p].frame % s.ncolors, s.ncolors);
    DistIsMod(start, s.pages[r].frame % s.ncolors, s.ncolors);
  }

  lemma DistIsMod(start: nat, color: nat, n: nat)
    requires start < n && color < n
    ensures Dist(start, color, n) == (color + n - start) % n
  {
    if color >= start { ModUnique(color + n - start, n, 1, color - start); } else { ModUnique(color + n - start, n, 0, color + n - start); }
  }

  /** Which page the strategies pick: one of the given list, or, for NORMAL, and for FALLBACK where the given list is
      exhausted, of the lowest list that has one; of its list a best one; and the head of the queue it is taken from. */
  lemma PickedMeans(s: State, strat: Strategy, freeList: nat, cpu: nat, wantZero: bool, start: nat, p: nat)
    requires Coherent(s) && Picked(s, strat, freeList, cpu, if wantZero then Zeros else Unknown, start, p)
    ensures start < s.ncolors && cpu < |s.cpus| && ColorsOk(s) && p < |s.pages| && PqFree in s.pages[p].pqflags
    ensures Best(s, cpu, s.pages[p].flist, if wantZero then Zeros else Unknown, start, p)
    ensures strat.Only? ==> s.pages[p].flist == freeList
    ensures strat.Normal? || (strat.Fallback? && s.pages[p].flist != freeList) ==>
      forall r :: 0 <= r < |s.pages| && PqFree in s.pages[r].pqflags ==> s.pages[p].flist <= s.pages[r].flist
    ensures strat.Fallback? && s.pages[p].flist != freeList ==>
      forall r :: 0 <= r < |s.pages| && PqFree in s.pages[r].pqflags ==> s.pages[r].flist != freeList
    ensures var b := Bucket(s.pages[p].flist, s.pages[p].frame % s.ncolors, if PgZero in s.pages[p].flags then Zeros else Unknown);
            var q := if s.pages[p].offset == cpu then s.cpus[cpu].pageFree else s.pageFree;
            b in q && |q[b]| > 0 && q[b][0] == p
  {
    hide CpuOk, GlobalOk, Rank;
    BucketIs(s.pages[p], s.ncolors);
    assert Candidate(s, s.pages[p].flist, p);
    forall r | 0 <= r < |s.pages| && PqFree in s.pages[r].pqflags ensures strat.Fallback? && s.pages[p].flist != freeList ==> s.pages[r].flist != freeList {
      assert strat.Fallback? && s.pages[p].flist != freeList ==> !Candidate(s, freeList, r);
    }
  }

  /** What a hand-out does: the page's descriptor is new, it has left its queues and the count, and a zero-request leaves
      its frame zeroed and the page not clean; the CPU's colour moves past the page's. */
  lemma HandedOutMeans(s: State, t: State, cpu: nat, p: nat, wantZero: bool, off: nat, zeroEnable: bool)
    requires Inv(s) && HandedOutTo(s, t, cpu, p, wantZero, off, zeroEnable)
    ensures p < |s.pages| && cpu < |s.cpus| == |t.cpus| && |s.memory| == |s.pages| && s.ncolors >= 1
    ensures t.pages == s.pages[p := VmPage(s.pages[p].frame, s.pages[p].flist,
                                           if wantZero then {PgBusy, PgFake} else {PgBusy, PgClean, PgFake}, {}, off)]
    ensures t.memory == if wantZero then s.memory[p := true] else s.memory
    ensures t.free == s.free - 1 && t.zeropages == s.zeropages - (if PgZero in s.pages[p].flags then 1 else 0)
    ensures t.cpus[cpu].nextColor == (s.pages[p].frame % s.ncolors + 1) % s.ncolors
    ensures t.cpus[cpu].idleZero == if wantZero && t.cpus[cpu].zeros < t.cpus[cpu].unknown then zeroEnable else s.cpus[cpu].idleZero
    ensures forall b :: b in s.pageFree ==> b in t.pageFree && t.pageFree[b] == Without(s.pageFree[b], p)
  {
    hide CpuOk, GlobalOk, BitAnd, IdleOk, AllLeavingOk, Without;
    ColorIsMod(s.pages[p], s.ncolors);
    ColorMask(ColorOf(s.pages[p], s.ncolors) + 1, s.ncolors);
    assert PgZero in s.pages[p].flags ==> s.memory[p := true] == s.memory;
  }

  lemma ColorsAreOk(s: State)
    requires PagesOk(s)
    ensures ColorsOk(s)
  {
    forall p | 0 <= p < |s.pages| ensures ColorOf(s.pages[p], s.ncolors) < s.ncolors {
      ColorMask(s.pages[p].frame, s.ncolors);
    }
  }

  // ----- why the walk finds the best page

  lemma OnItsQueues(s: State, p: nat)
    requires Coherent(s) && p < |s.pages| && IsFree(s.pages[p])
    ensures var b := BucketOf(s.pages[p], s.ncolors);
            && b in s.pageFree && p in s.pageFree[b]
            && b in s.cpus[s.pages[p].offset].pageFree && p in s.cpus[s.pages[p].offset].pageFree[b]
  {
    var c := s.pages[p].offset;
    assert CpuOk(s.cpus[c], CpuMap(s.pages, s.ncolors, c), s.nfreelist, s.ncolors);
    assert p in FreeMap(s.pages, s.ncolors) && p in CpuMap(s.pages, s.ncolors, c);
  }

  lemma GlobalHead(s: State, b: Bucket)
    requires Coherent(s) && b in s.pageFree && s.pageFree[b] != []
    ensures var p := s.pageFree[b][0];
            p < |s.pages| && IsFree(s.pages[p]) && BucketOf(s.pages[p], s.ncolors) == b
  {
    hide CpuOk, Indexes;
    QueueHead(s.pageFree, FreeMap(s.pages, s.ncolors), b);
  }

  lemma QueueHead(q: Buckets, f: map<nat, Bucket>, b: Bucket)
    requires Indexes(q, f) && b in q && q[b] != []
    ensures q[b][0] in f && f[q[b][0]] == b
  {}

  /** All the queues of the list at the first d colours of the walk are empty. */
  ghost predicate EmptyUpTo(s: State, flist: nat, start: nat, d: nat)
    requires start < s.ncolors && d <= s.ncolors
  {
    forall k, q :: 0 <= k < d ==> EmptyAt(s.pageFree, Bucket(flist, Walk(start, k, s.ncolors), q))
  }

  ghost predicate EmptyAt(q: Buckets, b: Bucket) {
    b in q && q[b] == []
  }

  lemma WalkStarts(s: State, flist: nat, start: nat)
    requires Coherent(s) && start < s.ncolors
    ensures ColorsOk(s) && MaskOk(s.ncolors) && EmptyUpTo(s, flist, start, 0) && Walk(start, 0, s.ncolors) == start
  {
    hide GlobalOk, CpuOk;
    ColorsAreOk(s);
  }

  /** One turn of the loop that found nothing. */
  lemma WalkOn(s: State, flist: nat, start: nat, d: nat)
    requires start < s.ncolors && d < s.ncolors && MaskOk(s.ncolors)
    requires EmptyUpTo(s, flist, start, d)
    requires forall q :: EmptyAt(s.pageFree, Bucket(flist, Walk(start, d, s.ncolors), q))
    ensures EmptyUpTo(s, flist, start, d + 1)
    ensures BitAnd(Walk(start, d, s.ncolors) + 1, s.ncolors - 1) == Walk(start, d + 1, s.ncolors)
    ensures Walk(start, d + 1, s.ncolors) == start <==> d + 1 == s.ncolors
  {
    WalkStep(start, d, s.ncolors);
  }

  /** A free page of the list shows up no earlier than at its own colour. */
  lemma NotSeenYet(s: State, flist: nat, start: nat, d: nat, p: nat)
    requires Coherent(s) && start < s.ncolors && d <= s.ncolors && EmptyUpTo(s, flist, start, d)
    requires Candidate(s, flist, p)
    ensures var c := ColorOf(s.pages[p], s.ncolors); c < s.ncolors && Dist(start, c, s.ncolors) >= d
    ensures d < s.ncolors
  {
    hide Indexes, FiledAs, Shape;
    ColorMask(s.pages[p].frame, s.ncolors);
    OnItsQueues(s, p);
    hide Coherent;
    var k := Dist(start, ColorOf(s.pages[p], s.ncolors), s.ncolors);
    assert k < d ==> EmptyAt(s.pageFree, Bucket(flist, Walk(start, k, s.ncolors), QueueOf(s.pages[p])));
  }

  /** The position of a queue in the search order: the rank of the pages found there. */
  function Order(d: nat, preferred: bool, local: bool): nat {
    4 * d + (if preferred then 0 else 2) + (if local then 0 else 1)
  }

  /** Everything searched before queue q at step d of the walk was empty. */
  ghost predicate EmptyBefore(s: State, cpu: nat, flist: nat, try1: Queue, start: nat, d: nat, q: Queue, local: bool)
    requires cpu < |s.cpus| && start < s.ncolors && d < s.ncolors
  {
    && EmptyUpTo(s, flist, start, d)
    && (q != try1 ==> EmptyAt(s.pageFree, Bucket(flist, Walk(start, d, s.ncolors), try1)))
    && (!local ==> EmptyAt(s.cpus[cpu].pageFree, Bucket(flist, Walk(start, d, s.ncolors), q)))
  }

  lemma EmptyBeforeLocal(s: State, cpu: nat, flist: nat, try1: Queue, start: nat, d: nat, q: Queue, local: bool)
    requires cpu < |s.cpus| && start < s.ncolors && d < s.ncolors && EmptyBefore(s, cpu, flist, try1, start, d, q, local)
    ensures !local ==> EmptyAt(s.cpus[cpu].pageFree, Bucket(flist, Walk(start, d, s.ncolors), q))
  {}

  lemma RankBound(s: State, cpu: nat, flist: nat, try1: Queue, start: nat, d: nat, q: Queue, local: bool, r: nat)
    requires Coherent(s) && ColorsOk(s) && cpu < |s.cpus| && start < s.ncolors && d < s.ncolors
    requires EmptyBefore(s, cpu, flist, try1, start, d, q, local)
    requires Candidate(s, flist, r)
    ensures Rank(s, cpu, try1, start, r) >= Order(d, q == try1, local)
  {
    NotSeenYet(s, flist, start, d, r);
    OnItsQueues(s, r);
    hide Coherent, EmptyUpTo;
    WalkOnce(start, ColorOf(s.pages[r], s.ncolors), d, s.ncolors);
  }

  /** What the assertions in the search say of the page p at the head of the queue found. */
  lemma FoundFacts(s: State, cpu: nat, b: Bucket, local: bool, p: nat)
    requires Coherent(s) && cpu < |s.cpus|
    requires !local ==> EmptyAt(s.cpus[cpu].pageFree, b)
    requires HeadOf(if local then s.cpus[cpu].pageFree else s.pageFree, b, p)
    ensures CanTake(s, p) && IsFree(s.pages[p]) && BucketOf(s.pages[p], s.ncolors) == b
    ensures s.pages[p].offset == cpu <==> local
  {
    if local {
      HeadIsFree(s, cpu, b);
    } else {
      GlobalHead(s, b);
      OnItsQueues(s, p);
    }
  }

  /** The first non-empty queue of the walk, tried in the order local try1, global try1, local try2,
      global try2, starts with a best page. */
  lemma FirstFoundIsBest(s: State, cpu: nat, flist: nat, try1: Queue, start: nat, d: nat, q: Queue, local: bool, p: nat)
    requires Coherent(s) && ColorsOk(s) && cpu < |s.cpus| && start < s.ncolors && d < s.ncolors
    requires EmptyBefore(s, cpu, flist, try1, start, d, q, local)
    requires HeadOf(if local then s.cpus[cpu].pageFree else s.pageFree, Bucket(flist, Walk(start, d, s.ncolors), q), p)
    ensures CanTake(s, p) && IsFree(s.pages[p])
    ensures BucketOf(s.pages[p], s.ncolors) == Bucket(flist, Walk(start, d, s.ncolors), q)
    ensures s.pages[p].offset == cpu <==> local
    ensures Best(s, cpu, flist, try1, start, p)
  {
    hide Coherent, EmptyBefore, BitAnd, EmptyAt, EmptyUpTo;
    EmptyBeforeLocal(s, cpu, flist, try1, start, d, q, local);
    FoundFacts(s, cpu, Bucket(flist, Walk(start, d, s.ncolors), q), local, p);
    WalkOnce(start, Walk(start, d, s.ncolors), d, s.ncolors);
    forall r | Candidate(s, flist, r)
      ensures Rank(s, cpu, try1, start, p) <= Rank(s, cpu, try1, start, r)
    {
      RankBound(s, cpu, flist, try1, start, d, q, local, r);
    }
  }

  datatype Found = Nothing | Found(page: nat, queue: Queue, local: bool)

  /** The four tests made at one colour, in the source's order. */
  function FirstAt(mine: Buckets, all: Buckets, flist: nat, color: nat, try1: Queue, try2: Queue): (r: Found)
    requires try1 != try2
    requires forall q :: Bucket(flist, color, q) in mine && Bucket(flist, color, q) in all
    ensures r.Nothing? ==> forall q :: EmptyAt(all, Bucket(flist, color, q))
    ensures r.Found? ==> HeadOf(if r.local then mine else all, Bucket(flist, color, r.queue), r.page)
    ensures r.Found? && r.queue != try1 ==> EmptyAt(all, Bucket(flist, color, try1))
    ensures r.Found? && !r.local ==> EmptyAt(mine, Bucket(flist, color, r.queue))
  {
    var b1, b2 := Bucket(flist, color, try1), Bucket(flist, color, try2);
    if mine[b1] != [] then Found(mine[b1][0], try1, true)
    else if all[b1] != [] then Found(all[b1][0], try1, false)
    else if mine[b2] != [] then Found(mine[b2][0], try2, true)
    else if all[b2] != [] then Found(all[b2][0], try2, false)
    else
      assert forall q :: EmptyAt(all, Bucket(flist, color, q)) by {
        forall q ensures EmptyAt(all, Bucket(flist, color, q)) { assert q == try1 || q == try2; }
      }
      Nothing
  }

  /** The do-while search of uvm_pagealloc_pgfl, with its assertions. */
  method FindFree(ghost s: State, mine: Buckets, all: Buckets, colormask: nat,
                  ghost cpu: nat, flist: nat, try1: Queue, try2: Queue, trycolor: nat)
    returns (r: Option<nat>, color: nat, local: bool)
    requires Coherent(s) && colormask == s.ncolors - 1 && cpu < |s.cpus|
    requires mine == s.cpus[cpu].pageFree && all == s.pageFree
    requires flist < s.nfreelist && trycolor < s.ncolors && try1 != try2
    ensures ColorsOk(s)
    ensures r.None? ==> forall p :: !Candidate(s, flist, p)
    ensures r.Some? ==> Best(s, cpu, flist, try1, trycolor, r.value) && color == ColorOf(s.pages[r.value], s.ncolors)
    ensures r.Some? ==> CanTake(s, r.value) && (local <==> s.pages[r.value].offset == cpu)
  {
    hide Coherent, Best, EmptyUpTo, ColorsOk, BitAnd, EmptyAt, HeadOf, FirstAt, MaskOk, Rank, Walk;
    WalkStarts(s, flist, trycolor);
    color := trycolor;
    ghost var d := 0;
    while true
      invariant d < s.ncolors && color == Walk(trycolor, d, s.ncolors)
      invariant EmptyUpTo(s, flist, trycolor, d)
      decreases s.ncolors - d
    {
      BucketsThere(s, cpu, flist, color);
      var f := FirstAt(mine, all, flist, color, try1, try2);
      if f.Found? {
        FirstFoundIsBest(s, cpu, flist, try1, trycolor, d, f.queue, f.local, f.page);
        ghost var pg := s.pages[f.page];
        assert IsFree(pg) && QueueOf(pg) == f.queue && (f.local <==> pg.offset == cpu);
        return Some(f.page), color, f.local;
      }
      WalkOn(s, flist, trycolor, d);
      color := BitAnd(color + 1, colormask);
      if color == trycolor {
        break;
      }
      d := d + 1;
    }
    EmptyWalk(s, flist, trycolor);
    r, local := None, false;
  }

  /** If the whole walk found nothing, no page of the list is free. */
  lemma EmptyWalk(s: State, flist: nat, start: nat)
    requires Coherent(s) && start < s.ncolors && EmptyUpTo(s, flist, start, s.ncolors)
    ensures forall p :: !Candidate(s, flist, p)
  {
    hide Coherent, EmptyUpTo;
    forall p ensures !Candidate(s, flist, p) {
      if Candidate(s, flist, p) { NotSeenYet(s, flist, start, s.ncolors, p); }
    }
  }

  lemma BucketsThere(s: State, cpu: nat, flist: nat, color: nat)
    requires Coherent(s) && cpu < |s.cpus| && flist < s.nfreelist && color < s.ncolors
    ensures forall q :: Bucket(flist, color, q) in s.cpus[cpu].pageFree && Bucket(flist, color, q) in s.pageFree
  {
    hide Indexes, FiledAs, FreeMap, CpuMap, MaskOk;
    assert CpuOk(s.cpus[cpu], CpuMap(s.pages, s.ncolors, cpu), s.nfreelist, s.ncolors);
  }

  lemma LowestList(s: State, lcv: nat, p: nat)
    requires p < |s.pages| && s.pages[p].flist == lcv
    requires forall f, r :: 0 <= f < lcv ==> !Candidate(s, f, r)
    ensures Lowest(s, p)
  {
    forall r | 0 <= r < |s.pages| && IsFree(s.pages[r]) ensures lcv <= s.pages[r].flist {
      assert Candidate(s, s.pages[r].flist, r);
    }
  }

  lemma BestFacts(s: State, cpu: nat, flist: nat, try1: Queue, start: nat, p: nat)
    requires ColorsOk(s) && start < s.ncolors && cpu < |s.cpus| && Best(s, cpu, flist, try1, start, p)
    ensures p < |s.pages| && IsFree(s.pages[p]) && s.pages[p].flist == flist
  {}

  lemma AllListsEmpty(s: State)
    requires PagesOk(s)
    requires forall f, p :: 0 <= f < s.nfreelist ==> !Candidate(s, f, p)
    ensures NoneFree(s)
  {
    forall p | 0 <= p < |s.pages| ensures !IsFree(s.pages[p]) {
      assert !Candidate(s, s.pages[p].flist, p);
    }
  }

  /** The field updates from `gotit` on amount to the Alloc and Note steps. */
  lemma HandOutIs(s: State, t: State, cpu: nat, p: nat, wantZero: bool, off: nat, zeroEnable: bool)
    requires Inv(s) && Sized(s) && cpu < |s.cpus| && CanTake(s, p) && IsFree(s.pages[p])
    requires var k := Take(s, p, s.pages[p]);
             var u := k.cpus[cpu];
             var color := ColorOf(s.pages[p], s.ncolors);
             t == k.(pages := s.pages[p := HandedOut(s.pages[p], wantZero, off)],
                     memory := if wantZero && PgZero !in s.pages[p].flags then s.memory[p := true] else s.memory,
                     cpus := k.cpus[cpu := u.(nextColor := BitAnd(color + 1, s.ncolors - 1),
                                              idleZero := if wantZero && u.zeros < u.unknown then zeroEnable else u.idleZero)])
    ensures HandedOutTo(s, t, cpu, p, wantZero, off, zeroEnable) && Inv(t)
  {
    hide Inv, BitAnd, MaskOk, ColorOf, Unlink, QueueOf, Put;
    var alloc := Alloc(cpu, p, wantZero, off);
    TakenPage(s, p, cpu, ColorOf(s.pages[p], s.ncolors), wantZero, off);
    StepKeeps(s, alloc);
    var s1 := Apply(s, alloc);
    var u := s1.cpus[cpu];
    StepKeeps(s1, Note(cpu, BitAnd(ColorOf(s.pages[p], s.ncolors) + 1, s.ncolors - 1),
                       if wantZero && u.zeros < u.unknown then zeroEnable else u.idleZero));
  }

  lemma TakeFacts(s: State, p: nat)
    requires CanTake(s, p)
    ensures var k := Take(s, p, s.pages[p]); k.pages == s.pages && k.memory == s.memory && |k.cpus| == |s.cpus| && k.ncolors == s.ncolors
  {
    hide Unlink;
  }

  lemma PickedFromList(s: State, strat: Strategy, freeList: nat, cpu: nat, try1: Queue, start: nat, p: nat)
    requires ColorsOk(s) && start < s.ncolors && cpu < |s.cpus| && CanTake(s, p) && !strat.Normal?
    requires Best(s, cpu, freeList, try1, start, p)
    ensures Picked(s, strat, freeList, cpu, try1, start, p) && Candidate(s, freeList, p) && p < |s.pages|
  {
    hide ColorsOk;
  }

  lemma PickedNormally(s: State, strat: Strategy, freeList: nat, cpu: nat, try1: Queue, start: nat, p: nat)
    requires Picked(s, Normal, 0, cpu, try1, start, p) && !strat.Only?
    requires strat.Fallback? ==> forall q :: !Candidate(s, freeList, q)
    ensures Picked(s, strat, freeList, cpu, try1, start, p) && IsFree(s.pages[p])
  {
    hide ColorsOk;
  }

  lemma PickedIsFree(s: State, strat: Strategy, freeList: nat, cpu: nat, try1: Queue, start: nat, p: nat)
    requires Picked(s, strat, freeList, cpu, try1, start, p)
    ensures CanTake(s, p) && IsFree(s.pages[p]) && !Exhausted(s, strat, freeList)
  {
    hide ColorsOk;
    if strat.Only? { assert Candidate(s, freeList, p); }
  }

  lemma ExhaustedMeans(s: State, strat: Strategy, freeList: nat)
    ensures Exhausted(s, strat, freeList) <==>
      forall p :: 0 <= p < |s.pages| && PqFree in s.pages[p].pqflags ==> strat.Only? && s.pages[p].flist != freeList
  {
    if forall p :: 0 <= p < |s.pages| && PqFree in s.pages[p].pqflags ==> strat.Only? && s.pages[p].flist != freeList {
      forall p ensures strat.Only? ==> !Candidate(s, freeList, p) {}
    }
    if Exhausted(s, strat, freeList) {
      forall p | 0 <= p < |s.pages| && PqFree in s.pages[p].pqflags ensures strat.Only? && s.pages[p].flist != freeList {
        assert strat.Only? ==> !Candidate(s, freeList, p);
      }
    }
  }

  /** Round-robin or requested start colour. */
  function StartColor(u: UvmCpu, off: nat, colorMatch: bool, colormask: nat): nat {
    if colorMatch then BitAnd(off / PAGE_SIZE, colormask) else u.nextColor
  }

  lemma StartColorOk(s: State, cpu: nat, off: nat, colorMatch: bool)
    requires Coherent(s) && cpu < |s.cpus|
    ensures s.ncolors >= 1
    ensures StartColor(s.cpus[cpu], off, colorMatch, s.ncolors - 1) ==
            if colorMatch then off / 4096 % s.ncolors else s.cpus[cpu].nextColor
    ensures StartColor(s.cpus[cpu], off, colorMatch, s.ncolors - 1) < s.ncolors
  {
    hide Indexes, FiledAs, FreeMap, CpuMap, Shape, BitAnd;
    assert CpuOk(s.cpus[cpu], CpuMap(s.pages, s.ncolors, cpu), s.nfreelist, s.ncolors);
    ColorMask(off / PAGE_SIZE, s.ncolors);
  }

  class Uvm {
    const nfreelist: nat               // VM_NFREELIST
    var ncolors: nat
    var colormask: nat
    var pages: seq<VmPage>             // the vm_page array; a page pointer is an index into it
    var memory: seq<bool>              // does the frame of page p contain only zeros?
    var pageFree: Buckets              // uvm.page_free
    var cpus: seq<UvmCpu>              // uvm.cpus
    var idle: seq<IdleWork>            // what each CPU's uvm_pageidlezero holds outside the lock
    var free: int
    var zeropages: int
    var leaving: map<nat, Bucket>      // what each unfinished uvm_pagefree holds outside the lock
    var reserveKernel: int
    var reservePagedaemon: int
    var zeroEnable: bool               // vm_page_zero_enable
    var cpuhit: nat
    var cpumiss: nat
    var colorhit: nat
    var colormiss: nat
    var pgaZerohit: nat
    var pgaZeromiss: nat
    var zeroaborts: nat

    function S(): State
      reads this
    {
      State(nfreelist, ncolors, pages, memory, pageFree, cpus, idle, free, zeropages, leaving)
    }

    ghost predicate Valid()
      reads this
    {
      Inv(S()) && colormask == ncolors - 1
    }

    /** Both LIST_REMOVEs and the counters at `gotit`. */
    method Dequeue(p: nat)
      requires CanTake(S(), p)
      modifies this`pageFree, this`cpus, this`free, this`zeropages
      ensures S() == Take(old(S()), p, pages[p])
    {
      var pg := pages[p];
      var c := pg.offset;
      pageFree := Unlink(pageFree, p);
      cpus := cpus[c := CountOut(cpus[c].(pageFree := Unlink(cpus[c].pageFree, p)), QueueOf(pg))];
      free := free - 1;
      if PgZero in pg.flags { zeropages := zeropages - 1; }
      assert pages[p := pg] == pages;
    }

    /** Both LIST_INSERT_HEADs and the counters, for a page already marked as filed under its CPU. */
    method Enqueue(p: nat, b: Bucket)
      requires p < |pages| && CanPut(S(), p, pages[p], b)
      modifies this`pageFree, this`cpus, this`free, this`zeropages
      ensures S() == Put(old(S()), p, pages[p], b)
      ensures pageFree == old(pageFree)[b := [p] + old(pageFree)[b]]
      ensures var c := pages[p].offset; var u := old(cpus)[c];
        cpus == old(cpus)[c := UvmCpu(u.pageFree[b := [p] + u.pageFree[b]],
                                      u.unknown + (if b.queue.Unknown? then 1 else 0),
                                      u.zeros + (if b.queue.Zeros? then 1 else 0), u.nextColor, u.idleZero)]
      ensures free == old(free) + 1 && zeropages == old(zeropages) + (if b.queue.Zeros? then 1 else 0)
    {
      var c := pages[p].offset;
      pageFree := Push(pageFree, b, p);
      cpus := cpus[c := CountIn(cpus[c].(pageFree := Push(cpus[c].pageFree, b, p)), b.queue)];
      free := free + 1;
      if b.queue == Zeros { zeropages := zeropages + 1; }
    }

    /** uvm_pagealloc_pgfl: take the best page of one free list off both its queues. */
    method PageallocPgfl(cpu: nat, flist: nat, try1: Queue, try2: Queue, trycolor: nat)
      returns (r: Option<nat>, color: nat, local: bool)
      requires Valid() && cpu < |cpus| && flist < nfreelist && trycolor < ncolors && try1 != try2
      modifies this`pageFree, this`cpus, this`free, this`zeropages
      modifies this`cpuhit, this`cpumiss, this`colorhit, this`colormiss
      ensures ColorsOk(old(S()))
      ensures r.None? ==> S() == old(S()) && color == trycolor && forall p :: !Candidate(old(S()), flist, p)
      ensures r.Some? ==> Best(old(S()), cpu, flist, try1, trycolor, r.value) && CanTake(old(S()), r.value)
      ensures r.Some? ==> S() == Take(old(S()), r.value, pages[r.value]) && color == ColorOf(pages[r.value], ncolors)
      ensures r.Some? ==> (local <==> pages[r.value].offset == cpu)
      ensures cpuhit == old(cpuhit) + (if r.Some? && local then 1 else 0)
      ensures cpumiss == old(cpumiss) + (if r.Some? && !local then 1 else 0)
      ensures colorhit == old(colorhit) + (if r.Some? && color == trycolor then 1 else 0)
      ensures colormiss == old(colormiss) + (if r.Some? && color != trycolor then 1 else 0)
    {
      hide Coherent, IdleOk, ZeroOk, Best, ColorsOk, Take, CanTake, ColorOf, Candidate;
      ghost var s := S();
      r, color, local := FindFree(s, cpus[cpu].pageFree, pageFree, colormask, cpu, flist, try1, try2, trycolor);
      if r.None? {
        color := trycolor;
        return;
      }
      Dequeue(r.value);
      if local { cpuhit := cpuhit + 1; } else { cpumiss := cpumiss + 1; }
      if color == trycolor { colorhit := colorhit + 1; } else { colormiss := colormiss + 1; }
    }

    /** The NORMAL walk over the free lists, lowest id first. */
    method PickNormal(cpu: nat, try1: Queue, try2: Queue, start: nat)
      returns (r: Option<nat>, color: nat)
      requires Valid() && cpu < |cpus| && start < ncolors && try1 != try2
      modifies this`pageFree, this`cpus, this`free, this`zeropages
      modifies this`cpuhit, this`cpumiss, this`colorhit, this`colormiss
      ensures r.None? ==> S() == old(S()) && color == start && NoneFree(old(S()))
      ensures r.Some? ==> Picked(old(S()), Normal, 0, cpu, try1, start, r.value)
      ensures r.Some? ==> S() == Take(old(S()), r.value, pages[r.value]) && color == ColorOf(pages[r.value], ncolors)
    {
      hide Coherent, IdleOk, ZeroOk, Best, ColorsOk, Take, ColorOf, Candidate, NoneFree, Lowest;
      ghost var s := S();
      var lcv := 0;
      while lcv < nfreelist
        invariant lcv <= nfreelist && S() == s
        invariant forall f, p :: 0 <= f < lcv ==> !Candidate(s, f, p)
      {
        var local;
        r, color, local := PageallocPgfl(cpu, lcv, try1, try2, start);
        if r.Some? {
          BestFacts(s, cpu, lcv, try1, start, r.value);
          LowestList(s, lcv, r.value);
          return;
        }
        lcv := lcv + 1;
      }
      PagesAreOk(s);
      AllListsEmpty(s);
      return None, start;
    }

    /** From `gotit` on: round-robin colour, zero accounting, the page's new descriptor. */
    method GotIt(ghost s: State, cpu: nat, p: nat, color: nat, wantZero: bool, off: nat)
      requires Inv(s) && cpu < |s.cpus| && CanTake(s, p) && IsFree(s.pages[p])
      requires S() == Take(s, p, s.pages[p]) && colormask == ncolors - 1 && color == ColorOf(s.pages[p], s.ncolors)
      modifies this`pages, this`memory, this`cpus, this`pgaZerohit, this`pgaZeromiss
      ensures HandedOutTo(s, S(), cpu, p, wantZero, off, zeroEnable) && Valid()
      ensures pgaZerohit == old(pgaZerohit) + (if wantZero && PgZero in s.pages[p].flags then 1 else 0)
      ensures pgaZeromiss == old(pgaZeromiss) + (if wantZero && PgZero !in s.pages[p].flags then 1 else 0)
    {
      hide Inv, BitAnd, MaskOk, ColorOf, IsFree, Take, QueueOf, HandedOutTo, Enabled;
      TakenPage(s, p, cpu, color, wantZero, off);
      TakeFacts(s, p);
      var pg := pages[p];
      var u := cpus[cpu].(nextColor := BitAnd(color + 1, colormask));
      var zeroit := false;
      if wantZero {
        if PgZero in pg.flags {
          pgaZerohit := pgaZerohit + 1;
        } else {
          pgaZeromiss := pgaZeromiss + 1;
          zeroit := true;
        }
        if u.zeros < u.unknown { u := u.(idleZero := zeroEnable); }
      }
      cpus := cpus[cpu := u];
      assert pg.pqflags == {PqFree};
      pg := pg.(offset := off, flags := {PgBusy, PgClean, PgFake}, pqflags := {});
      if wantZero {
        pg := pg.(flags := pg.flags - {PgClean});
        if zeroit { memory := memory[p := true]; }
      }
      pages := pages[p := pg];
      assert pg == HandedOut(s.pages[p], wantZero, off);
      HandOutIs(s, S(), cpu, p, wantZero, off, zeroEnable);
    }

    /** The reserve test: only reserved pages are left and the caller may not have them. */
    predicate Refused(useReserve: bool, isPagedaemon: bool)
      reads this`free, this`reserveKernel, this`reservePagedaemon
    {
      (free <= reserveKernel && !useReserve) || (free <= reservePagedaemon && !isPagedaemon)
    }

    /** uvm_pagealloc_strat for no object and no anon: reserve test, strategy, bookkeeping. */
    method PageallocStrat(cpu: nat, off: nat, colorMatch: bool, wantZero: bool, useReserve: bool,
                          kernelThread: bool, isPagedaemon: bool, strat: Strategy, freeList: nat)
      returns (r: Option<nat>)
      requires Valid() && cpu < |cpus| && off % PAGE_SIZE == 0
      requires !strat.Normal? ==> freeList < nfreelist
      modifies this
      ensures Valid()
      ensures r.None? <==>
        || (old(free) <= old(reserveKernel) && !useReserve && !kernelThread)
        || (old(free) <= old(reservePagedaemon) && !isPagedaemon)
        || (forall p :: 0 <= p < |old(pages)| && PqFree in old(pages)[p].pqflags ==> strat.Only? && old(pages)[p].flist != freeList)
      ensures r.None? ==> S() == old(S())
      ensures old(ncolors) >= 1
      ensures r.Some? ==> Picked(old(S()), strat, freeList, cpu, if wantZero then Zeros else Unknown,
                                 if colorMatch then off / 4096 % old(ncolors) else old(cpus)[cpu].nextColor, r.value)
      ensures r.Some? ==> HandedOutTo(old(S()), S(), cpu, r.value, wantZero, off, old(zeroEnable))
      ensures r.Some? ==> r.value < |old(pages)| && free == old(free) - 1
      ensures r.Some? ==> var pg := old(pages)[r.value];
        pages == old(pages)[r.value := VmPage(pg.frame, pg.flist, if wantZero then {PgBusy, PgFake} else {PgBusy, PgClean, PgFake}, {}, off)]
      ensures pgaZerohit + pgaZeromiss == old(pgaZerohit + pgaZeromiss) + (if r.Some? && wantZero then 1 else 0)
    {
      hide Coherent, IdleOk, ZeroOk, Picked, Best, ColorsOk, Take, CanTake, ColorOf, Exhausted, HandedOutTo, StartColor, NoneFree, Candidate;
      ghost var s := S();
      ExhaustedMeans(s, strat, freeList);
      if Refused(useReserve || kernelThread, isPagedaemon) {
        StartColorOk(s, cpu, off, colorMatch);
        return None;
      }
      var start := StartColor(cpus[cpu], off, colorMatch, colormask);
      StartColorOk(s, cpu, off, colorMatch);
      var try1, try2 := if wantZero then Zeros else Unknown, if wantZero then Unknown else Zeros;
      var color := start;
      r := None;
      if !strat.Normal? {
        var local;
        r, color, local := PageallocPgfl(cpu, freeList, try1, try2, start);
        if r.Some? { PickedFromList(s, strat, freeList, cpu, try1, start, r.value); }
      }
      if r.None? && !strat.Only? {
        r, color := PickNormal(cpu, try1, try2, start);
        if r.Some? { PickedNormally(s, strat, freeList, cpu, try1, start, r.value); }
      }
      if r.None? {
        NothingLeft(s, strat, freeList);
        return;
      }
      PickedIsFree(s, strat, freeList, cpu, try1, start, r.value);
      GotIt(s, cpu, r.value, color, wantZero, off);
      HandedOutMeans(s, S(), cpu, r.value, wantZero, off, zeroEnable);
    }

    /** The part of uvm_pagefree before the lock: which bucket an unloaned page without owner belongs to. */
    method PagefreeChoose(p: nat)
      requires Valid() && Sized(S()) && Guard(S(), FreeStart(p))
      modifies this`leaving
      ensures Enabled(old(S()), FreeStart(p)) && S() == Apply(old(S()), FreeStart(p)) && Valid()
      ensures p < |pages| && ncolors >= 1 && leaving == old(leaving)[p :=
        Bucket(pages[p].flist, pages[p].frame % ncolors, if PgZero in pages[p].flags then Zeros else Unknown)]
    {
      hide Inv, Owned, ColorOf;
      MaskIsOk(S());
      StepKeeps(S(), FreeStart(p));
      OwnedPage(S(), p);
      ColorIsMod(pages[p], ncolors);
      var queue := if PgZero in pages[p].flags then Zeros else Unknown;
      var color := ColorOf(pages[p], ncolors);
      leaving := leaving[p := Bucket(pages[p].flist, color, queue)];
    }

    /** The part under the lock: the page is inserted in the bucket chosen before, whoever ran in between. */
    method PagefreeInsert(cpu: nat, p: nat)
      requires Valid() && cpu < |cpus| && p in leaving
      modifies this
      ensures FreedBy(old(S()), S(), cpu, p, old(zeroEnable)) && Valid()
      ensures p < |pages| && pages[p].pqflags == {PqFree} && pages[p].offset == cpu
      ensures BucketOf(pages[p], ncolors) == old(leaving)[p] && ncolors == old(ncolors)
      ensures pages == old(pages)[p := pages[p]] && pages[p] == old(pages)[p].(pqflags := {PqFree}, offset := cpu)
      ensures var b := old(leaving)[p];
        && b in old(pageFree) && pageFree == old(pageFree)[b := [p] + old(pageFree)[b]]
        && |cpus| == |old(cpus)| && b in old(cpus)[cpu].pageFree
        && cpus[cpu].pageFree == old(cpus)[cpu].pageFree[b := [p] + old(cpus)[cpu].pageFree[b]]
        && free == old(free) + 1 && zeropages == old(zeropages) + (if b.queue.Zeros? then 1 else 0)
      ensures cpus[cpu].idleZero == if cpus[cpu].zeros < cpus[cpu].unknown then old(zeroEnable) else old(cpus)[cpu].idleZero
    {
      hide Inv, IsFree, FreedBy, Guard, InBounds, BucketOf, Put, Enabled;
      ghost var s := S();
      InvSized(s);
      FreeablePage(s, cpu, p);
      pages := pages[p := pages[p].(pqflags := {PqFree}, offset := cpu)];
      Enqueue(p, leaving[p]);
      leaving := leaving - {p};
      FreeIs(s, cpu, p, S());
      if cpus[cpu].zeros < cpus[cpu].unknown {
        cpus := cpus[cpu := cpus[cpu].(idleZero := zeroEnable)];
      }
      FreedIs(s, S(), cpu, p, zeroEnable);
    }

    /** uvm_pagefree, called on CPU `start`: any steps of any CPU may come between its two parts, and the thread may
        have moved to another CPU by then. */
    method Pagefree(start: nat, p: nat) returns (cpu: nat)
      requires Valid() && start < |cpus| && Sized(S()) && Guard(S(), FreeStart(p))
      modifies this
      ensures Valid() && ncolors == old(ncolors) && p < |pages| && p < |old(pages)|
      ensures pages[p].pqflags == {PqFree} && pages[p].offset == cpu
      ensures ncolors >= 1 && cpu < |cpus|
      ensures var pg := old(pages)[p];
        var b := Bucket(pg.flist, pg.frame % ncolors, if PgZero in pg.flags then Zeros else Unknown);
        && b in pageFree && |pageFree[b]| > 0 && pageFree[b][0] == p
        && b in cpus[cpu].pageFree && |cpus[cpu].pageFree[b]| > 0 && cpus[cpu].pageFree[b][0] == p
    {
      hide Inv, Owned, BucketOf, FreedBy, IsFree;
      OwnedPage(S(), p);
      PagefreeChoose(p);
      Anyone(p);
      cpu := *;
      if cpu >= |cpus| { cpu := start; }
      PagefreeInsert(cpu, p);
    }

    /** Anything anyone does while page p is on its way out: an arbitrary run of steps but the insertion of p. */
    method Anyone(p: nat)
      requires Valid() && p in leaving
      modifies this
      ensures Valid() && ncolors == old(ncolors) && |pages| == |old(pages)| && |cpus| >= |old(cpus)|
      ensures p in leaving && leaving[p] == old(leaving)[p] && colormask == old(colormask)
    {
      hide Inv, Guard, InBounds, Apply;
      ghost var s := S();
      InvSized(s);
      var n: nat := *;
      while n > 0
        invariant Inv(S()) && Sized(S()) && ncolors == s.ncolors && |pages| == |s.pages| && |cpus| >= |s.cpus|
        invariant p in leaving && leaving[p] == s.leaving[p] && colormask == old(colormask)
      {
        var step: Step := *;
        if Guard(S(), step) && !(step.Free? && step.page == p) {
          ghost var before := S();
          StepKeeps(before, step);
          StepKeepsPromise(before, step, p);
          var t := Apply(S(), step);
          ApplyFixes(before, step);
          InvSized(t);
          pages, memory, pageFree, cpus, idle, free, zeropages, leaving :=
            t.pages, t.memory, t.pageFree, t.cpus, t.idle, t.free, t.zeropages, t.leaving;
        }
        n := n - 1;
      }
    }

    /** uvm_cpu_attach of a secondary CPU. */
    method CpuAttach(pageReserveKernel: nat)
      requires Valid()
      modifies this
      ensures S() == Apply(old(S()), Attach) && Valid() && reserveKernel == old(reserveKernel) + pageReserveKernel
      ensures |cpus| == |old(cpus)| + 1 && cpus[..|old(cpus)|] == old(cpus) && pages == old(pages) && pageFree == old(pageFree)
      ensures var u := cpus[|old(cpus)|];
        && u.pageFree.Keys == pageFree.Keys && (forall b :: b in u.pageFree ==> u.pageFree[b] == [])
        && u.unknown == u.zeros == u.nextColor == 0 && !u.idleZero
    {
      hide Inv;
      StepKeeps(S(), Attach);
      reserveKernel := reserveKernel + pageReserveKernel;
      cpus := cpus + [UvmCpu(EmptyBuckets(pageFree), 0, 0, 0, false)];
      idle := idle + [NoWork];
    }

    /** The locked part of uvm_pageidlezero that takes an unknown page off the queues. */
    method IdleTakePage(cpu: nat, freeList: nat, bucket: nat)
      requires Valid() && cpu < |cpus| && Guard(S(), IdleTake(cpu, freeList, bucket))
      modifies this
      ensures Enabled(old(S()), IdleTake(cpu, freeList, bucket))
      ensures S() == Apply(old(S()), IdleTake(cpu, freeList, bucket)) && Valid()
      ensures cpu < |idle| && idle[cpu].Zeroing? && idle[cpu].page < |pages| == |old(pages)| && |cpus| == |old(cpus)|
      ensures var p, b, u := idle[cpu].page, Bucket(freeList, bucket, Unknown), old(cpus)[cpu];
        && b in u.pageFree && |u.pageFree[b]| > 0 && p == u.pageFree[b][0]
        && idle[cpu] == Zeroing(p, freeList, bucket) && pages == old(pages)[p := old(pages)[p].(pqflags := {})]
        && free == old(free) - 1 && cpus[cpu].unknown == u.unknown - 1 && cpus[cpu].zeros == u.zeros
        && cpus[cpu].idleZero == u.idleZero && cpus[cpu].nextColor == u.nextColor
        && zeropages == old(zeropages) && memory == old(memory)
    {
      hide Inv, Unlink, IsFree, Apply, Guard, InBounds;
      StepKeeps(S(), IdleTake(cpu, freeList, bucket));
      IdleTakeIs(S(), cpu, freeList, bucket);
      var pg := cpus[cpu].pageFree[Bucket(freeList, bucket, Unknown)][0];
      pageFree := Unlink(pageFree, pg);
      var u := cpus[cpu];
      cpus := cpus[cpu := u.(pageFree := Unlink(u.pageFree, pg), unknown := u.unknown - 1)];
      free := free - 1;
      assert pages[pg].pqflags == {PqFree};
      pages := pages[pg := pages[pg].(pqflags := {})];
      idle := idle[cpu := Zeroing(pg, freeList, bucket)];
    }

    /** Back under the lock after zeroing: the page goes to the head of its bucket's ZEROS queues. */
    method IdleReturn(cpu: nat)
      requires Valid() && cpu < |cpus| && Guard(S(), IdleDone(cpu))
      modifies this
      ensures Enabled(old(S()), IdleDone(cpu)) && S() == Apply(old(S()), IdleDone(cpu)) && Valid()
      ensures cpu < |old(idle)| && old(idle)[cpu].Zeroing? && idle == old(idle)[cpu := NoWork]
      ensures var w := old(idle)[cpu]; var b := Bucket(w.freeList, w.bucket, Zeros);
        && w.page < |old(pages)| == |old(memory)| && memory == old(memory)[w.page := true]
        && pages == old(pages)[w.page := old(pages)[w.page].(flags := old(pages)[w.page].flags + {PgZero}, pqflags := {PqFree})]
        && b in old(pageFree) && pageFree == old(pageFree)[b := [w.page] + old(pageFree)[b]]
        && |cpus| == |old(cpus)| && b in old(cpus)[cpu].pageFree
        && cpus[cpu].pageFree == old(cpus)[cpu].pageFree[b := [w.page] + old(cpus)[cpu].pageFree[b]]
        && free == old(free) + 1 && zeropages == old(zeropages) + 1 && cpus[cpu].zeros == old(cpus)[cpu].zeros + 1
        && cpus[cpu].idleZero == old(cpus)[cpu].idleZero && cpus[cpu].nextColor == old(cpus)[cpu].nextColor
    {
      hide Inv, IsFree, BucketOf, Apply, Guard, InBounds, Enabled, Put;
      ghost var s := S();
      IdleDoneFacts(s, cpu);
      var w := idle[cpu];
      memory := memory[w.page := true];
      pages := pages[w.page := pages[w.page].(flags := pages[w.page].flags + {PgZero}, pqflags := {PqFree})];
      Enqueue(w.page, Bucket(w.freeList, w.bucket, Zeros));
      idle := idle[cpu := NoWork];
      IdleDoneIs(s, cpu, S());
    }

    /** The machine-dependent code gave up: the page goes back to the UNKNOWN queues, its frame perhaps half zeroed. */
    method IdleGiveUp(cpu: nat, zeroed: bool)
      requires Valid() && cpu < |cpus| && Guard(S(), IdleAbort(cpu, zeroed))
      modifies this
      ensures Enabled(old(S()), IdleAbort(cpu, zeroed)) && S() == Apply(old(S()), IdleAbort(cpu, zeroed)) && Valid()
      ensures zeroaborts == old(zeroaborts) + 1
      ensures cpu < |old(idle)| && old(idle)[cpu].Zeroing? && idle == old(idle)[cpu := NoWork]
      ensures var w := old(idle)[cpu]; var b := Bucket(w.freeList, w.bucket, Unknown);
        && w.page < |old(pages)| == |old(memory)| && memory == old(memory)[w.page := zeroed]
        && pages == old(pages)[w.page := old(pages)[w.page].(pqflags := {PqFree})]
        && b in old(pageFree) && pageFree == old(pageFree)[b := [w.page] + old(pageFree)[b]]
        && |cpus| == |old(cpus)| && b in old(cpus)[cpu].pageFree
        && cpus[cpu].pageFree == old(cpus)[cpu].pageFree[b := [w.page] + old(cpus)[cpu].pageFree[b]]
        && free == old(free) + 1 && zeropages == old(zeropages) && cpus[cpu].unknown == old(cpus)[cpu].unknown + 1
        && cpus[cpu].idleZero == old(cpus)[cpu].idleZero && cpus[cpu].nextColor == old(cpus)[cpu].nextColor
    {
      hide Inv, IsFree, BucketOf, Apply, Guard, InBounds, Enabled, Put;
      ghost var s := S();
      IdleAbortFacts(s, cpu, zeroed);
      var w := idle[cpu];
      memory := memory[w.page := zeroed];
      pages := pages[w.page := pages[w.page].(pqflags := {PqFree})];
      Enqueue(w.page, Bucket(w.freeList, w.bucket, Unknown));
      zeroaborts := zeroaborts + 1;
      idle := idle[cpu := NoWork];
      IdleAbortIs(s, cpu, zeroed, S());
    }

    /** Anything the other CPUs do while the lock is free: an arbitrary run of their steps. */
    method Others(cpu: nat)
      requires Valid() && cpu < |cpus|
      modifies this
      ensures Valid() && Shrinks(old(S()), S(), cpu) && cpu < |cpus| && cpu < |idle| && idle[cpu] == old(idle)[cpu]
      ensures cpus[cpu].idleZero == old(cpus)[cpu].idleZero && cpus[cpu].nextColor == old(cpus)[cpu].nextColor
      ensures colormask == old(colormask)
    {
      hide Inv, Shrinks, Guard, InBounds, Apply, Foreign;
      ghost var s := S();
      InvSized(s);
      ShrinksRefl(s, cpu);
      var n: nat := *;
      while n > 0
        invariant Inv(S()) && Sized(S()) && colormask == ncolors - 1 && cpu < |cpus| && Shrinks(s, S(), cpu)
        invariant idle[cpu] == s.idle[cpu] && colormask == old(colormask)
        invariant cpus[cpu].idleZero == s.cpus[cpu].idleZero && cpus[cpu].nextColor == s.cpus[cpu].nextColor
      {
        var step: Step := *;
        if Guard(S(), step) && Foreign(step, cpu) {
          ghost var before := S();
          StepKeeps(before, step);
          ForeignShrinks(before, step, cpu);
          ForeignLeavesWork(before, step, cpu);
          var t := Apply(S(), step);
          ApplyFixes(before, step);
          InvSized(t);
          ShrinkCounts(before, t, cpu);
          pages, memory, pageFree, cpus, idle, free, zeropages, leaving :=
            t.pages, t.memory, t.pageFree, t.cpus, t.idle, t.free, t.zeropages, t.leaving;
          ShrinksTrans(s, before, t, cpu);
        }
        n := n - 1;
      }
    }

    /** ucpu->page_idle_zero = b. */
    method SetIdleZero(cpu: nat, b: bool)
      requires Valid() && cpu < |cpus|
      modifies this`cpus
      ensures Valid() && |cpus| == old(|cpus|) && cpus[cpu] == old(cpus)[cpu].(idleZero := b)
    {
      hide Inv, Guard, InBounds;
      NoteAllowed(S(), cpu, b);
      StepKeeps(S(), Note(cpu, cpus[cpu].nextColor, b));
      cpus := cpus[cpu := cpus[cpu].(idleZero := b)];
    }

    /** One page of a bucket: off the queues, zeroed outside the lock while the others run, and back, or given up. */
    method ZeroOne(cpu: nat, fl: nat, bucket: nat, aborts: bool, half: bool, ghost first: nat, ghost d: nat)
      requires Valid() && cpu < |cpus| && cpu < |idle| && Sized(S()) && Guard(S(), IdleTake(cpu, fl, bucket))
      requires first < ncolors && d < ncolors && Emptied(S(), cpu, first, d, fl)
      modifies this
      ensures Valid() && cpu < |cpus| && cpu < |idle| && idle[cpu].NoWork? && ncolors == old(ncolors)
      ensures cpus[cpu].idleZero == old(cpus)[cpu].idleZero && cpus[cpu].nextColor == old(cpus)[cpu].nextColor
      ensures !aborts ==> cpus[cpu].unknown < old(cpus)[cpu].unknown && Emptied(S(), cpu, first, d, fl)
    {
      hide Inv, Shrinks, Apply, Emptied, EmptyUnknown, MaskOk, Walk, InBounds, Owned;
      ghost var s0 := S();
      IdleTakePage(cpu, fl, bucket);
      OwnTake(s0, cpu, fl, bucket);
      ghost var s1 := S();
      ShrinkCounts(s0, s1, cpu);
      Others(cpu);
      ghost var s2 := S();
      ShrinkCounts(s1, s2, cpu);
      InvSized(s2);
      if aborts {
        IdleGiveUp(cpu, half);
        GaveUpNoWork(s2, cpu, half);
        return;
      }
      IdleReturn(cpu);
      OwnReturn(s2, cpu);
      ShrinkCounts(s2, S(), cpu);
      ShrinksTrans(s0, s1, s2, cpu);
      ShrinksTrans(s0, s2, S(), cpu);
      EmptiedKept(s0, S(), cpu, first, d, fl);
    }

    /** The inner loop of uvm_pageidlezero: zero every unknown page of one bucket, or quit on the way. */
    method ZeroBucket(cpu: nat, fl: nat, bucket: nat, wasCont: bool, world: World, k0: nat, ghost first: nat, ghost d: nat)
      returns (quit: bool, lcont: bool, k: nat)
      requires Valid() && cpu < |cpus| && cpu < |idle| && idle[cpu].NoWork? && fl < nfreelist
      requires first < ncolors && d < ncolors && bucket == Walk(first, d, ncolors) && Emptied(S(), cpu, first, d, fl)
      requires wasCont ==> exists i :: Interrupts(world, i)
      modifies this
      ensures Valid() && cpu < |cpus| && cpu < |idle| && idle[cpu].NoWork? && ncolors == old(ncolors)
      ensures cpus[cpu].idleZero == old(cpus)[cpu].idleZero && cpus[cpu].nextColor == old(cpus)[cpu].nextColor
      ensures quit || lcont ==> exists i :: Interrupts(world, i)
      ensures k >= k0 && (wasCont ==> k == k0) && forall i :: k0 < i < k ==> !Interrupts(world, i)
      ensures quit ==> if k == k0 then wasCont else Interrupts(world, k)
      ensures !quit ==> lcont == (if k == k0 then wasCont else world.busy(k))
      ensures !quit && k > k0 ==> !world.runnable(k) && !world.aborts(k)
      ensures !quit ==> Emptied(S(), cpu, first, d, fl + 1)
      ensures !quit && fl + 1 == nfreelist ==> Emptied(S(), cpu, first, d + 1, 0)
    {
      hide Inv, Shrinks, Apply, Emptied, EmptyUnknown, MaskOk, Walk, InBounds, Owned;
      lcont, k := wasCont, k0;
      while true
        invariant lcont ==> exists i :: Interrupts(world, i)
        invariant k >= k0 && (wasCont ==> k == k0) && lcont == if k == k0 then wasCont else world.busy(k)
        invariant forall i :: k0 < i < k ==> !Interrupts(world, i)
        invariant k > k0 ==> !world.runnable(k) && !world.aborts(k)
        invariant Valid() && cpu < |cpus| && cpu < |idle| && idle[cpu].NoWork? && ncolors == old(ncolors)
        invariant cpus[cpu].idleZero == old(cpus)[cpu].idleZero && cpus[cpu].nextColor == old(cpus)[cpu].nextColor
        invariant Emptied(S(), cpu, first, d, fl)
        decreases cpus[cpu].unknown
      {
        QueueThere(S(), cpu, fl, bucket);
        UnknownNotNegative(S(), cpu);
        if cpus[cpu].pageFree[Bucket(fl, bucket, Unknown)] == [] {
          EmptiedMore(S(), cpu, first, d, fl);
          return false, lcont, k;
        }
        if lcont { return true, lcont, k; }
        k := k + 1;
        assert Interrupts(world, k) <==> world.runnable(k) || world.aborts(k) || world.busy(k);
        if world.runnable(k) { return true, lcont, k; }
        ZeroOne(cpu, fl, bucket, world.aborts(k), world.zeroAnyway(k), first, d);
        if world.aborts(k) { return true, lcont, k; }
        lcont := world.busy(k);
      }
    }

    /** uvm_pageidlezero, with the other CPUs running whenever it is outside the lock.  It terminates whatever
        they do, never keeps a page, and if it runs to its end leaves fewer than ncolors unknown pages here; it does run to
        its end unless it was not needed, the lock was taken, or one of the answers told it to stop. */
    method PageIdleZero(cpu: nat, locked: bool, world: World) returns (outcome: IdleOutcome, ghost last: nat)
      requires Valid() && cpu < |cpus| && cpu < |idle| && idle[cpu].NoWork?
      modifies this
      ensures Valid() && cpu < |cpus| && cpu < |idle| && idle[cpu].NoWork?
      ensures cpus[cpu].idleZero <==> outcome.Contended? || outcome.Quit?
      ensures outcome.NotNeeded? <==> !old(cpus)[cpu].idleZero || old(cpus)[cpu].unknown < old(ncolors)
      ensures outcome.Contended? <==> !outcome.NotNeeded? && !locked
      ensures outcome.Quit? ==> exists k :: Interrupts(world, k)
      ensures outcome.Finished? ==> forall k :: 0 < k <= last ==> !world.runnable(k)
      ensures outcome.Finished? ==> cpus[cpu].unknown < ncolors
    {
      hide Inv, Shrinks, Apply, Emptied, EmptyUnknown, MaskOk, BitAnd, Walk, Enabled, Guard;
      if !cpus[cpu].idleZero || cpus[cpu].unknown < ncolors {
        SetIdleZero(cpu, false);
        return NotNeeded, 0;
      }
      Others(cpu);
      if !locked { return Contended, 0; }
      var k := 0;
      var firstbucket := cpus[cpu].nextColor;
      NothingEmptied(S(), cpu, firstbucket);
      ghost var d := 0;
      var nextbucket := firstbucket;
      var lcont := false;
      while true
        invariant Valid() && cpu < |cpus| && cpu < |idle| && idle[cpu].NoWork? && ncolors == old(ncolors) && cpus[cpu].idleZero
        invariant d < ncolors && firstbucket < ncolors && nextbucket == Walk(firstbucket, d, ncolors)
        invariant Emptied(S(), cpu, firstbucket, d, 0) && (lcont ==> exists i :: Interrupts(world, i))
        invariant Unstopped(world, k)
        decreases ncolors - d
      {
        var fl := 0;
        while fl < nfreelist
          invariant fl <= nfreelist
          invariant Valid() && cpu < |cpus| && cpu < |idle| && idle[cpu].NoWork? && ncolors == old(ncolors) && cpus[cpu].idleZero
          invariant Emptied(S(), cpu, firstbucket, d, fl) && (lcont ==> exists i :: Interrupts(world, i))
          invariant Unstopped(world, k)
          invariant fl == nfreelist ==> Emptied(S(), cpu, firstbucket, d + 1, 0)
        {
          k := k + 1;
          assert world.runnable(k) ==> Interrupts(world, k);
          if world.runnable(k) { return Quit, k; }
          var quit;
          ghost var k1 := k;
          quit, lcont, k := ZeroBucket(cpu, fl, nextbucket, lcont, world, k, firstbucket, d);
          if quit { return Quit, k; }
          StillUnstopped(world, k1, k);
          fl := fl + 1;
        }
        if cpus[cpu].unknown < ncolors {
          break;
        }
        QueueThere(S(), cpu, 0, nextbucket);
        WalkStep(firstbucket, d, ncolors);
        nextbucket := BitAnd(nextbucket + 1, colormask);
        d := d + 1;
        if nextbucket == firstbucket {
          WalkEmpties(S(), cpu, firstbucket);
          break;
        }
      }
      SetIdleZero(cpu, false);
      return Finished, k;
    }

    /** uvm_page_recolor by CPU `cpu` once the page system is initialised.  The result is a valid state
        exactly when no other CPU is attached and no page being zeroed or freed changes colour. */
    method PageRecolor(cpu: nat, newncolors: nat, haveMemory: bool)
      requires Valid() && cpu < |cpus| && (newncolors == 0 || MaskOk(newncolors))
      modifies this
      ensures newncolors <= old(ncolors) || !haveMemory ==> S() == old(S()) && Valid()
      ensures newncolors > old(ncolors) && haveMemory ==>
                && Recolored(old(S()), S(), cpu, newncolors)
                && (Valid() <==> |cpus| == 1 && PendingStillRight(old(S()), newncolors))
    {
      hide Inv, MaskOk, Recolored, PendingStillRight;
      ghost var s := S();
      if newncolors <= ncolors || !haveMemory {
        return;
      }
      InvCoherent(s);
      var gpgfl, pgfl, left := Refile(s, pages, pageFree, cpus, cpu, nfreelist, ncolors, newncolors);
      ncolors := newncolors;
      colormask := ncolors - 1;
      pageFree := gpgfl;
      cpus := left[cpu := left[cpu].(pageFree := pgfl)];
      RecolorSafeIff(s, S(), cpu, newncolors);
    }
  }

  lemma MaskIsOk(s: State)
    requires Inv(s)
    ensures MaskOk(s.ncolors)
  {}

  lemma InvCoherent(s: State)
    requires Inv(s)
    ensures Coherent(s)
  {}

  lemma GaveUpNoWork(s: State, cpu: nat, half: bool)
    requires Enabled(s, IdleAbort(cpu, half))
    ensures var t := Apply(s, IdleAbort(cpu, half)); cpu < |t.cpus| && cpu < |t.idle| && t.idle[cpu].NoWork? && t.ncolors == s.ncolors
  {
    hide Push;
  }

  lemma ApplyFixes(s: State, step: Step)
    requires Enabled(s, step)
    ensures Apply(s, step).ncolors == s.ncolors && Apply(s, step).nfreelist == s.nfreelist
  {
    hide Push, Unlink, BucketOf, Owned, EmptyBuckets;
  }

  lemma InvSized(s: State)
    requires Inv(s)
    ensures Sized(s)
  {}

  lemma OwnedPage(s: State, p: nat)
    requires Inv(s) && Sized(s) && Guard(s, FreeStart(p))
    ensures p < |s.pages|
  {}

  lemma FreeablePage(s: State, cpu: nat, p: nat)
    requires Inv(s) && cpu < |s.cpus| && Sized(s) && p in s.leaving
    ensures p < |s.pages| && !IsFree(s.pages[p]) && Enabled(s, Free(cpu, p))
    ensures s.leaving[p] == BucketOf(s.pages[p], s.ncolors)
    ensures BucketOf(Released(s.pages[p], cpu), s.ncolors) == s.leaving[p]
    ensures s.leaving[p] in s.pageFree && s.leaving[p] in s.cpus[cpu].pageFree
  {
    hide Coherent, IdleOk, ZeroOk;
    assert LeavingOk(s, p);
    GuardEnables(s, Free(cpu, p));
  }

  lemma StepKeepsPromise(s: State, step: Step, p: nat)
    requires Inv(s) && Enabled(s, step) && p in s.leaving && !(step.Free? && step.page == p)
    ensures var t := Apply(s, step); p in t.leaving && t.leaving[p] == s.leaving[p] && |t.pages| == |s.pages| && |t.cpus| >= |s.cpus|
  {
    hide Inv, Push, Unlink, BucketOf, EmptyBuckets;
  }

  /** What uvm_pagefree does under the lock is the Free step ... */
  lemma FreeIs(s: State, cpu: nat, p: nat, t: State)
    requires p < |s.pages| && p in s.leaving && Enabled(s, Free(cpu, p))
    requires var s1 := s.(pages := s.pages[p := Released(s.pages[p], cpu)]);
             CanPut(s1, p, s1.pages[p], s.leaving[p]) && t == Put(s1, p, s1.pages[p], s.leaving[p]).(leaving := s.leaving - {p})
    ensures t == Apply(s, Free(cpu, p)) && |t.cpus| == |s.cpus| && cpu < |s.cpus| && t.ncolors == s.ncolors
    ensures p < |t.pages| && t.pages[p] == Released(s.pages[p], cpu)
  {
    hide Push, Owned;
  }

  /** ... and then a note for the idle loop. */
  lemma FreedIs(s: State, t: State, cpu: nat, p: nat, zeroEnable: bool)
    requires Inv(s) && p in s.leaving && Enabled(s, Free(cpu, p))
    requires var s1 := Apply(s, Free(cpu, p));
             cpu < |s1.cpus| && var u := s1.cpus[cpu];
             t == s1.(cpus := s1.cpus[cpu := u.(idleZero := if u.zeros < u.unknown then zeroEnable else u.idleZero)])
    ensures FreedBy(s, t, cpu, p, zeroEnable) && Inv(t)
  {
    hide Inv, Put, InBounds, BucketOf, Owned;
    StepKeepsFree(s, cpu, p);
    var s1 := Apply(s, Free(cpu, p));
    var u := s1.cpus[cpu];
    InvSized(s1);
    NoteAllowed(s1, cpu, if u.zeros < u.unknown then zeroEnable else u.idleZero);
    StepKeeps(s1, Note(cpu, u.nextColor, if u.zeros < u.unknown then zeroEnable else u.idleZero));
  }

  lemma StepKeepsFree(s: State, cpu: nat, p: nat)
    requires Inv(s) && Enabled(s, Free(cpu, p))
    ensures Inv(Apply(s, Free(cpu, p)))
  {
    hide Inv, InBounds, Apply;
    StepKeeps(s, Free(cpu, p));
  }

  lemma NoteAllowed(s: State, cpu: nat, iz: bool)
    requires Inv(s) && cpu < |s.cpus|
    ensures Sized(s) && Guard(s, Note(cpu, s.cpus[cpu].nextColor, iz))
  {
    assert CpuOk(s.cpus[cpu], CpuMap(s.pages, s.ncolors, cpu), s.nfreelist, s.ncolors);
    hide Indexes, Shape, GlobalOk, FiledAs;
  }

  lemma IdleTakeIs(s: State, cpu: nat, fl: nat, bucket: nat)
    requires Inv(s) && Enabled(s, IdleTake(cpu, fl, bucket))
    ensures cpu < |s.cpus| && cpu < |s.idle| && Bucket(fl, bucket, Unknown) in s.cpus[cpu].pageFree
    ensures s.cpus[cpu].pageFree[Bucket(fl, bucket, Unknown)] != []
    ensures var p := s.cpus[cpu].pageFree[Bucket(fl, bucket, Unknown)][0]; var u := s.cpus[cpu];
      && p < |s.pages| && s.pages[p].pqflags == {PqFree}
      && Apply(s, IdleTake(cpu, fl, bucket)) == s.(
           pages := s.pages[p := s.pages[p].(pqflags := {})], pageFree := Unlink(s.pageFree, p),
           cpus := s.cpus[cpu := u.(pageFree := Unlink(u.pageFree, p), unknown := u.unknown - 1)],
           free := s.free - 1, idle := s.idle[cpu := Zeroing(p, fl, bucket)])
  {
    hide Inv, Unlink;
    HeadIsUnknown(s, cpu, fl, bucket);
  }

  lemma IdleDoneFacts(s: State, cpu: nat)
    requires Inv(s) && Guard(s, IdleDone(cpu))
    ensures Enabled(s, IdleDone(cpu))
    ensures cpu < |s.cpus| && cpu < |s.idle| && s.idle[cpu].Zeroing? && s.idle[cpu].page < |s.pages| == |s.memory|
    ensures var b := Bucket(s.idle[cpu].freeList, s.idle[cpu].bucket, Zeros); b in s.pageFree && b in s.cpus[cpu].pageFree
    ensures s.pages[s.idle[cpu].page].offset == cpu
  {
    hide Inv;
    GuardEnables(s, IdleDone(cpu));
    ReturnFacts(s, cpu);
  }

  lemma IdleDoneIs(s: State, cpu: nat, t: State)
    requires Inv(s) && Enabled(s, IdleDone(cpu)) && s.idle[cpu].page < |s.pages| == |s.memory|
    requires var w := s.idle[cpu]; var b := Bucket(w.freeList, w.bucket, Zeros);
             var s1 := s.(memory := s.memory[w.page := true], pages := s.pages[w.page := ZeroedBack(s.pages[w.page])]);
             CanPut(s1, w.page, s1.pages[w.page], b)
             && t == Put(s1, w.page, s1.pages[w.page], b).(idle := s.idle[cpu := NoWork])
    ensures t == Apply(s, IdleDone(cpu)) && Inv(t)
  {
    hide Inv, Push;
    StepKeeps(s, IdleDone(cpu));
  }

  lemma IdleAbortFacts(s: State, cpu: nat, zeroed: bool)
    requires Inv(s) && Guard(s, IdleAbort(cpu, zeroed))
    ensures Enabled(s, IdleAbort(cpu, zeroed))
    ensures cpu < |s.cpus| && cpu < |s.idle| && s.idle[cpu].Zeroing? && s.idle[cpu].page < |s.pages| == |s.memory|
    ensures var b := Bucket(s.idle[cpu].freeList, s.idle[cpu].bucket, Unknown); b in s.pageFree && b in s.cpus[cpu].pageFree
    ensures s.pages[s.idle[cpu].page].offset == cpu
  {
    hide Inv;
    GuardEnables(s, IdleAbort(cpu, zeroed));
    ReturnFacts(s, cpu);
  }

  lemma IdleAbortIs(s: State, cpu: nat, zeroed: bool, t: State)
    requires Inv(s) && Enabled(s, IdleAbort(cpu, zeroed)) && s.idle[cpu].page < |s.pages| == |s.memory|
    requires var w := s.idle[cpu]; var b := Bucket(w.freeList, w.bucket, Unknown);
             var s1 := s.(memory := s.memory[w.page := zeroed], pages := s.pages[w.page := AbortedBack(s.pages[w.page])]);
             CanPut(s1, w.page, s1.pages[w.page], b)
             && t == Put(s1, w.page, s1.pages[w.page], b).(idle := s.idle[cpu := NoWork])
    ensures t == Apply(s, IdleAbort(cpu, zeroed)) && Inv(t)
  {
    hide Inv, Push;
    StepKeeps(s, IdleAbort(cpu, zeroed));
  }

  lemma HeadIsUnknown(s: State, cpu: nat, fl: nat, bucket: nat)
    requires Inv(s) && cpu < |s.cpus| && Sized(s) && Guard(s, IdleTake(cpu, fl, bucket))
    ensures var p := s.cpus[cpu].pageFree[Bucket(fl, bucket, Unknown)][0];
            p < |s.pages| && s.pages[p].offset == cpu && s.pages[p].pqflags == {PqFree} && QueueOf(s.pages[p]) == Unknown
  {
    hide GlobalOk, CpuOk, IdleOk, ZeroOk;
    HeadIsFree(s, cpu, Bucket(fl, bucket, Unknown));
  }

  lemma NothingLeft(s: State, strat: Strategy, freeList: nat)
    requires if strat.Only? then forall p :: !Candidate(s, freeList, p) else NoneFree(s)
    ensures Exhausted(s, strat, freeList)
  {}

  lemma PagesAreOk(s: State)
    requires Coherent(s)
    ensures PagesOk(s)
  {
    hide GlobalOk, CpuOk;
  }

  lemma TakenPage(s: State, p: nat, cpu: nat, color: nat, wantZero: bool, off: nat)
    requires Inv(s) && cpu < |s.cpus| && CanTake(s, p) && IsFree(s.pages[p]) && color == ColorOf(s.pages[p], s.ncolors)
    ensures s.pages[p].pqflags == {PqFree} && Sized(s)
    ensures BitAnd(color + 1, s.ncolors - 1) < s.ncolors
    ensures Enabled(s, Alloc(cpu, p, wantZero, off))
  {
    hide GlobalOk, CpuOk, IdleOk, ZeroOk;
    ColorMask(color + 1, s.ncolors);
  }
}
