/** Wiring the pages of an object, 16 at a time (openbsd/src/sys/uvm/uvm_object.c). */
module ObjWire {
  import opened PageLists
  import opened PagingQueues

  const PAGE_SIZE := 4096
  const FETCH_PAGECOUNT := 16

  /** The offset of page i from start on. */
  function Off(start: int, i: int): int {
    start + PAGE_SIZE * i
  }

  lemma OffShift(start: int, m: int, i: int)
    ensures Off(start + PAGE_SIZE * m, i) == Off(start, m + i)
  {}

  /** From start on, the object's tree has n pages, one at each offset, all different. */
  ghost predicate Resident(memt: map<int, nat>, start: int, n: nat, npages: nat) {
    && (forall i :: 0 <= i < n ==> Off(start, i) in memt)
    && (forall i :: 0 <= i < n ==> memt[Off(start, i)] < npages)
    && (forall i, j :: 0 <= i < j < n ==> memt[Off(start, i)] != memt[Off(start, j)])
  }

  /** Those pages, in the order of their offsets. */
  function PagesAt(memt: map<int, nat>, start: int, n: nat): (ids: seq<nat>)
    requires forall i :: 0 <= i < n ==> Off(start, i) in memt
    ensures |ids| == n && forall i :: 0 <= i < n ==> ids[i] == memt[Off(start, i)]
  {
    seq(n, i requires 0 <= i < n => memt[Off(start, i)])
  }

  ghost predicate InRange(ids: seq<nat>, npages: nat) {
    Distinct(ids) && forall i :: 0 <= i < |ids| ==> ids[i] < npages
  }

  /** What wiring does to a page of an object: if the object is anonymous the page also becomes dirty. */
  function Held(pg: Page): Page {
    Wired(pg.(clean := pg.clean && !pg.aobj))
  }

  /** What wiring and unwiring leaves: the wire count of before, but an unwired page is now active. */
  function Released(pg: Page): (r: Page)
    ensures r.wireCount == pg.wireCount && (pg.wireCount == 0 ==> r.active)
  {
    Unwired(Held(pg))
  }

  function WithoutAll(q: seq<nat>, ids: seq<nat>): seq<nat> {
    if ids == [] then q else Without(WithoutAll(q, ids[..|ids| - 1]), ids[|ids| - 1])
  }

  /** Those of the pages that are wired c times. */
  function WiredTimes(pages: seq<Page>, ids: seq<nat>, c: nat): seq<nat> {
    if ids == [] then []
    else
      var p := ids[|ids| - 1];
      WiredTimes(pages, ids[..|ids| - 1], c) + if p < |pages| && pages[p].wireCount == c then [p] else []
  }

  /** The pages of ids have changed by `how`, and no others. */
  ghost predicate Changed(pages: seq<Page>, pages0: seq<Page>, ids: seq<nat>, how: Page -> Page) {
    |pages| == |pages0| && forall p: nat :: p < |pages| ==> pages[p] == if p in ids then how(pages0[p]) else pages0[p]
  }

  function Holding(): Page -> Page { (pg: Page) => Held(pg) }
  function Releasing(): Page -> Page { (pg: Page) => Released(pg) }
  function Dropping(): Page -> Page { (pg: Page) => if pg.wireCount > 0 then Unwired(pg) else pg }

  lemma ChangedStep(pages: seq<Page>, pages0: seq<Page>, ids: seq<nat>, how: Page -> Page, p: nat)
    requires Changed(pages, pages0, ids, how) && p !in ids && p < |pages0|
    ensures |pages| == |pages0| && Changed(pages[p := how(pages0[p])], pages0, ids + [p], how) && pages[p] == pages0[p]
  {}

  lemma ChangedMore(pages: seq<Page>, pages1: seq<Page>, pages0: seq<Page>, ids: seq<nat>, more: seq<nat>, how: Page -> Page)
    requires Changed(pages1, pages0, ids, how) && Changed(pages, pages1, more, how) && forall i :: 0 <= i < |more| ==> more[i] !in ids
    ensures Changed(pages, pages0, ids + more, how)
  {}

  /** Wired, then unwired. */
  lemma ChangedBack(pages: seq<Page>, pages1: seq<Page>, pages0: seq<Page>, ids: seq<nat>)
    requires Changed(pages1, pages0, ids, Holding()) && Changed(pages, pages1, ids, Dropping())
    ensures Changed(pages, pages0, ids, Releasing())
  {}

  lemma {:induction false} WithoutAllMore(q: seq<nat>, ids: seq<nat>, more: seq<nat>)
    ensures WithoutAll(q, ids + more) == WithoutAll(WithoutAll(q, ids), more)
  {
    if more == [] {
      assert ids + more == ids;
    } else {
      WithoutAllMore(q, ids, more[..|more| - 1]);
      assert (ids + more)[..|ids + more| - 1] == ids + more[..|more| - 1];
    }
  }

  lemma WithoutAllStep(q: seq<nat>, ids: seq<nat>, p: nat)
    ensures WithoutAll(q, ids + [p]) == Without(WithoutAll(q, ids), p)
  {
    assert (ids + [p])[..|ids|] == ids;
  }

  lemma WiredTimesStep(pages: seq<Page>, ids: seq<nat>, c: nat, p: nat)
    ensures WiredTimes(pages, ids + [p], c) == WiredTimes(pages, ids, c) + if p < |pages| && pages[p].wireCount == c then [p] else []
  {
    assert (ids + [p])[..|ids|] == ids;
  }

  /** Wired once now is unwired before. */
  lemma {:induction false} OnceWasIdle(pages1: seq<Page>, pages0: seq<Page>, ids: seq<nat>, k: nat)
    requires k <= |ids| && Changed(pages1, pages0, ids, Holding())
    ensures WiredTimes(pages1, ids[..k], 1) == WiredTimes(pages0, ids[..k], 0)
  {
    if k > 0 {
      OnceWasIdle(pages1, pages0, ids, k - 1);
      assert ids[..k][..k - 1] == ids[..k - 1];
      var p := ids[k - 1];
      assert p in ids;
      assert p < |pages0| ==> pages1[p] == Held(pages0[p]);
    }
  }

  ghost predicate SameWires(pages: seq<Page>, pages0: seq<Page>) {
    |pages| == |pages0| && forall p: nat :: p < |pages| ==> pages[p].wireCount == pages0[p].wireCount
  }

  /** The same wire counts, the same number of wired pages. */
  lemma {:induction false} SameWireCounts(pages: seq<Page>, pages0: seq<Page>)
    requires SameWires(pages, pages0)
    ensures WiredCount(pages) == WiredCount(pages0)
  {
    if pages != [] {
      SameWireCounts(pages[..|pages| - 1], pages0[..|pages| - 1]);
    }
  }

  lemma ReleasedCounts(pages: seq<Page>, pages0: seq<Page>, ids: seq<nat>)
    requires Changed(pages, pages0, ids, Releasing())
    ensures SameWires(pages, pages0) && WiredCount(pages) == WiredCount(pages0)
  {
    SameWireCounts(pages, pages0);
  }

  lemma ResidentFacts(memt: map<int, nat>, start: int, n: nat, npages: nat)
    requires Resident(memt, start, n, npages)
    ensures forall i :: 0 <= i < n ==> Off(start, i) in memt
    ensures InRange(PagesAt(memt, start, n), npages)
  {}

  lemma Unchanged(pages: seq<Page>, ids: seq<nat>, how: Page -> Page)
    ensures ids[..0] == [] && Changed(pages, pages, ids[..0], how) && forall c :: WiredTimes(pages, ids[..0], c) == []
    ensures forall q :: WithoutAll(q, ids[..0]) == q
  {}

  lemma NotYet(ids: seq<nat>, k: nat)
    requires Distinct(ids) && k < |ids|
    ensures ids[k] !in ids[..k]
  {}

  /** The two loops over one batch: dirty the pages of an anonymous object, then wire every page. */
  method WireBatch(pq: PageQueues, pgs: seq<nat>)
    requires pq.Valid() && InRange(pgs, |pq.pages|)
    modifies pq
    ensures pq.Valid() && Taken(Now(pq), old(Now(pq)), pgs)
    ensures |pq.pages| == |old(pq.pages)| && forall p: nat :: p < |pq.pages| ==> var pg := old(pq.pages)[p];
      pq.pages[p] == if p in pgs then Page(false, false, pg.anon, pg.aobj, pg.clean && !pg.aobj, pg.wireCount + 1) else pg
  {
    hide PageQueues.Valid, Without, Held;
    ghost var pages0 := pq.pages;
    for i := 0 to |pgs|
      invariant pq.Valid() && Changed(pq.pages, pages0, pgs[..i], Cleaning())
      invariant pq.active == old(pq.active) && pq.inactiveSwp == old(pq.inactiveSwp) && pq.inactiveObj == old(pq.inactiveObj)
    {
      assert pgs[..i + 1] == pgs[..i] + [pgs[i]];
      ChangedStep(pq.pages, pages0, pgs[..i], Cleaning(), pgs[i]);
      if pq.pages[pgs[i]].aobj { pq.Dirty(pgs[i]); }
    }
    ghost var pages1 := pq.pages;
    for i := 0 to |pgs|
      invariant pq.Valid() && Changed(pq.pages, pages1, pgs[..i], Wiring())
      invariant pq.active == WithoutAll(old(pq.active), pgs[..i])
      invariant pq.inactiveSwp == WithoutAll(old(pq.inactiveSwp), pgs[..i]) && pq.inactiveObj == WithoutAll(old(pq.inactiveObj), pgs[..i])
    {
      assert pgs[..i + 1] == pgs[..i] + [pgs[i]];
      ChangedStep(pq.pages, pages1, pgs[..i], Wiring(), pgs[i]);
      WithoutAllStep(old(pq.active), pgs[..i], pgs[i]);
      WithoutAllStep(old(pq.inactiveSwp), pgs[..i], pgs[i]);
      WithoutAllStep(old(pq.inactiveObj), pgs[..i], pgs[i]);
      pq.Wire(pgs[i]);
    }
    assert pgs[..|pgs|] == pgs;
    CleanedThenWired(pq.pages, pages1, pages0, pgs);
    HeldMeans(pq.pages, pages0, pgs);
  }

  function Cleaning(): Page -> Page { (pg: Page) => pg.(clean := pg.clean && !pg.aobj) }
  function Wiring(): Page -> Page { (pg: Page) => Wired(pg) }

  lemma CleanedThenWired(pages: seq<Page>, pages1: seq<Page>, pages0: seq<Page>, ids: seq<nat>)
    requires Changed(pages1, pages0, ids, Cleaning()) && Changed(pages, pages1, ids, Wiring())
    ensures Changed(pages, pages0, ids, Holding())
  {}

  ghost predicate AllHeld(pages: seq<Page>, ids: seq<nat>) {
    forall i :: 0 <= i < |ids| && ids[i] < |pages| ==> pages[ids[i]].wireCount > 0
  }

  lemma OffIs(start: int, i: int)
    ensures Off(start, i) == start + PAGE_SIZE * i
  {}

  lemma StillHeld(pages: seq<Page>, pages0: seq<Page>, ids: seq<nat>, k: nat)
    requires k < |ids| && Changed(pages, pages0, ids[..k], Dropping()) && Distinct(ids) && AllHeld(pages0, ids) && ids[k] < |pages0|
    ensures |pages| == |pages0| && pages[ids[k]].wireCount > 0
  {
    NotYet(ids, k);
  }

  /** The three changes, field by field. */
  lemma HeldMeans(pages: seq<Page>, pages0: seq<Page>, ids: seq<nat>)
    requires Changed(pages, pages0, ids, Holding())
    ensures |pages| == |pages0| && forall p: nat :: p < |pages| ==> var pg := pages0[p];
      pages[p] == if p in ids then Page(false, false, pg.anon, pg.aobj, pg.clean && !pg.aobj, pg.wireCount + 1) else pg
  {}

  lemma DroppedMeans(pages: seq<Page>, pages0: seq<Page>, ids: seq<nat>)
    requires Changed(pages, pages0, ids, Dropping()) && AllOk(pages0) && AllHeld(pages0, ids)
    ensures |pages| == |pages0| && forall p: nat :: p < |pages| ==> var pg := pages0[p];
      pages[p] == if p in ids then Page(pg.wireCount == 1, false, pg.anon, pg.aobj, pg.clean, pg.wireCount - 1) else pg
  {
    forall p: nat | p < |pages| && p in ids ensures pages0[p].wireCount > 0 && PageOk(pages0[p]) {
      var i :| 0 <= i < |ids| && ids[i] == p;
    }
  }

  lemma ReleasedMeans(pages: seq<Page>, pages0: seq<Page>, ids: seq<nat>)
    requires Changed(pages, pages0, ids, Releasing())
    ensures |pages| == |pages0| && forall p: nat :: p < |pages| ==> var pg := pages0[p];
      pages[p] == if p in ids then Page(pg.wireCount == 0, false, pg.anon, pg.aobj, pg.clean && !pg.aobj, pg.wireCount) else pg
  {}

  ghost predicate AllOk(pages: seq<Page>) {
    forall p: nat :: p < |pages| ==> PageOk(pages[p])
  }

  lemma ValidPages(pq: PageQueues)
    requires pq.Valid()
    ensures AllOk(pq.pages)
  {}

  /** uvm_objunwire: every page of the range loses one wiring; those that lose their last go to the active queue. */
  method Unwire(pq: PageQueues, memt: map<int, nat>, start: int, end: int)
    requires pq.Valid() && start <= end && (end - start) % PAGE_SIZE == 0
    requires Resident(memt, start, (end - start) / PAGE_SIZE, |pq.pages|)
    requires AllHeld(pq.pages, PagesAt(memt, start, (end - start) / PAGE_SIZE))
    modifies pq
    ensures var ids := PagesAt(memt, start, (end - start) / PAGE_SIZE);
      && pq.Valid() && Changed(pq.pages, old(pq.pages), ids, Dropping())
      && pq.active == old(pq.active) + WiredTimes(old(pq.pages), ids, 1)
      && pq.inactiveSwp == old(pq.inactiveSwp) && pq.inactiveObj == old(pq.inactiveObj)
    ensures var ids := PagesAt(memt, start, (end - start) / 4096);
      |pq.pages| == |old(pq.pages)| && forall p: nat :: p < |pq.pages| ==> var pg := old(pq.pages)[p];
        pq.pages[p] == if p in ids then Page(pg.wireCount == 1, false, pg.anon, pg.aobj, pg.clean, pg.wireCount - 1) else pg
  {
    hide Off, PageQueues.Valid, Without, Resident, Changed, WiredTimes, PagesAt;
    ghost var n, pages0 := (end - start) / PAGE_SIZE, pq.pages;
    ValidPages(pq);
    ResidentFacts(memt, start, n, |pages0|);
    ghost var ids := PagesAt(memt, start, n);
    Unchanged(pages0, ids, Dropping());
    var offset := start;
    ghost var k := 0;
    while offset < end
      invariant 0 <= k <= n && offset == start + PAGE_SIZE * k && end == start + PAGE_SIZE * n
      invariant pq.Valid() && Changed(pq.pages, pages0, ids[..k], Dropping())
      invariant pq.active == old(pq.active) + WiredTimes(pages0, ids[..k], 1)
      invariant pq.inactiveSwp == old(pq.inactiveSwp) && pq.inactiveObj == old(pq.inactiveObj)
      decreases n - k
    {
      assert ids[..k + 1] == ids[..k] + [ids[k]];
      NotYet(ids, k);
      OffIs(start, k);
      StillHeld(pq.pages, pages0, ids, k);
      ChangedStep(pq.pages, pages0, ids[..k], Dropping(), ids[k]);
      WiredTimesStep(pages0, ids[..k], 1, ids[k]);
      pq.Unwire(memt[offset]);
      offset, k := offset + PAGE_SIZE, k + 1;
    }
    assert ids[..k] == ids;
    DroppedMeans(pq.pages, pages0, ids);
  }

  /** The queues and pages of a moment. */
  datatype Moment = Moment(pages: seq<Page>, active: seq<nat>, swp: seq<nat>, obj: seq<nat>)

  function Now(pq: PageQueues): Moment
    reads pq
  {
    Moment(pq.pages, pq.active, pq.inactiveSwp, pq.inactiveObj)
  }

  /** All the pages of ids have been wired once more, and nothing else happened. */
  ghost predicate Taken(now: Moment, entry: Moment, ids: seq<nat>) {
    && Changed(now.pages, entry.pages, ids, Holding()) && now.active == WithoutAll(entry.active, ids)
    && now.swp == WithoutAll(entry.swp, ids) && now.obj == WithoutAll(entry.obj, ids)
  }

  /** They were unwired again: no wire count differs, and the pages that had none are at the tail of the active queue. */
  ghost predicate BackedOut(now: Moment, entry: Moment, ids: seq<nat>) {
    && Changed(now.pages, entry.pages, ids, Releasing()) && SameWires(now.pages, entry.pages)
    && now.active == WithoutAll(entry.active, ids) + WiredTimes(entry.pages, ids, 0)
    && now.swp == WithoutAll(entry.swp, ids) && now.obj == WithoutAll(entry.obj, ids)
  }

  function Least(a: int, b: int): int {
    if a <= b then a else b
  }

  lemma Prefix(memt: map<int, nat>, start: int, n: nat, m: nat, npages: nat)
    requires Resident(memt, start, n, npages) && m <= n
    ensures Resident(memt, start, m, npages) && PagesAt(memt, start, m) == PagesAt(memt, start, n)[..m]
  {}

  /** The next batch is the next slice of the pages, none of them seen before. */
  lemma Slice(memt: map<int, nat>, start: int, n: nat, m: nat, offset: int, k: nat, npages: nat)
    requires Resident(memt, start, n, npages) && m + k <= n && offset == start + PAGE_SIZE * m
    ensures forall i :: 0 <= i < k ==> Off(offset, i) in memt
    ensures var ids := PagesAt(memt, start, n);
      && ids[..m + k] == ids[..m] + PagesAt(memt, offset, k)
      && InRange(PagesAt(memt, offset, k), npages)
      && forall i :: 0 <= i < k ==> PagesAt(memt, offset, k)[i] !in ids[..m]
  {
    hide Off, Resident, PagesAt;
    ResidentFacts(memt, start, n, npages);
    SliceAt(memt, start, n, m, offset, k, npages);
    PartOf(PagesAt(memt, start, n), PagesAt(memt, offset, k), m, npages);
  }

  lemma SliceAt(memt: map<int, nat>, start: int, n: nat, m: nat, offset: int, k: nat, npages: nat)
    requires Resident(memt, start, n, npages) && m + k <= n && offset == start + PAGE_SIZE * m
    ensures forall i :: 0 <= i < k ==> Off(offset, i) in memt
    ensures PagesAt(memt, offset, k) == PagesAt(memt, start, n)[m..m + k]
  {
    hide Off;
    forall i | 0 <= i < k ensures Off(offset, i) in memt && memt[Off(offset, i)] == PagesAt(memt, start, n)[m + i] {
      OffShift(start, m, i);
      assert Off(start, m + i) in memt;
    }
  }

  lemma PartOf(ids: seq<nat>, batch: seq<nat>, m: nat, npages: nat)
    requires InRange(ids, npages) && m + |batch| <= |ids| && batch == ids[m..m + |batch|]
    ensures ids[..m + |batch|] == ids[..m] + batch && InRange(batch, npages)
    ensures forall i :: 0 <= i < |batch| ==> batch[i] !in ids[..m]
  {
    assert forall i :: 0 <= i < |batch| ==> batch[i] == ids[m + i];
  }

  lemma AllWired(pages: seq<Page>, pages0: seq<Page>, ids: seq<nat>)
    requires Changed(pages, pages0, ids, Holding())
    ensures |pages| == |pages0| && AllHeld(pages, ids)
  {
    forall i | 0 <= i < |ids| && ids[i] < |pages| ensures pages[ids[i]].wireCount > 0 {
      assert ids[i] in ids;
    }
  }

  lemma WiredIs(pq: PageQueues)
    requires pq.Valid()
    ensures pq.nwired == WiredCount(pq.pages)
  {}

  lemma NothingTaken(entry: Moment, ids: seq<nat>)
    ensures ids[..0] == [] && Taken(entry, entry, ids[..0])
  {
    Unchanged(entry.pages, ids, Holding());
  }

  lemma TakenMore(now: Moment, between: Moment, entry: Moment, ids: seq<nat>, more: seq<nat>)
    requires Taken(between, entry, ids) && Taken(now, between, more) && forall i :: 0 <= i < |more| ==> more[i] !in ids
    ensures Taken(now, entry, ids + more)
  {
    hide Changed, WithoutAll;
    ChangedMore(now.pages, between.pages, entry.pages, ids, more, Holding());
    WithoutAllMore(entry.active, ids, more);
    WithoutAllMore(entry.swp, ids, more);
    WithoutAllMore(entry.obj, ids, more);
  }

  lemma TakenFacts(now: Moment, entry: Moment, ids: seq<nat>)
    requires Taken(now, entry, ids)
    ensures |now.pages| == |entry.pages| && AllHeld(now.pages, ids)
  {
    hide WithoutAll;
    AllWired(now.pages, entry.pages, ids);
  }

  lemma TakenBack(now: Moment, between: Moment, entry: Moment, ids: seq<nat>)
    requires Taken(between, entry, ids) && Changed(now.pages, between.pages, ids, Dropping())
    requires now.active == between.active + WiredTimes(between.pages, ids, 1) && now.swp == between.swp && now.obj == between.obj
    ensures BackedOut(now, entry, ids) && WiredCount(now.pages) == WiredCount(entry.pages)
  {
    hide WithoutAll, WiredTimes, WiredCount, Changed, SameWires;
    ChangedBack(now.pages, between.pages, entry.pages, ids);
    OnceWasIdle(between.pages, entry.pages, ids, |ids|);
    assert ids[..|ids|] == ids;
    ReleasedCounts(now.pages, entry.pages, ids);
  }

  /** uvm_objwire; results[b] is what pgo_get returns for the b-th batch, 0 for success. All or nothing: without an
      error every page of the range is wired once more; with one, from the first batch that fails, every wire count
      is as at entry. */
  method Wire(pq: PageQueues, memt: map<int, nat>, start: int, end: int, results: seq<int>) returns (error: int, ghost m: nat)
    requires pq.Valid() && start <= end && (end - start) % PAGE_SIZE == 0
    requires Resident(memt, start, (end - start) / PAGE_SIZE, |pq.pages|)
    requires (end - start) / PAGE_SIZE <= FETCH_PAGECOUNT * |results|
    modifies pq
    ensures var n := (end - start) / PAGE_SIZE; var ids := PagesAt(memt, start, n);
      && pq.Valid() && m <= n && (forall b :: 0 <= b < |results| && FETCH_PAGECOUNT * b < m ==> results[b] == 0)
      && (error == 0 ==> m == n && Taken(Now(pq), old(Now(pq)), ids))
      && (error != 0 ==> m < n && m % FETCH_PAGECOUNT == 0 && error == results[m / FETCH_PAGECOUNT]
                         && BackedOut(Now(pq), old(Now(pq)), ids[..m]) && pq.nwired == old(pq.nwired))
    ensures var ids := PagesAt(memt, start, (end - start) / 4096);
      |pq.pages| == |old(pq.pages)| && forall p: nat :: p < |pq.pages| ==> var pg := old(pq.pages)[p];
        pq.pages[p] ==
          if error == 0 && p in ids then Page(false, false, pg.anon, pg.aobj, pg.clean && !pg.aobj, pg.wireCount + 1)
          else if error != 0 && m <= |ids| && p in ids[..m] then
            Page(pg.wireCount == 0, false, pg.anon, pg.aobj, pg.clean && !pg.aobj, pg.wireCount)
          else pg
  {
    hide PageQueues.Valid, Resident, PagesAt, Taken, BackedOut, AllHeld, Off, Changed, WiredTimes, Without, WithoutAll, WiredCount;
    ghost var n, entry := (end - start) / PAGE_SIZE, Now(pq);
    ResidentFacts(memt, start, n, |pq.pages|);
    ghost var ids := PagesAt(memt, start, n);
    NothingTaken(entry, ids);
    WiredIs(pq);
    var offset, left := start, (end - start) / PAGE_SIZE;
    var b := 0;
    m, error := 0, 0;
    while left != 0
      invariant 0 <= left && left == n - m && offset == start + PAGE_SIZE * m
      invariant left != 0 ==> m == FETCH_PAGECOUNT * b
      invariant b <= |results| && m <= FETCH_PAGECOUNT * b && forall c :: 0 <= c < b ==> results[c] == 0
      invariant pq.Valid() && Taken(Now(pq), entry, ids[..m])
      decreases left
    {
      var npages := Least(FETCH_PAGECOUNT, left);
      ghost var between := Now(pq);
      TakenFacts(between, entry, ids[..m]);
      error := results[b];
      if error != 0 {
        Prefix(memt, start, n, m, |entry.pages|);
        Unwire(pq, memt, start, offset);
        TakenBack(Now(pq), between, entry, ids[..m]);
        BackedOutMeans(Now(pq), entry, ids[..m]);
        WiredIs(pq);
        return;
      }
      Slice(memt, start, n, m, offset, npages, |entry.pages|);
      var pgs := PagesAt(memt, offset, npages);
      WireBatch(pq, pgs);
      TakenMore(Now(pq), between, entry, ids[..m], pgs);
      left, m := left - npages, m + npages;
      offset := offset + npages * PAGE_SIZE;
      b := b + 1;
    }
    assert ids[..m] == ids;
    TakenMeans(Now(pq), entry, ids);
  }

  lemma TakenMeans(now: Moment, entry: Moment, ids: seq<nat>)
    requires Taken(now, entry, ids)
    ensures |now.pages| == |entry.pages| && forall p: nat :: p < |now.pages| ==> var pg := entry.pages[p];
      now.pages[p] == if p in ids then Page(false, false, pg.anon, pg.aobj, pg.clean && !pg.aobj, pg.wireCount + 1) else pg
  {
    hide Changed, WithoutAll;
    HeldMeans(now.pages, entry.pages, ids);
  }

  lemma BackedOutMeans(now: Moment, entry: Moment, ids: seq<nat>)
    requires BackedOut(now, entry, ids)
    ensures |now.pages| == |entry.pages| && forall p: nat :: p < |now.pages| ==> var pg := entry.pages[p];
      now.pages[p] == if p in ids then Page(pg.wireCount == 0, false, pg.anon, pg.aobj, pg.clean && !pg.aobj, pg.wireCount) else pg
  {
    hide Changed, WithoutAll, WiredTimes, SameWires;
    ReleasedMeans(now.pages, entry.pages, ids);
  }
}
