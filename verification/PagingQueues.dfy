/** OpenBSD's paging queues (openbsd/src/sys/uvm/uvm_page.c): three lists, the flags in the pages, and the counters. */
module PagingQueues {
  import opened PageLists

  /** The part of struct vm_page the queues use; wireCount counts wirings. `anon` is PQ_ANON, `aobj` PQ_AOBJ. */
  datatype Page = Page(active: bool, inactive: bool, anon: bool, aobj: bool, clean: bool, wireCount: nat)

  predicate SwapBacked(pg: Page) {
    pg.anon || pg.aobj
  }

  /** How many pages are wired. */
  function WiredCount(pages: seq<Page>): nat {
    if pages == [] then 0 else WiredCount(pages[..|pages| - 1]) + if pages[|pages| - 1].wireCount > 0 then 1 else 0
  }

  /** q holds, once each, exactly the pages that `on` selects. */
  ghost predicate Lists(q: seq<nat>, pages: seq<Page>, on: Page -> bool) {
    && Distinct(q)
    && (forall i :: 0 <= i < |q| ==> q[i] < |pages|)
    && (forall p: nat :: p < |pages| ==> (p in q <==> on(pages[p])))
  }

  function OnActive(): Page -> bool { (pg: Page) => pg.active }
  function OnSwp(): Page -> bool { (pg: Page) => pg.inactive && SwapBacked(pg) }
  function OnObj(): Page -> bool { (pg: Page) => pg.inactive && !SwapBacked(pg) }

  /** A page is on at most one queue, a wired page on none. */
  predicate PageOk(pg: Page) {
    !(pg.active && pg.inactive) && (pg.wireCount > 0 ==> !pg.active && !pg.inactive)
  }

  /** Removing a page, and no longer selecting it. */
  lemma ListsWithout(q: seq<nat>, pages: seq<Page>, on: Page -> bool, p: nat, pg: Page)
    requires Lists(q, pages, on) && p < |pages| && !on(pg)
    ensures Lists(Without(q, p), pages[p := pg], on) && |Without(q, p)| == |q| - if on(pages[p]) then 1 else 0
  {
    WithoutDistinct(q, p);
    var r := Without(q, p);
    forall i | 0 <= i < |r| ensures r[i] < |pages| {
      assert r[i] in r;
    }
  }

  /** Appending a page that is not there. */
  lemma ListsAppend(q: seq<nat>, pages: seq<Page>, on: Page -> bool, p: nat, pg: Page)
    requires Lists(q, pages, on) && p < |pages| && !on(pages[p]) && on(pg)
    ensures Lists(q + [p], pages[p := pg], on)
  {}

  lemma ListsSame(q: seq<nat>, pages: seq<Page>, on: Page -> bool, p: nat, pg: Page)
    requires Lists(q, pages, on) && p < |pages| && on(pages[p]) == on(pg)
    ensures Lists(q, pages[p := pg], on)
  {}

  lemma {:induction false} WiredCountUpdate(pages: seq<Page>, p: nat, pg: Page)
    requires p < |pages|
    ensures WiredCount(pages[p := pg]) == WiredCount(pages) - (if pages[p].wireCount > 0 then 1 else 0) + (if pg.wireCount > 0 then 1 else 0)
  {
    var n := |pages| - 1;
    if p < n {
      WiredCountUpdate(pages[..n], p, pg);
      assert pages[p := pg][..n] == pages[..n][p := pg];
    } else {
      assert pages[p := pg][..n] == pages[..n];
    }
  }

  class PageQueues {
    var pages: seq<Page>
    var active: seq<nat>          // uvm.page_active
    var inactiveSwp: seq<nat>     // uvm.page_inactive_swp
    var inactiveObj: seq<nat>     // uvm.page_inactive_obj
    var nactive: int              // uvmexp.active
    var ninactive: int
    var nwired: int

    ghost predicate Valid()
      reads this
    {
      && Lists(active, pages, OnActive()) && Lists(inactiveSwp, pages, OnSwp()) && Lists(inactiveObj, pages, OnObj())
      && (forall p: nat :: p < |pages| ==> PageOk(pages[p]))
      && nactive == |active| && ninactive == |inactiveSwp| + |inactiveObj| && nwired == WiredCount(pages)
    }

    constructor (pages: seq<Page>)
      requires forall p: nat :: p < |pages| ==> !pages[p].active && !pages[p].inactive && pages[p].wireCount == 0
      ensures Valid() && this.pages == pages && active == inactiveSwp == inactiveObj == []
    {
      this.pages := pages;
      active, inactiveSwp, inactiveObj := [], [], [];
      nactive, ninactive, nwired := 0, 0, 0;
      NoneWired(pages);
    }

    /** The block that takes a page off the active queue. */
    method DequeueActive(p: nat)
      requires Valid() && p < |pages|
      modifies this
      ensures Valid() && pages == old(pages)[p := old(pages)[p].(active := false)] && nwired == old(nwired)
      ensures active == Without(old(active), p) && inactiveSwp == old(inactiveSwp) && inactiveObj == old(inactiveObj)
    {
      hide WiredCount, Without, Lists;
      if pages[p].active {
        var off := pages[p].(active := false);
        ListsWithout(active, pages, OnActive(), p, off);
        ListsSame(inactiveSwp, pages, OnSwp(), p, off);
        ListsSame(inactiveObj, pages, OnObj(), p, off);
        WiredCountUpdate(pages, p, off);
        active := Without(active, p);
        pages := pages[p := off];
        nactive := nactive - 1;
      } else {
        NotActive(pages, active, p);
      }
    }

    /** The block that takes a page off the inactive queue its backing says it is on. */
    method DequeueInactive(p: nat)
      requires Valid() && p < |pages|
      modifies this
      ensures Valid() && pages == old(pages)[p := old(pages)[p].(inactive := false)] && nwired == old(nwired)
      ensures active == old(active) && inactiveSwp == Without(old(inactiveSwp), p) && inactiveObj == Without(old(inactiveObj), p)
    {
      hide WiredCount, Without, Lists;
      if pages[p].inactive {
        var off := pages[p].(inactive := false);
        NotOther(pages, inactiveSwp, inactiveObj, p);
        ListsSame(active, pages, OnActive(), p, off);
        ListsWithout(inactiveSwp, pages, OnSwp(), p, off);
        ListsWithout(inactiveObj, pages, OnObj(), p, off);
        WiredCountUpdate(pages, p, off);
        if SwapBacked(pages[p]) {
          inactiveSwp := Without(inactiveSwp, p);
        } else {
          inactiveObj := Without(inactiveObj, p);
        }
        pages := pages[p := off];
        ninactive := ninactive - 1;
      } else {
        NotOther(pages, inactiveSwp, inactiveObj, p);
      }
    }

    /** uvm_pagewire. */
    method Wire(p: nat)
      requires Valid() && p < |pages|
      modifies this
      ensures Valid() && pages == old(pages)[p := Wired(old(pages)[p])]
      ensures var pg := old(pages)[p]; pages == old(pages)[p := Page(false, false, pg.anon, pg.aobj, pg.clean, pg.wireCount + 1)]
      ensures active == Without(old(active), p) && inactiveSwp == Without(old(inactiveSwp), p) && inactiveObj == Without(old(inactiveObj), p)
      ensures nwired == old(nwired) + if old(pages)[p].wireCount == 0 then 1 else 0
    {
      hide WiredCount, Without, Lists;
      if pages[p].wireCount == 0 {
        DequeueActive(p);
        DequeueInactive(p);
        nwired := nwired + 1;
      } else {
        OffQueues(pages, active, inactiveSwp, inactiveObj, p);
      }
      var pg := pages[p].(wireCount := pages[p].wireCount + 1);
      StaysOff(pages, active, inactiveSwp, inactiveObj, p, pg);
      WiredCountUpdate(pages, p, pg);
      pages := pages[p := pg];
    }

    /** uvm_pageunwire: the last unwiring puts the page at the tail of the active queue. */
    method Unwire(p: nat)
      requires Valid() && p < |pages| && pages[p].wireCount > 0
      modifies this
      ensures Valid() && pages == old(pages)[p := Unwired(old(pages)[p])]
      ensures var pg := old(pages)[p];
        pages == old(pages)[p := Page(pg.wireCount == 1, false, pg.anon, pg.aobj, pg.clean, pg.wireCount - 1)]
      ensures active == old(active) + (if old(pages)[p].wireCount == 1 then [p] else [])
      ensures inactiveSwp == old(inactiveSwp) && inactiveObj == old(inactiveObj)
      ensures nwired == old(nwired) - if old(pages)[p].wireCount == 1 then 1 else 0
    {
      hide WiredCount, Without, Lists;
      var pg := pages[p].(wireCount := pages[p].wireCount - 1);
      if pg.wireCount == 0 {
        active := active + [p];
        nactive := nactive + 1;
        pg := pg.(active := true);
        nwired := nwired - 1;
        BecomesActive(pages, old(active), inactiveSwp, inactiveObj, p, pg);
      } else {
        StaysOff(pages, active, inactiveSwp, inactiveObj, p, pg);
      }
      WiredCountUpdate(pages, p, pg);
      pages := pages[p := pg];
    }

    /** uvm_pagedeactivate: to the tail of the inactive queue its backing calls for, unless it is inactive already;
        `modified` is pmap_is_modified. */
    method Deactivate(p: nat, modified: bool)
      requires Valid() && p < |pages| && pages[p].wireCount == 0
      modifies this
      ensures Valid() && nwired == old(nwired)
      ensures old(pages)[p].inactive ==> pages == old(pages) && active == old(active) && inactiveSwp == old(inactiveSwp) && inactiveObj == old(inactiveObj)
      ensures !old(pages)[p].inactive ==> var pg := old(pages)[p];
        && pages == old(pages)[p := pg.(active := false, inactive := true, clean := pg.clean && !modified)]
        && active == Without(old(active), p)
        && inactiveSwp == (if pg.anon || pg.aobj then old(inactiveSwp) + [p] else old(inactiveSwp))
        && inactiveObj == (if pg.anon || pg.aobj then old(inactiveObj) else old(inactiveObj) + [p])
    {
      hide WiredCount, Without, Lists;
      NotActive(pages, active, p);
      NotOther(pages, inactiveSwp, inactiveObj, p);
      DequeueActive(p);
      if !pages[p].inactive {
        ghost var swp, obj := inactiveSwp, inactiveObj;
        var pg := pages[p].(inactive := true);
        if SwapBacked(pages[p]) {
          inactiveSwp := inactiveSwp + [p];
        } else {
          inactiveObj := inactiveObj + [p];
        }
        ninactive := ninactive + 1;
        if pg.clean && modified { pg := pg.(clean := false); }
        BecomesInactive(pages, active, swp, obj, p, pg);
        WiredCountUpdate(pages, p, pg);
        pages := pages[p := pg];
      }
    }

    /** uvm_pageactivate: an unwired page goes to the tail of the active queue, wherever it was; a wired one stays off. */
    method Activate(p: nat)
      requires Valid() && p < |pages|
      modifies this
      ensures Valid() && nwired == old(nwired)
      ensures old(pages)[p].wireCount > 0 ==> pages == old(pages) && active == old(active) && inactiveSwp == old(inactiveSwp) && inactiveObj == old(inactiveObj)
      ensures old(pages)[p].wireCount == 0 ==>
        && pages == old(pages)[p := old(pages)[p].(active := true, inactive := false)]
        && active == Without(old(active), p) + [p]
        && inactiveSwp == Without(old(inactiveSwp), p) && inactiveObj == Without(old(inactiveObj), p)
    {
      hide WiredCount, Without, Lists;
      NotOther(pages, inactiveSwp, inactiveObj, p);
      DequeueInactive(p);
      if pages[p].wireCount == 0 {
        var pg := pages[p].(active := true);
        WiredCountUpdate(pages, p, pg);
        if pages[p].active {
          MovesToTail(pages, active, inactiveSwp, inactiveObj, p);
          active := Without(active, p);
        } else {
          NotActive(pages, active, p);
          BecomesActive(pages, active, inactiveSwp, inactiveObj, p, pg);
          pages := pages[p := pg];
          nactive := nactive + 1;
        }
        active := active + [p];
      }
    }

    /** PG_CLEAN is cleared. */
    method Dirty(p: nat)
      requires Valid() && p < |pages|
      modifies this
      ensures Valid() && pages == old(pages)[p := old(pages)[p].(clean := false)] && nwired == old(nwired)
      ensures active == old(active) && inactiveSwp == old(inactiveSwp) && inactiveObj == old(inactiveObj)
    {
      hide WiredCount, Without, Lists;
      var pg := pages[p].(clean := false);
      ListsSame(active, pages, OnActive(), p, pg);
      ListsSame(inactiveSwp, pages, OnSwp(), p, pg);
      ListsSame(inactiveObj, pages, OnObj(), p, pg);
      WiredCountUpdate(pages, p, pg);
      pages := pages[p := pg];
    }

    /** The owner flags a page gets when it is handed out (uvm_pagealloc_pg). */
    method Own(p: nat, anon: bool, aobj: bool)
      requires Valid() && p < |pages| && !pages[p].active && !pages[p].inactive
      modifies this
      ensures Valid() && pages == old(pages)[p := old(pages)[p].(anon := anon, aobj := aobj)] && nwired == old(nwired)
      ensures active == old(active) && inactiveSwp == old(inactiveSwp) && inactiveObj == old(inactiveObj)
    {
      hide WiredCount, Without, Lists;
      var pg := pages[p].(anon := anon, aobj := aobj);
      StaysOff(pages, active, inactiveSwp, inactiveObj, p, pg);
      WiredCountUpdate(pages, p, pg);
      pages := pages[p := pg];
    }

    /** uvm_pagefree for an unloaned page: off its queue, unwired however often it was wired, flags cleared. */
    method Free(p: nat)
      requires Valid() && p < |pages|
      modifies this
      ensures Valid() && pages == old(pages)[p := Page(false, false, false, false, false, 0)]
      ensures active == Without(old(active), p) && inactiveSwp == Without(old(inactiveSwp), p) && inactiveObj == Without(old(inactiveObj), p)
      ensures nwired == old(nwired) - if old(pages)[p].wireCount > 0 then 1 else 0
    {
      hide WiredCount, Without, Lists;
      DequeueActive(p);
      DequeueInactive(p);
      var pg := pages[p];
      if pg.wireCount != 0 {
        pg := pg.(wireCount := 0);
        nwired := nwired - 1;
      }
      if pg.anon { pg := pg.(anon := false); }
      pg := pg.(aobj := false);
      pg := pg.(clean := false);
      StaysOff(pages, active, inactiveSwp, inactiveObj, p, pg);
      WiredCountUpdate(pages, p, pg);
      pages := pages[p := pg];
    }
  }

  /** What the flags of a page say of the queues: a page is on at most one of them, once, and on none if it is wired. */
  lemma FlagsAreMembership(pq: PageQueues, p: nat)
    requires pq.Valid() && p < |pq.pages|
    ensures var pg := pq.pages[p];
      && (p in pq.active <==> pg.active) && (p in pq.inactiveSwp <==> pg.inactive && (pg.anon || pg.aobj))
      && (p in pq.inactiveObj <==> pg.inactive && !pg.anon && !pg.aobj)
      && !(pg.active && pg.inactive) && (pg.wireCount > 0 ==> !pg.active && !pg.inactive)
    ensures Distinct(pq.active) && Distinct(pq.inactiveSwp) && Distinct(pq.inactiveObj)
  {
    assert PageOk(pq.pages[p]);
  }

  /** The length of a queue, and so its counter, is the true number of pages with the flag. */
  lemma QueueLengthIsCount(q: seq<nat>, pages: seq<Page>, on: Page -> bool)
    requires Lists(q, pages, on)
    ensures |q| == Count(pages, on)
  {
    forall p: nat | p in q ensures p < |pages| {
      var i :| 0 <= i < |q| && q[i] == p;
    }
    LengthIsCount(q, pages, on);
  }

  /** All three counters together: no page is counted twice, and all are iff none is off every queue and unwired. */
  lemma {:induction false} CountersFit(pages: seq<Page>)
    requires forall p: nat :: p < |pages| ==> PageOk(pages[p])
    ensures Count(pages, OnActive()) + Count(pages, OnSwp()) + Count(pages, OnObj()) + WiredCount(pages) <= |pages|
    ensures Count(pages, OnActive()) + Count(pages, OnSwp()) + Count(pages, OnObj()) + WiredCount(pages) == |pages|
       <==> forall p: nat :: p < |pages| ==> pages[p].active || pages[p].inactive || pages[p].wireCount > 0
  {
    if pages != [] {
      var n := |pages| - 1;
      forall p: nat | p < n ensures pages[..n][p] == pages[p] {}
      CountersFit(pages[..n]);
      assert PageOk(pages[n]);
      if forall p: nat :: p < n ==> pages[..n][p].active || pages[..n][p].inactive || pages[..n][p].wireCount > 0 {
        forall p: nat | p < n ensures pages[p].active || pages[p].inactive || pages[p].wireCount > 0 {
          assert pages[..n][p].active || pages[..n][p].inactive || pages[..n][p].wireCount > 0;
        }
      }
    }
  }

  function Wired(pg: Page): Page {
    pg.(active := false, inactive := false, wireCount := pg.wireCount + 1)
  }

  function Unwired(pg: Page): Page
    requires pg.wireCount > 0
  {
    pg.(active := pg.active || pg.wireCount == 1, wireCount := pg.wireCount - 1)
  }

  /** The three queues list what the flags select. */
  ghost predicate AllListed(pages: seq<Page>, active: seq<nat>, swp: seq<nat>, obj: seq<nat>) {
    Lists(active, pages, OnActive()) && Lists(swp, pages, OnSwp()) && Lists(obj, pages, OnObj())
  }

  lemma OffQueues(pages: seq<Page>, active: seq<nat>, swp: seq<nat>, obj: seq<nat>, p: nat)
    requires AllListed(pages, active, swp, obj) && p < |pages| && !pages[p].active && !pages[p].inactive
    ensures Without(active, p) == active && Without(swp, p) == swp && Without(obj, p) == obj
  {
    hide Without, Distinct;
    NotThere(active, p);
    NotThere(swp, p);
    NotThere(obj, p);
  }

  lemma NotActive(pages: seq<Page>, active: seq<nat>, p: nat)
    requires Lists(active, pages, OnActive()) && p < |pages|
    ensures !pages[p].active ==> Without(active, p) == active
  {
    hide Without, Distinct;
    NotThere(active, p);
  }

  /** An inactive page is on the queue its backing calls for, and not on the other. */
  lemma NotOther(pages: seq<Page>, swp: seq<nat>, obj: seq<nat>, p: nat)
    requires Lists(swp, pages, OnSwp()) && Lists(obj, pages, OnObj()) && p < |pages|
    ensures !(pages[p].inactive && SwapBacked(pages[p])) ==> Without(swp, p) == swp
    ensures !(pages[p].inactive && !SwapBacked(pages[p])) ==> Without(obj, p) == obj
  {
    hide Without, Distinct;
    NotThere(swp, p);
    NotThere(obj, p);
  }

  lemma MovesToTail(pages: seq<Page>, active: seq<nat>, swp: seq<nat>, obj: seq<nat>, p: nat)
    requires AllListed(pages, active, swp, obj) && p < |pages| && pages[p].active && !pages[p].inactive
    ensures AllListed(pages, Without(active, p) + [p], swp, obj) && |Without(active, p)| == |active| - 1
  {
    hide Lists, Without;
    var off := pages[p].(active := false);
    ListsWithout(active, pages, OnActive(), p, off);
    ListsAppend(Without(active, p), pages[p := off], OnActive(), p, pages[p]);
    assert pages[p := off][p := pages[p]] == pages;
  }

  lemma StaysOff(pages: seq<Page>, active: seq<nat>, swp: seq<nat>, obj: seq<nat>, p: nat, pg: Page)
    requires AllListed(pages, active, swp, obj) && p < |pages|
    requires !pages[p].active && !pages[p].inactive && !pg.active && !pg.inactive
    ensures AllListed(pages[p := pg], active, swp, obj)
  {
    hide Lists;
    ListsSame(active, pages, OnActive(), p, pg);
    ListsSame(swp, pages, OnSwp(), p, pg);
    ListsSame(obj, pages, OnObj(), p, pg);
  }

  lemma BecomesActive(pages: seq<Page>, active: seq<nat>, swp: seq<nat>, obj: seq<nat>, p: nat, pg: Page)
    requires AllListed(pages, active, swp, obj) && p < |pages|
    requires !pages[p].active && !pages[p].inactive && pg.active && !pg.inactive
    ensures AllListed(pages[p := pg], active + [p], swp, obj)
  {
    hide Lists;
    ListsAppend(active, pages, OnActive(), p, pg);
    ListsSame(swp, pages, OnSwp(), p, pg);
    ListsSame(obj, pages, OnObj(), p, pg);
  }

  lemma BecomesInactive(pages: seq<Page>, active: seq<nat>, swp: seq<nat>, obj: seq<nat>, p: nat, pg: Page)
    requires AllListed(pages, active, swp, obj) && p < |pages|
    requires !pages[p].active && !pages[p].inactive && !pg.active && pg.inactive
    ensures SwapBacked(pg) ==> AllListed(pages[p := pg], active, swp + [p], obj)
    ensures !SwapBacked(pg) ==> AllListed(pages[p := pg], active, swp, obj + [p])
  {
    hide Lists;
    ListsSame(active, pages, OnActive(), p, pg);
    if SwapBacked(pg) {
      ListsAppend(swp, pages, OnSwp(), p, pg);
      ListsSame(obj, pages, OnObj(), p, pg);
    } else {
      ListsSame(swp, pages, OnSwp(), p, pg);
      ListsAppend(obj, pages, OnObj(), p, pg);
    }
  }

  lemma NotThere(q: seq<nat>, p: nat)
    ensures p !in q ==> Without(q, p) == q
  {
    if p !in q { WithoutAbsent(q, p); }
  }

  lemma {:induction false} NoneWired(pages: seq<Page>)
    requires forall p: nat :: p < |pages| ==> pages[p].wireCount == 0
    ensures WiredCount(pages) == 0
  {
    if pages != [] { NoneWired(pages[..|pages| - 1]); }
  }
}
