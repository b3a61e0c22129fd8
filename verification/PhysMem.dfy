/** The boot-time physical memory code of uvm_page.c over the vm_physmem array. */
module PhysMem {
  import opened PhysSegs
  import opened BootSizing

  datatype LoadOutcome = Loaded | Ignored | LoadPanic
  datatype StealOutcome = Got(frame: nat) | Nothing | OutOfMemory
  datatype InitOutcome = Ready | InitPanic

  /** Move entries lcv..n one place back, highest first. */
  method MoveBack(a: array<PhysSeg>, lcv: nat, n: nat)
    requires lcv <= n < a.Length
    modifies a
    ensures a[..lcv] == old(a[..lcv]) && a[lcv + 1..n + 1] == old(a[lcv..n])
  {
    var x := n;
    while x > lcv
      invariant lcv <= x <= n
      invariant forall i :: 0 <= i <= x ==> a[i] == old(a[i])
      invariant forall i :: x < i <= n ==> a[i] == old(a[i - 1])
    {
      a[x] := a[x - 1];
      x := x - 1;
    }
  }

  /** Move entries lcv+1..n+1 one place down, lowest first. */
  method MoveDown(a: array<PhysSeg>, lcv: nat, n: nat)
    requires lcv <= n < a.Length
    modifies a
    ensures a[..lcv] == old(a[..lcv]) && a[lcv..n] == old(a[lcv + 1..n + 1])
  {
    var x := lcv;
    while x < n
      invariant lcv <= x <= n
      invariant forall i :: 0 <= i < lcv || x <= i <= n ==> a[i] == old(a[i])
      invariant forall i :: lcv <= i < x ==> a[i] == old(a[i + 1])
    {
      a[x] := a[x + 1];
      x := x + 1;
    }
    ghost var was := old(a[..]);
    forall i | lcv <= i < n ensures a[..][i] == was[i + 1] {}
    assert a[lcv..n] == a[..][lcv..n] && old(a[lcv + 1..n + 1]) == was[lcv + 1..n + 1];
  }

  class PhysTable {
    const physmem: array<PhysSeg>     // vm_physmem[VM_PHYSSEG_MAX]
    var nseg: nat                     // vm_nphysmem

    ghost predicate Fits()
      reads this
    {
      nseg <= physmem.Length
    }

    ghost function T(): seq<PhysSeg>
      requires Fits()
      reads this, physmem
    {
      physmem[..nseg]
    }

    ghost predicate Valid()
      reads this, physmem
    {
      Fits() && Table(T())
    }

    // vm_physmem before anything is loaded
    constructor (max: nat)
      ensures Valid() && T() == [] && physmem.Length == max && fresh(physmem)
    {
      physmem := new PhysSeg[max](_ => PhysSeg(0, 0, 0, 0, 0, -1));
      nseg := 0;
    }

    /** Make room at lcv by moving the later entries back, then fill it in. */
    method InsertSeg(lcv: nat, g: PhysSeg)
      requires Fits() && nseg < physmem.Length && lcv <= nseg
      modifies this`nseg, physmem
      ensures Fits() && T() == Inserted(old(T()), g, lcv)
    {
      ghost var t := T();
      MoveBack(physmem, lcv, nseg);
      physmem[lcv] := g;
      nseg := nseg + 1;
      assert T() == physmem[..lcv] + [g] + physmem[lcv + 1..nseg];
    }

    /** uvm_page_physload with VM_PSTRAT_BSEARCH, before uvm_page_init. */
    method Physload(pageSize: nat, start: nat, end: nat, availStart: nat, availEnd: nat, freeList: int, nfreelist: nat)
      returns (r: LoadOutcome)
      requires Valid()
      modifies this`nseg, physmem
      ensures Fits()
      ensures var bad := pageSize == 0 || freeList >= nfreelist || freeList < 0 || start >= end;
              var late := exists i :: 0 <= i < |old(T())| && old(T())[i].pgs != -1;
              && (bad ==> r.LoadPanic?)
              && (!bad && old(nseg) == physmem.Length ==> r.Ignored?)
              && (!bad && old(nseg) < physmem.Length ==> r == if late then LoadPanic else Loaded)
      ensures !r.Loaded? ==> T() == old(T())
      ensures r.Loaded? ==> freeList >= 0
      ensures r.Loaded? ==> LoadedAs(old(T()), T(), PhysSeg(start, end, availStart, availEnd, freeList, -1))
      ensures r.Loaded? ==> (Valid() <==> Joins(old(T()), PhysSeg(start, end, availStart, availEnd, freeList, -1)))
    {
      hide Table, Joins;
      if pageSize == 0 { return LoadPanic; }
      if freeList >= nfreelist || freeList < 0 { return LoadPanic; }
      if start >= end { return LoadPanic; }
      if nseg == physmem.Length { return Ignored; }
      var lcv := 0;
      while lcv < nseg
        invariant lcv <= nseg && forall i :: 0 <= i < lcv ==> physmem[i].pgs == -1
      {
        if physmem[lcv].pgs != -1 {
          assert T()[lcv].pgs != -1;
          return LoadPanic;
        }
        lcv := lcv + 1;
      }
      lcv := 0;
      while lcv < nseg && !(start < physmem[lcv].start)
        invariant lcv <= nseg && forall i :: 0 <= i < lcv ==> physmem[i].start <= start
      {
        lcv := lcv + 1;
      }
      ghost var t := T();
      ghost var g := PhysSeg(start, end, availStart, availEnd, freeList, -1);
      InsertSeg(lcv, PhysSeg(start, end, availStart, availEnd, freeList, -1));
      assert InsertAt(t, start, lcv);
      LoadKeepsTableIff(t, g, lcv);
      r := Loaded;
    }

    /** Remove segment lcv. */
    method Nuke(lcv: nat)
      requires Fits() && lcv < nseg
      modifies this`nseg, physmem
      ensures Fits() && T() == old(T())[..lcv] + old(T())[lcv + 1..]
    {
      nseg := nseg - 1;
      MoveDown(physmem, lcv, nseg);
      assert T() == physmem[..lcv] + physmem[lcv..nseg];
    }

    /** Take one frame from segment lcv; "nothing left? nuke it" by moving the later entries down. */
    method StealAt(lcv: nat, how: How) returns (r: StealOutcome)
      requires Valid() && lcv < nseg && Possible(T()[lcv], how)
      modifies this`nseg, physmem
      ensures Fits()
      ensures r.Nothing? ==> false
      ensures r.OutOfMemory? <==> old(nseg) == 1 && Without(old(T()), lcv, how) == []
      ensures r.OutOfMemory? ==> AvailSize(old(T())) == 1
      ensures r.Got? ==> T() == Without(old(T()), lcv, how) && r.frame == FrameOf(old(T())[lcv], how)
      ensures r.Got? ==> var t := old(T()); var g := t[lcv];
        if how.Rear? then
          && r.frame == g.end - 1
          && T() == if g.end - 1 == g.start then t[..lcv] + t[lcv + 1..]
                    else t[lcv := PhysSeg(g.start, g.end - 1, g.availStart, g.availEnd - 1, g.freeList, g.pgs)]
        else
          && r.frame == g.availStart
          && T() == if g.availStart + 1 == g.end then t[..lcv] + t[lcv + 1..]
                    else t[lcv := PhysSeg(g.availStart + 1, g.end, g.availStart + 1, g.availEnd, g.freeList, g.pgs)]
    {
      hide Table, Sorted, AvailSize;
      ghost var t := T();
      SegmentOk(t, lcv);
      var seg := physmem[lcv];
      var frame;
      if how.Rear? {
        frame := seg.availEnd - 1;
        seg := seg.(availEnd := seg.availEnd - 1, end := seg.end - 1);
      } else {
        frame := seg.availStart;
        seg := seg.(availStart := seg.availStart + 1, start := seg.availStart + 1);
      }
      physmem[lcv] := seg;
      assert T() == t[lcv := seg];
      if seg.start == seg.end {
        if nseg == 1 {
          LastFrame(t, lcv, how);
          return OutOfMemory;
        }
        Nuke(lcv);
        assert t[lcv := seg][..lcv] == t[..lcv] && t[lcv := seg][lcv + 1..] == t[lcv + 1..];
      }
      r := Got(frame);
    }

    /** uvm_page_physget_freelist. */
    method PhysgetFreelist(freeList: nat) returns (r: StealOutcome)
      requires Valid()
      modifies this`nseg, physmem
      ensures Fits()
      ensures r.Nothing? ==> T() == old(T()) && forall f :: !Available(T(), f)
      ensures r.Got? ==> Taken(old(T()), T(), freeList, r.frame) && Stolen(old(T()), T(), r.frame) && Valid()
      ensures r.Got? ==> Spares(old(T()), T(), r.frame, freeList)
      ensures r.OutOfMemory? ==> AvailSize(old(T())) == 1 && exists f :: Available(old(T()), f)
    {
      ghost var t := T();
      var lcv := 0;
      while lcv < nseg
        invariant lcv <= nseg && T() == t && unchanged(this) && unchanged(physmem)
        invariant forall j :: 0 <= j < lcv && t[j].freeList == freeList ==> !Possible(t[j], Front) && !Possible(t[j], Rear)
      {
        if physmem[lcv].freeList == freeList {
          if physmem[lcv].availStart == physmem[lcv].start && physmem[lcv].availStart < physmem[lcv].availEnd {
            r := StealAt(lcv, Front);
            TakenFrom(t, freeList, lcv, Front);
            return;
          }
          if physmem[lcv].availEnd == physmem[lcv].end && physmem[lcv].availStart < physmem[lcv].availEnd {
            r := StealAt(lcv, Rear);
            TakenFrom(t, freeList, lcv, Rear);
            return;
          }
        }
        lcv := lcv + 1;
      }
      lcv := 0;
      while lcv < nseg
        invariant lcv <= nseg && T() == t && unchanged(this) && unchanged(physmem)
        invariant forall j :: 0 <= j < lcv ==> !Possible(t[j], Truncating)
      {
        if physmem[lcv].availStart < physmem[lcv].availEnd {
          r := StealAt(lcv, Truncating);
          TakenFrom(t, freeList, lcv, Truncating);
          return;
        }
        lcv := lcv + 1;
      }
      NothingPossible(t);
      r := Nothing;
    }

    /** uvm_page_physget: the free lists in order.  Since the second pass looks at every list, the first
        call already decides: nothing is returned exactly when nothing is available. */
    method Physget(nfreelist: nat) returns (r: StealOutcome)
      requires Valid() && nfreelist >= 1
      modifies this`nseg, physmem
      ensures Fits()
      ensures r.Nothing? <==> forall f :: !Available(old(T()), f)
      ensures r.Nothing? ==> T() == old(T())
      ensures r.Got? ==> Taken(old(T()), T(), 0, r.frame) && Stolen(old(T()), T(), r.frame) && Valid()
      ensures r.Got? ==> Spares(old(T()), T(), r.frame, 0)
      ensures r.Nothing? ==> AvailSize(old(T())) == 0
      ensures r.OutOfMemory? ==> AvailSize(old(T())) == 1
    {
      hide Table, Stolen, Taken, AvailSize, Spares;
      ghost var t := T();
      var i := 0;
      while i < nfreelist
        invariant i <= nfreelist && Fits() && T() == t && Valid() && unchanged(this)
        invariant i > 0 ==> forall f :: !Available(t, f)
      {
        r := PhysgetFreelist(i);
        if !r.Nothing? {
          SomethingTaken(t, r);
          return;
        }
        i := i + 1;
      }
      NoneAvailable(t);
      r := Nothing;
    }

    /** uvm_pageboot_alloc: steal one frame per page of the rounded size; None is its panic. */
    method PagebootAlloc(bytes: nat, pageSize: nat, nfreelist: nat) returns (outcome: InitOutcome, frames: seq<nat>)
      requires Valid() && pageSize > 0 && nfreelist >= 1
      modifies this`nseg, physmem
      ensures Fits()
      ensures outcome.Ready? ==> Valid() && |frames| == PagesFor(bytes, pageSize)
      ensures outcome.Ready? ==> StolenAll(old(T()), T(), frames)
      ensures AvailSize(old(T())) > PagesFor(bytes, pageSize) ==> outcome.Ready?
    {
      hide Table, Stolen, Taken, StolenAll, PagesFor, AvailSize, Spares;
      ghost var t := T();
      frames := [];
      ghost var ts := [T()];
      var left := PagesFor(bytes, pageSize);
      while left > 0
        invariant Fits() && Valid() && StealRun(ts, frames) && ts[0] == t && ts[|frames|] == T()
        invariant |frames| + left == PagesFor(bytes, pageSize)
      {
        RunCounts(ts, frames);
        var r := Physget(nfreelist);
        if !r.Got? { return InitPanic, frames; }
        RunExtends(ts, frames, T(), r.frame);
        frames := frames + [r.frame];
        ts := ts + [T()];
        left := left - 1;
      }
      RunIsStolenAll(ts, frames);
      outcome := Ready;
    }

    /** vm_physseg_find_bsearch. */
    method FindBsearch(pframe: nat) returns (psi: int, off: int)
      requires Valid()
      ensures Finds(T(), pframe, psi, off)
    {
      var start: nat, len: nat := 0, nseg;
      off := 0;
      while len != 0
        invariant start + len <= nseg
        invariant forall i :: 0 <= i < start ==> physmem[i].end <= pframe
        invariant forall i :: start + len <= i < nseg ==> pframe < physmem[i].start
        decreases len
      {
        var try := start + len / 2;
        if pframe >= physmem[try].start {
          if pframe < physmem[try].end {
            return try, pframe - physmem[try].start;
          }
          start := try + 1;
          len := len - 1;
          assert forall i :: 0 <= i <= try ==> T()[i].end <= T()[try].end;
        } else {
          assert forall i :: try <= i < nseg ==> T()[try].start <= T()[i].start;
        }
        len := len / 2;
      }
      psi := -1;
    }

    /** vm_physseg_find_linear. */
    method FindLinear(pframe: nat) returns (psi: int, off: int)
      requires Fits()
      ensures Finds(T(), pframe, psi, off)
      ensures forall i :: 0 <= i < psi ==> !In(T()[i], pframe)
    {
      var lcv := 0;
      off := 0;
      while lcv < nseg
        invariant lcv <= nseg && forall i :: 0 <= i < lcv ==> !In(physmem[i], pframe)
      {
        if pframe >= physmem[lcv].start && pframe < physmem[lcv].end {
          return lcv, pframe - physmem[lcv].start;
        }
        lcv := lcv + 1;
      }
      psi := -1;
    }

    /** uvm_page_init up to the point where the pages are free: size the array, steal the pages that hold it,
        lay out the segments.  `freed` lists the page structures passed to uvm_pagefree, in order. */
    method PageInit(pageSize: nat, structSize: nat, bucketBytes: nat, nfreelist: nat)
      returns (outcome: InitOutcome, phys: array<nat>, freed: seq<nat>, frames: seq<nat>, ghost t: seq<PhysSeg>)
      requires Valid() && 0 < structSize <= pageSize && nfreelist >= 1
      modifies this`nseg, physmem
      ensures Fits() && Size(old(T())) >= 0
      ensures old(nseg) == 0 ==> outcome.InitPanic?
      ensures AvailSize(old(T())) > PagesStolen(Size(old(T())), pageSize, structSize, bucketBytes) ==> outcome.Ready?
      ensures outcome.Ready? ==> Valid() && phys.Length == PageCount(Size(old(T())), pageSize, structSize)
      ensures outcome.Ready? ==> StolenAll(old(T()), t, frames)
      ensures outcome.Ready? ==> |frames| == PagesStolen(Size(old(T())), pageSize, structSize, bucketBytes)
      ensures outcome.Ready? ==> phys.Length == (Size(old(T())) + 1) * pageSize / (pageSize + structSize)
      ensures outcome.Ready? ==> |frames| == (bucketBytes + phys.Length * structSize + pageSize - 1) / pageSize
      ensures outcome.Ready? ==> Table(t) && Placed(t, T(), |t|) && Described(t, phys[..], |t|)
      ensures outcome.Ready? ==> FreedPages(t, |t|, phys[..], freed)
    {
      hide Table, Stolen, StolenAll, Placed, Described, Size, AvailSize, FreedPages;
      phys := new nat[0];
      freed, frames := [], [];
      ghost var t0 := T();
      t := t0;
      SizeMonotone(t0, 0, |t0|);
      assert t0[..|t0|] == t0;
      if nseg == 0 {
        NoPages(t0);
        return InitPanic, phys, freed, frames, t;
      }
      var freepages := CountPages();
      var pagecount := PageCount(freepages, pageSize, structSize);
      outcome, frames := PagebootAlloc(bucketBytes + pagecount * structSize, pageSize, nfreelist);
      if outcome.InitPanic? { return; }
      t := T();
      ArrayBigEnough(t0, t, frames, pageSize, structSize, bucketBytes);
      phys := new nat[pagecount];
      freed := Layout(phys);
      assert t[..|t|] == t;
    }

    /** uvm_phys_to_vm_page after uvm_page_init: the index of the page structure, or -1 (NULL). */
    method PhysToVmPage(f: nat, ghost t: seq<PhysSeg>, phys: array<nat>) returns (pg: int)
      requires Valid() && Table(t) && Placed(t, T(), |t|) && Described(t, phys[..], |t|) && Size(t) <= phys.Length
      ensures pg == -1 <==> !Managed(T(), f)
      ensures pg != -1 ==> 0 <= pg < phys.Length && phys[pg] == f
      ensures forall k :: 0 <= k < Size(t) && phys[k] == f ==> pg == k
    {
      hide Table, Placed, Described, Size, Managed;
      var psi, off := FindBsearch(f);
      forall k | 0 <= k < Size(t) && phys[k] == f ensures psi != -1 && T()[psi].pgs + off == k {
        assert phys[..][k] == f;
        StructureFound(t, T(), phys[..], k, psi, off);
      }
      if psi == -1 { return -1; }
      LookupInverts(t, T(), phys[..], f, psi, off);
      FoundIsManaged(T(), f, psi, off);
      pg := physmem[psi].pgs + off;
    }

    /** Fill in the page structures of one segment, freeing those in its available part. */
    method FillSegment(phys: array<nat>, seg: PhysSeg, base: nat, freed0: seq<nat>) returns (freed: seq<nat>)
      requires SegOk(seg) && base + (seg.end - seg.start) <= phys.Length
      modifies phys
      ensures phys[..base] == old(phys[..base])
      ensures forall x :: base <= x < base + (seg.end - seg.start) ==> phys[x] == seg.start + (x - base)
      ensures freed == freed0 + Range(base + seg.availStart - seg.start, seg.availEnd - seg.availStart)
    {
      var i, paddr := 0, seg.start;
      freed := freed0;
      var lo := seg.availStart - seg.start;
      while i < seg.end - seg.start
        invariant i <= seg.end - seg.start && paddr == seg.start + i
        invariant phys[..base] == old(phys[..base])
        invariant forall x :: base <= x < base + i ==> phys[x] == seg.start + (x - base)
        invariant freed == freed0 + Range(base + lo, AvailUpTo(seg, i))
      {
        phys[base + i] := paddr;
        RangeGrows(base + lo, AvailUpTo(seg, i));
        if paddr >= seg.availStart && paddr < seg.availEnd {
          freed := freed + [base + i];
        }
        i, paddr := i + 1, paddr + 1;
      }
    }

    /** Give each segment its slice of the page array.  The array is never overrun: OpenBSD's "lost page(s)"
        panic, taken when n > pagecount, cannot happen. */
    method Layout(phys: array<nat>) returns (freed: seq<nat>)
      requires Valid() && Size(T()) <= phys.Length
      modifies physmem, phys
      ensures Valid() && Placed(old(T()), T(), |old(T())|)
      ensures Described(old(T()), phys[..], |old(T())|) && FreedPages(old(T()), |old(T())|, phys[..], freed)
    {
      hide Table, Placed, Described, Size, AvailSize, FreedPages;
      ghost var t := T();
      var pagearray, pagecount: int := 0, phys.Length;
      freed := [];
      LayoutStarts(t, phys[..]);
      NoPages(t);
      var lcv := 0;
      while lcv < nseg
        invariant lcv <= nseg && Fits() && Placed(t, T(), lcv) && |t| == nseg
        invariant Described(t, phys[..], lcv) && FreedPages(t, lcv, phys[..], freed)
        invariant pagearray == Size(t[..lcv]) && pagecount == phys.Length - pagearray
      {
        PlacedTable(t, T(), lcv);
        SegmentOk(t, lcv);
        SizeMonotone(t, 0, lcv);
        SizeMonotone(t, lcv, nseg);
        assert t[..nseg] == t;
        var seg := physmem[lcv];
        assert seg == T()[lcv];
        var n := seg.end - seg.start;
        assert n <= pagecount;
        ghost var before := phys[..];
        freed := FillSegment(phys, seg, pagearray, freed);
        assert phys[..][..pagearray] == before[..pagearray];
        DescribedStep(t, lcv, before, phys[..], pagearray);
        FreedStep(t, lcv, before, phys[..], pagearray, freed[..|freed| - (seg.availEnd - seg.availStart)]);
        PlacedStep(t, T(), lcv);
        SizeStep(t, lcv);
        physmem[lcv] := seg.(pgs := pagearray);
        pagearray := pagearray + n;
        pagecount := pagecount - n;
        lcv := lcv + 1;
      }
      PlacedTable(t, T(), nseg);
    }

    /** The count of all pages in start/end. */
    method CountPages() returns (freepages: nat)
      requires Valid()
      ensures freepages == Size(T())
    {
      hide Table, Size;
      freepages := 0;
      SizeMonotone(T(), 0, 0);
      var lcv := 0;
      NoPages(T());
      while lcv < nseg
        invariant lcv <= nseg && freepages == Size(T()[..lcv])
      {
        SizeStep(T(), lcv);
        SegmentOk(T(), lcv);
        freepages := freepages + (physmem[lcv].end - physmem[lcv].start);
        lcv := lcv + 1;
      }
      assert T()[..nseg] == T();
    }
  }

  /** g went in at its place by start address. */
  ghost predicate LoadedAs(t: seq<PhysSeg>, u: seq<PhysSeg>, g: PhysSeg) {
    exists k: nat :: InsertAt(t, g.start, k) && u == Inserted(t, g, k)
  }

  /** The steal the source makes: the first choice for this free list. */
  ghost predicate Taken(t: seq<PhysSeg>, u: seq<PhysSeg>, fl: nat, f: nat) {
    exists i: nat, how :: FirstChoice(t, fl, i, how) && SegOk(t[i]) && u == Without(t, i, how) && f == FrameOf(t[i], how)
  }

  lemma TakenFrom(t: seq<PhysSeg>, fl: nat, i: nat, how: How)
    requires Table(t) && FirstChoice(t, fl, i, how)
    ensures SegOk(t[i]) && Taken(t, Without(t, i, how), fl, FrameOf(t[i], how))
    ensures Stolen(t, Without(t, i, how), FrameOf(t[i], how)) && Spares(t, Without(t, i, how), FrameOf(t[i], how), fl)
    ensures Available(t, FrameOf(t[i], how))
  {
    hide Size, AvailSize, Without, Managed, Spares;
    WithoutIsStolen(t, i, how);
    FirstChoiceSpares(t, fl, i, how);
  }

  /** What the steal costs: where some segment of the list begins or ends with an available page, the stolen frame alone ... */
  lemma TakenSpares(t: seq<PhysSeg>, u: seq<PhysSeg>, fl: nat, f: nat)
    requires Table(t) && Taken(t, u, fl, f)
    requires exists i :: 0 <= i < |t| && t[i].freeList == fl && t[i].availStart < t[i].availEnd
                       && (t[i].availStart == t[i].start || t[i].availEnd == t[i].end)
    ensures forall x :: Managed(u, x) <==> Managed(t, x) && x != f
  {
    hide Without, Managed, EndPages, Shrunk;
    var i: nat, how :| FirstChoice(t, fl, i, how) && SegOk(t[i]) && u == Without(t, i, how) && f == FrameOf(t[i], how);
    FirstChoiceSpares(t, fl, i, how);
    EndPagesIff(t, fl);
  }

  /** ... otherwise that frame and those before it in its segment. */
  lemma TakenTruncates(t: seq<PhysSeg>, u: seq<PhysSeg>, fl: nat, f: nat, x: nat)
    requires Table(t) && Taken(t, u, fl, f)
    requires !(exists i :: 0 <= i < |t| && t[i].freeList == fl && t[i].availStart < t[i].availEnd
                       && (t[i].availStart == t[i].start || t[i].availEnd == t[i].end))
    ensures Managed(u, x) <==> Managed(t, x) && !(exists i :: 0 <= i < |t| && t[i].start <= x <= f < t[i].end)
  {
    hide Without, Managed, EndPages, Shrunk;
    var i: nat, how :| FirstChoice(t, fl, i, how) && SegOk(t[i]) && u == Without(t, i, how) && f == FrameOf(t[i], how);
    EndPagesIff(t, fl);
    FirstChoiceTruncates(t, fl, i, how, x);
    if SameSegment(t, x, f) && x <= f {
      var j :| 0 <= j < |t| && In(t[j], x) && In(t[j], f);
    }
    if j :| 0 <= j < |t| && t[j].start <= x <= f < t[j].end {
      assert In(t[j], x) && In(t[j], f);
    }
  }

  lemma FoundIsManaged(t: seq<PhysSeg>, f: nat, psi: int, off: int)
    requires Finds(t, f, psi, off) && psi != -1
    ensures Managed(t, f)
  {}

  lemma NoPages(t: seq<PhysSeg>)
    ensures Size(t[..0]) == 0 && AvailSize(t[..0]) == 0
  {}

  lemma SomethingTaken(t: seq<PhysSeg>, r: StealOutcome)
    requires r.Got? ==> exists f :: Available(t, f)
    ensures r.Got? ==> !forall f :: !Available(t, f)
  {}

  /** All that a run of steals does, from first table to last. */
  ghost predicate StolenAll(t: seq<PhysSeg>, u: seq<PhysSeg>, fs: seq<nat>) {
    && (forall j, k :: 0 <= j < k < |fs| ==> fs[j] != fs[k])
    && (forall x :: x in fs ==> Available(t, x) && !Managed(u, x))
    && (forall x :: Available(u, x) <==> Available(t, x) && x !in fs)
    && (forall x :: Managed(u, x) ==> Managed(t, x))
    && (forall x: nat :: Managed(t, x) && !Managed(u, x) ==> x in fs || Behind(t, fs, x))
    && (|fs| <= EndPages(t, 0) ==> forall x :: Managed(u, x) <==> Managed(t, x) && x !in fs)
    && AvailSize(u) == AvailSize(t) - |fs|
    && Size(u) <= Size(t) - |fs|
  }

  lemma RunIsStolenAll(ts: seq<seq<PhysSeg>>, fs: seq<nat>)
    requires StealRun(ts, fs)
    ensures StolenAll(ts[0], ts[|fs|], fs)
  {
    hide Size, AvailSize, Available, Managed, Stolen, Spares, EndPages, Behind;
    RunConserves(ts, fs);
    RunLosses(ts, fs);
    if |fs| <= EndPages(ts[0], 0) { RunSpares(ts, fs); }
  }

  lemma RunCounts(ts: seq<seq<PhysSeg>>, fs: seq<nat>)
    requires StealRun(ts, fs)
    ensures AvailSize(ts[|fs|]) == AvailSize(ts[0]) - |fs|
  {
    hide Size, AvailSize, Available, Managed, Stolen;
    RunConserves(ts, fs);
  }

  lemma RunExtends(ts: seq<seq<PhysSeg>>, fs: seq<nat>, u: seq<PhysSeg>, f: nat)
    requires StealRun(ts, fs) && Stolen(ts[|fs|], u, f) && Spares(ts[|fs|], u, f, 0)
    ensures StealRun(ts + [u], fs + [f])
  {
    hide Stolen, Spares;
  }

  /** What is left after stealing needs no more page structures than were allocated. */
  lemma ArrayBigEnough(t: seq<PhysSeg>, u: seq<PhysSeg>, fs: seq<nat>, pageSize: nat, structSize: nat, bucketBytes: nat)
    requires 0 < structSize <= pageSize && Size(t) >= 0
    requires StolenAll(t, u, fs) && |fs| == PagesStolen(Size(t), pageSize, structSize, bucketBytes)
    ensures Size(u) <= PageCount(Size(t), pageSize, structSize)
  {
    hide Size, AvailSize, Available, Managed;
    FudgeFactorEnough(Size(t), pageSize, structSize, bucketBytes);
  }

  /** So OpenBSD's "lost page(s)" panic, whose array has no bucket headers beside it, is unreachable. */
  lemma NoPageLost(t: seq<PhysSeg>, u: seq<PhysSeg>, fs: seq<nat>, pageSize: nat, structSize: nat)
    requires 0 < structSize <= pageSize && Size(t) >= 0 && Table(u)
    requires StolenAll(t, u, fs) && |fs| == PagesStolen(Size(t), pageSize, structSize, 0)
    ensures forall i :: 0 <= i < |u| ==> !Lost(u, PageCount(Size(t), pageSize, structSize), i)
  {
    hide StolenAll, Table, Size, PagesStolen, PageCount, Lost;
    ArrayBigEnough(t, u, fs, pageSize, structSize, 0);
    LostPagesIff(u, PageCount(Size(t), pageSize, structSize));
  }

  /** The pages freed are the available pages of the first n segments, each once, in increasing order. */
  ghost predicate FreedPages(t: seq<PhysSeg>, n: nat, phys: seq<nat>, freed: seq<nat>) {
    && n <= |t|
    && |freed| == AvailSize(t[..n])
    && (forall j, k :: 0 <= j < k < |freed| ==> freed[j] < freed[k])
    && (forall x :: x in freed ==> x < |phys| && x < Size(t[..n]) && Available(t, phys[x]))
    && (forall i: nat, f: nat :: i < n && In(t[i], f) && InAvail(t[i], f) ==> PageIndex(t, i, f) in freed)
  }

  /** The indices base, base + 1, ..., base + n - 1. */
  function Range(base: nat, n: nat): (r: seq<nat>)
    ensures |r| == n && forall k :: 0 <= k < n ==> r[k] == base + k
  {
    seq(n, k requires 0 <= k < n => base + k)
  }

  lemma RangeGrows(base: nat, n: nat)
    ensures Range(base, n + 1) == Range(base, n) + [base + n]
  {}

  /** How many of the first i pages of a segment are available. */
  function AvailUpTo(g: PhysSeg, i: nat): nat
    requires SegOk(g)
  {
    if g.start + i <= g.availStart then 0
    else if g.start + i <= g.availEnd then g.start + i - g.availStart
    else g.availEnd - g.availStart
  }

  /** One more segment filled in. */
  lemma DescribedStep(t: seq<PhysSeg>, n: nat, a: seq<nat>, b: seq<nat>, base: nat)
    requires Table(t) && n < |t| && Described(t, a, n) && base == Size(t[..n])
    requires |b| == |a| && base + (t[n].end - t[n].start) <= |a| && b[..base] == a[..base]
    requires forall x :: base <= x < base + (t[n].end - t[n].start) ==> b[x] == t[n].start + (x - base)
    ensures Described(t, b, n + 1)
  {
    hide Table, Size;
    SizeStep(t, n);
    forall i: nat, f: nat | i < n + 1 && In(t[i], f)
      ensures 0 <= PageIndex(t, i, f) < |b| && b[PageIndex(t, i, f)] == f
    {
      SizeMonotone(t, i, n);
      if i < n { assert a[PageIndex(t, i, f)] == b[..base][PageIndex(t, i, f)]; }
    }
  }

  lemma FreedStep(t: seq<PhysSeg>, n: nat, a: seq<nat>, b: seq<nat>, base: nat, freed: seq<nat>)
    requires Table(t) && n < |t| && FreedPages(t, n, a, freed) && base == Size(t[..n])
    requires |b| == |a| && base + (t[n].end - t[n].start) <= |a| && b[..base] == a[..base]
    requires forall x :: base <= x < base + (t[n].end - t[n].start) ==> b[x] == t[n].start + (x - base)
    ensures SegOk(t[n])
    ensures FreedPages(t, n + 1, b, freed + Range(base + t[n].availStart - t[n].start, t[n].availEnd - t[n].availStart))
  {
    hide Table, Size, AvailSize;
    SizeStep(t, n);
    SegmentOk(t, n);
    var g := t[n];
    var r := Range(base + g.availStart - g.start, g.availEnd - g.availStart);
    forall j, k | 0 <= j < k < |freed + r| ensures (freed + r)[j] < (freed + r)[k] {
      if j < |freed| { assert freed[j] in freed; }
    }
    forall x | x in freed + r ensures x < |b| && x < Size(t[..n + 1]) && Available(t, b[x]) {
      if x in freed { assert b[x] == b[..base][x]; } else { assert InAvail(t[n], b[x]); }
    }
    forall i: nat, f: nat | i < n + 1 && In(t[i], f) && InAvail(t[i], f) ensures PageIndex(t, i, f) in freed + r {
      if i == n { assert r[f - g.availStart] == PageIndex(t, n, f); }
    }
  }

  lemma LayoutStarts(t: seq<PhysSeg>, a: seq<nat>)
    ensures Described(t, a, 0) && FreedPages(t, 0, a, []) && Placed(t, t, 0)
  {
    NoPages(t);
  }

  lemma PlacedStep(t: seq<PhysSeg>, u: seq<PhysSeg>, n: nat)
    requires Placed(t, u, n) && n < |t|
    ensures Placed(t, u[n := u[n].(pgs := Size(t[..n]))], n + 1)
  {
    hide Size;
  }

  lemma PlacedTable(t: seq<PhysSeg>, u: seq<PhysSeg>, n: nat)
    requires Placed(t, u, n)
    ensures Table(u) <==> Table(t)
    ensures n < |t| ==> u[n] == t[n]
  {
    hide Size, Table;
    SameSize(t, u);
  }
}
