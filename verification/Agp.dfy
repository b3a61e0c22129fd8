/** The AGP aperture manager (agp.c) over the i810 translation table. */
module Agp {
  import opened Gtt
  import opened AgpPages

  const ENOENT := 2
  const ENOMEM := 12
  const EBUSY := 16

  datatype AcquireState = Free | User | Kernel

  /** Which DMA resources a block holds. */
  datatype Dma = Dma(segs: bool, pages: bool, mapping: bool, loaded: bool)

  const NO_DMA := Dma(false, false, false, false)
  const ALL_DMA := Dma(true, true, true, true)

  /** How far one turn of the allocation loop gets: malloc, bus_dmamem_alloc, bus_dmamem_map, bus_dmamap_load. */
  datatype Attempt = NoSegs | NoPages | NoMapping | NoLoad | Works(segs: seq<Segment>)

  class Memory {
    const id: int
    const size: nat
    var offset: nat
    var isBound: bool
    var mapref: nat
    var dma: Dma
    ghost var span: Span          // the table entries the block holds

    constructor (id: int, size: nat, mapref: nat)
      ensures this.id == id && this.size == size && this.mapref == mapref
      ensures !isBound && offset == 0 && dma == NO_DMA && span == NO_SPAN
    {
      this.id, this.size, this.mapref := id, size, mapref;
      offset, isBound, dma, span := 0, false, NO_DMA, NO_SPAN;
    }
  }

  /** A block is bound inside the aperture with all its DMA resources, or holds nothing at all. */
  ghost predicate BlockOk(m: Memory, d: Device, apsize: nat)
    reads m
  {
    && m.size % AGP_PAGE_SIZE == 0
    && if m.isBound then
         && m.offset % AGP_PAGE_SIZE == 0 && m.offset + m.size <= apsize && m.dma == ALL_DMA
         && m.span.base == m.offset / AGP_PAGE_SIZE && |m.span.es| == m.size / AGP_PAGE_SIZE
         && forall i :: In(m.span, i) ==> InTable(d, i * AGP_PAGE_SIZE)
       else m.offset == 0 && m.dma == NO_DMA && m.span == NO_SPAN
  }

  function Total(ms: seq<Memory>): nat {
    if ms == [] then 0 else Total(ms[..|ms| - 1]) + ms[|ms| - 1].size
  }

  lemma {:induction false} TotalWithout(ms: seq<Memory>, i: nat)
    requires i < |ms|
    ensures Total(ms[..i] + ms[i + 1..]) == Total(ms) - ms[i].size
  {
    var r := ms[..i] + ms[i + 1..];
    if i == |ms| - 1 {
      assert r == ms[..|ms| - 1];
    } else {
      TotalWithout(ms[..|ms| - 1], i);
      assert r[..|r| - 1] == ms[..|ms| - 1][..i] + ms[..|ms| - 1][i + 1..];
    }
  }

  /** Which turn of the allocation loop decides: the first that works or has no memory for the segment array. */
  function Deciding(tries: seq<Attempt>): (t: nat)
    ensures t <= |tries| && (t < |tries| ==> tries[t].Works? || tries[t].NoSegs?)
    ensures forall k :: 0 <= k < t ==> !tries[k].Works? && !tries[k].NoSegs?
  {
    if tries == [] then 0
    else if tries[0].Works? || tries[0].NoSegs? then 0
    else 1 + Deciding(tries[1..])
  }

  lemma DecidingIs(tries: seq<Attempt>, t: nat)
    requires t <= |tries| && (t < |tries| ==> tries[t].Works? || tries[t].NoSegs?)
    requires forall k :: 0 <= k < t ==> !tries[k].Works? && !tries[k].NoSegs?
    ensures t == Deciding(tries)
  {
    hide Deciding;
  }

  /** The DMA part of agp_generic_bind_memory: up to four tries, with 8, 4, 2 and 1 contiguous pages a segment. */
  method AcquireDma(mem: Memory, tries: seq<Attempt>) returns (ok: bool, segs: seq<Segment>)
    requires |tries| == 4 && mem.dma == NO_DMA
    modifies mem`dma
    ensures var t := Deciding(tries);
            ok == (t < 4 && tries[t].Works?) && (ok ==> segs == tries[t].segs)
    ensures mem.dma == if ok then ALL_DMA else NO_DMA
  {
    hide Deciding;
    var contigpages := 8;
    segs := [];
    var k := 0;
    while contigpages > 0
      invariant 0 <= k <= 4 && mem.dma == NO_DMA && contigpages == [8, 4, 2, 1, 0][k]
      invariant forall j :: 0 <= j < k ==> !tries[j].Works? && !tries[j].NoSegs?
    {
      var attempt := tries[k];
      if !attempt.NoPages? && !attempt.NoMapping? && !attempt.NoLoad? { DecidingIs(tries, k); }
      if attempt.NoSegs? { return false, segs; }
      mem.dma := mem.dma.(segs := true);
      if attempt.NoPages? {
        mem.dma := mem.dma.(segs := false);
      } else {
        mem.dma := mem.dma.(pages := true);
        if attempt.NoMapping? {
          mem.dma := mem.dma.(pages := false);
          mem.dma := mem.dma.(segs := false);
        } else {
          mem.dma := mem.dma.(mapping := true);
          if attempt.NoLoad? {
            mem.dma := mem.dma.(mapping := false);
            mem.dma := mem.dma.(pages := false);
            mem.dma := mem.dma.(segs := false);
          } else {
            mem.dma := mem.dma.(loaded := true);
            return true, attempt.segs;
          }
        }
      }
      contigpages := contigpages / 2;
      k := k + 1;
    }
    DecidingIs(tries, k);
    ok := false;
  }

  /** bus_dmamap_unload, bus_dmamem_unmap, bus_dmamem_free, free. */
  method ReleaseDma(mem: Memory)
    requires mem.dma == ALL_DMA
    modifies mem`dma
    ensures mem.dma == NO_DMA
  {
    mem.dma := mem.dma.(loaded := false);
    mem.dma := mem.dma.(mapping := false);
    mem.dma := mem.dma.(pages := false);
    mem.dma := mem.dma.(segs := false);
  }

  // ------------------------------------------------------------------ the page loops

  /** f pages bound, nothing else changed. */
  ghost predicate Progress(gtt: seq<bv32>, gtt0: seq<bv32>, d: Device, base: nat, pages: seq<bv64>, f: nat) {
    && f <= |pages| && AllBindable(d, base, pages[..f]) && (f > 0 ==> base + f <= d.entries)
    && |gtt0| == d.entries && gtt == PutRun(gtt0, base, Entries(d, base, pages[..f]))
  }

  lemma ProgressStart(gtt: seq<bv32>, d: Device, base: nat, pages: seq<bv64>)
    requires |gtt| == d.entries
    ensures Progress(gtt, gtt, d, base, pages, 0)
  {
    hide InTable, Entry;
    assert PutRun(gtt, base, []) == gtt;
  }

  lemma ProgressStep(gtt: seq<bv32>, gtt0: seq<bv32>, d: Device, base: nat, pages: seq<bv64>, f: nat)
    requires Progress(gtt, gtt0, d, base, pages, f) && f < |pages| && Bindable(d, base + f, pages[f])
    ensures base + f < |gtt| && Progress(gtt[base + f := Entry(d, pages[f]).value], gtt0, d, base, pages, f + 1)
  {
    hide AllBindable, Entry, Entries;
    assert pages[..f + 1] == pages[..f] + [pages[f]];
    EntriesStep(d, base, pages[..f], pages[f]);
    PutRunStep(gtt0, base, Entries(d, base, pages[..f]), Entry(d, pages[f]).value);
  }

  /** Unbinding after f bound pages leaves f scribble entries. */
  lemma ProgressUndone(gtt: seq<bv32>, gtt0: seq<bv32>, d: Device, base: nat, pages: seq<bv64>, f: nat)
    requires GoodDevice(d) && Progress(gtt, gtt0, d, base, pages, f)
    ensures PutRun(gtt, base, Scribbles(d, f)) == PutRun(gtt0, base, Scribbles(d, f))
  {
    hide AllBindable, Entry, GoodDevice;
    PutRunTwice(gtt0, base, Entries(d, base, pages[..f]), Scribbles(d, f));
  }

  lemma ProgressInTable(gtt: seq<bv32>, gtt0: seq<bv32>, d: Device, base: nat, pages: seq<bv64>, f: nat)
    requires Progress(gtt, gtt0, d, base, pages, f)
    ensures forall i :: base <= i < base + f ==> InTable(d, i * AGP_PAGE_SIZE)
  {
    hide InTable, Entry, Entries, PutRun;
    forall i | base <= i < base + f ensures InTable(d, i * AGP_PAGE_SIZE) {
      assert Bindable(d, base + (i - base), pages[..f][i - base]);
    }
  }

  /** The unbind loop shared by the rollback and by agp_generic_unbind_memory. */
  method UnbindPages(table: Table, offset: nat, size: nat)
    requires table.Valid() && size % AGP_PAGE_SIZE == offset % AGP_PAGE_SIZE == 0
    requires forall i :: offset / AGP_PAGE_SIZE <= i < offset / AGP_PAGE_SIZE + size / AGP_PAGE_SIZE ==> InTable(table.d, i * AGP_PAGE_SIZE)
    modifies table
    ensures table.Valid() && table.gtt == PutRun(old(table.gtt), offset / AGP_PAGE_SIZE, Scribbles(table.d, size / AGP_PAGE_SIZE))
  {
    hide GoodDevice, Scribble;
    ghost var gtt0, base := table.gtt, offset / AGP_PAGE_SIZE;
    assert PutRun(gtt0, base, Scribbles(table.d, 0)) == gtt0;
    var k := 0;
    while k < size
      invariant k % AGP_PAGE_SIZE == 0 && k <= size && table.Valid()
      invariant table.gtt == PutRun(gtt0, base, Scribbles(table.d, k / AGP_PAGE_SIZE))
    {
      assert InTable(table.d, (base + k / AGP_PAGE_SIZE) * AGP_PAGE_SIZE);
      ScribbleStep(table.d, gtt0, base, k / AGP_PAGE_SIZE);
      var error := table.UnbindPage(offset + k);
      k := k + AGP_PAGE_SIZE;
    }
  }

  lemma ScribbleStep(d: Device, gtt: seq<bv32>, base: nat, n: nat)
    requires GoodDevice(d) && base + n < |gtt|
    ensures PutRun(gtt, base, Scribbles(d, n))[base + n := Scribble(d)] == PutRun(gtt, base, Scribbles(d, n + 1))
  {
    hide GoodDevice, Scribble;
    assert Scribbles(d, n + 1) == Scribbles(d, n) + [Scribble(d)];
    PutRunStep(gtt, base, Scribbles(d, n), Scribble(d));
  }

  function Least(a: nat, b: nat): nat {
    if a <= b then a else b
  }

  lemma SuppliesFacts(segs: seq<Segment>, size: nat)
    requires Supplies(segs, size)
    ensures forall i :: 0 <= i < |segs| ==> segs[i].len % AGP_PAGE_SIZE == 0
    ensures |PageList(segs)| >= size / AGP_PAGE_SIZE
  {}

  lemma BindableIs(d: Device, i: nat, pa: bv64)
    ensures Bindable(d, i, pa) <==> InTable(d, i * AGP_PAGE_SIZE) && Entry(d, pa).Some?
  {}

  lemma ProgressFacts(gtt: seq<bv32>, gtt0: seq<bv32>, d: Device, base: nat, pages: seq<bv64>, f: nat)
    requires Progress(gtt, gtt0, d, base, pages, f)
    ensures f <= |pages| && AllBindable(d, base, pages[..f]) && (f > 0 ==> base + f <= d.entries)
    ensures gtt == PutRun(gtt0, base, Entries(d, base, pages[..f]))
  {}

  /** What a page that cannot be bound leaves: f pages were bound, and f entries are scribble. */
  ghost predicate RolledBack(gtt: seq<bv32>, gtt0: seq<bv32>, d: Device, base: nat, pages: seq<bv64>, f: nat) {
    && GoodDevice(d) && f < |pages| && AllBindable(d, base, pages[..f]) && (f > 0 ==> base + f <= d.entries)
    && !Bindable(d, base + f, pages[f]) && gtt == PutRun(gtt0, base, Scribbles(d, f))
  }

  /** The inner loop: the pages of one segment, up to the size of the block, and the rollback of everything. */
  method BindSegment(table: Table, size: nat, seg: Segment, offset: nat, done: nat, ghost gtt0: seq<bv32>,
                     ghost base: nat, ghost pages: seq<bv64>, ghost p: nat) returns (error: int, ghost f: nat)
    requires table.Valid() && size % AGP_PAGE_SIZE == 0 && offset == AGP_PAGE_SIZE * base && done == AGP_PAGE_SIZE * p
    requires size <= AGP_PAGE_SIZE * |pages| && seg.len % AGP_PAGE_SIZE == 0
    requires Within(pages, p, seg)
    requires Progress(table.gtt, gtt0, table.d, base, pages, Least(p, size / AGP_PAGE_SIZE))
    modifies table
    ensures table.Valid()
    ensures error == 0 ==> f == Least(p + seg.len / AGP_PAGE_SIZE, size / AGP_PAGE_SIZE) && Progress(table.gtt, gtt0, table.d, base, pages, f)
    ensures error != 0 ==> error == EINVAL && f < size / AGP_PAGE_SIZE && RolledBack(table.gtt, gtt0, table.d, base, pages, f)
  {
    hide PageAfter, Entry, Entries, InTable, GoodDevice, Scribbles, AllBindable, PutRun, Progress, Bindable, Within;
    f, error := Least(p, size / AGP_PAGE_SIZE), 0;
    var j, pa := 0, seg.addr;
    ghost var q := 0;
    while j < seg.len && done + j < size
      invariant j == AGP_PAGE_SIZE * q && 0 <= q && j <= seg.len && table.Valid()
      invariant f == Least(p + q, size / AGP_PAGE_SIZE) && Progress(table.gtt, gtt0, table.d, base, pages, f)
      invariant q == 0 ==> pa == seg.addr
      invariant 0 < q <= |pages| - p ==> pa == PageAfter(pages[p + q - 1])
    {
      WithinAt(pages, p, seg, q);
      BindableIs(table.d, base + f, pages[f]);
      ghost var before := table.gtt;
      error := table.BindPage(offset + done + j, pa, false);
      if error != 0 {
        ProgressFacts(table.gtt, gtt0, table.d, base, pages, f);
        ProgressUndone(table.gtt, gtt0, table.d, base, pages, f);
        ProgressInTable(table.gtt, gtt0, table.d, base, pages, f);
        UnbindPages(table, offset, done + j);
        return;
      }
      ProgressStep(before, gtt0, table.d, base, pages, f);
      j, pa, q, f := j + AGP_PAGE_SIZE, PageAfter(pa), q + 1, f + 1;
    }
  }

  /** The page loops of agp_generic_bind_memory, rollback included. With P the pages of the concatenated segments and
      f the number of pages bound before the first that fails: all of them, and the run of entries is P's; or the
      first f entries are scribble. Nothing outside the run changes either way. */
  method BindPages(table: Table, size: nat, segs: seq<Segment>, offset: nat) returns (error: int, ghost f: nat)
    requires table.Valid() && size % AGP_PAGE_SIZE == offset % AGP_PAGE_SIZE == 0 && Supplies(segs, size)
    modifies table
    ensures table.Valid() && f <= size / AGP_PAGE_SIZE <= |PageList(segs)|
    ensures var pages, base, d := PageList(segs), offset / AGP_PAGE_SIZE, table.d;
      && AllBindable(d, base, pages[..f]) && (f > 0 ==> base + f <= d.entries)
      && if f == size / AGP_PAGE_SIZE
         then error == 0 && table.gtt == PutRun(old(table.gtt), base, Entries(d, base, pages[..f]))
         else error == EINVAL && !Bindable(d, base + f, pages[f]) && table.gtt == PutRun(old(table.gtt), base, Scribbles(d, f))
  {
    hide PageAfter, Entry, Entries, InTable, GoodDevice, Scribbles, PageList, AllBindable, PutRun, Progress, Bindable, Supplies, SegPages, Within;
    SuppliesFacts(segs, size);
    ghost var pages, base, gtt0 := PageList(segs), offset / AGP_PAGE_SIZE, table.gtt;
    var done, i := 0, 0;
    f, error := 0, 0;
    ProgressStart(gtt0, table.d, base, pages);
    assert segs[..0] == [];
    NoPageList();
    while i < |segs|
      invariant i <= |segs| && table.Valid() && done == AGP_PAGE_SIZE * |PageList(segs[..i])|
      invariant f == Least(|PageList(segs[..i])|, size / AGP_PAGE_SIZE) && Progress(table.gtt, gtt0, table.d, base, pages, f)
    {
      PageListStep(segs, i);
      PagesOfSegment(segs, i);
      error, f := BindSegment(table, size, segs[i], offset, done, gtt0, base, pages, |PageList(segs[..i])|);
      if error != 0 { return; }
      done := done + segs[i].len;
      i := i + 1;
    }
    assert segs[..i] == segs;
    ProgressFacts(table.gtt, gtt0, table.d, base, pages, f);
  }

  lemma NoPageList()
    ensures PageList([]) == []
  {}
}
