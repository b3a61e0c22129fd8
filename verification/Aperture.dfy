/** The AGP aperture (agp.c): blocks of memory, their binding, and what every run of operations keeps. */
module Aperture {
  import opened Gtt
  import opened AgpPages
  import opened Agp

  /** Ids ascend along the list and are all below the next one, so they are distinct. */
  ghost predicate Ascending(ms: seq<Memory>, nextid: int) {
    && (forall i, j :: 0 <= i < j < |ms| ==> ms[i].id < ms[j].id)
    && (forall i :: 0 <= i < |ms| ==> ms[i].id < nextid)
  }

  ghost predicate BlocksOk(ms: seq<Memory>, d: Device, apsize: nat)
    reads ms
  {
    forall i :: 0 <= i < |ms| ==> BlockOk(ms[i], d, apsize)
  }

  ghost function SpansOf(ms: seq<Memory>): (r: seq<Span>)
    reads ms
    ensures |r| == |ms| && forall i :: 0 <= i < |ms| ==> r[i] == ms[i].span
  {
    seq(|ms|, i requires 0 <= i < |ms| reads ms => ms[i].span)
  }

  lemma IndexUnique(ms: seq<Memory>, nextid: int, i: nat, j: nat)
    requires Ascending(ms, nextid) && i < |ms| && j < |ms| && (ms[i] == ms[j] || ms[i].id == ms[j].id)
    ensures i == j
  {}

  lemma IndexOf(ms: seq<Memory>, nextid: int, mem: Memory) returns (i: nat)
    requires Ascending(ms, nextid) && mem in ms
    ensures i < |ms| && ms[i] == mem && forall j :: 0 <= j < |ms| && j != i ==> ms[j] != mem
  {
    i :| 0 <= i < |ms| && ms[i] == mem;
    forall j | 0 <= j < |ms| && ms[j] == mem ensures j == i {
      IndexUnique(ms, nextid, i, j);
    }
  }

  /** The table is what the bound blocks say, and they do not overlap. */
  ghost predicate Tidy(gtt: seq<bv32>, spans: seq<Span>, d: Device, apsize: nat)
    requires GoodDevice(d)
  {
    Matches(gtt, spans, First(d), Top(apsize), Scribble(d)) && Apart(spans)
  }

  lemma Appended(ms: seq<Memory>, nextid: int, m: Memory, d: Device, apsize: nat, gtt: seq<bv32>)
    requires GoodDevice(d) && Ascending(ms, nextid) && BlocksOk(ms, d, apsize) && m.id == nextid && BlockOk(m, d, apsize) && m.span == NO_SPAN
    ensures Ascending(ms + [m], nextid + 1) && BlocksOk(ms + [m], d, apsize) && Total(ms + [m]) == Total(ms) + m.size
    ensures Tidy(gtt, SpansOf(ms), d, apsize) ==> Tidy(gtt, SpansOf(ms + [m]), d, apsize)
  {
    hide BlockOk, Matches, Apart, GoodDevice, Scribble;
    assert (ms + [m])[..|ms|] == ms;
    assert SpansOf(ms + [m]) == SpansOf(ms) + [NO_SPAN];
    if Tidy(gtt, SpansOf(ms), d, apsize) {
      AppendKeeps(gtt, SpansOf(ms), First(d), Top(apsize), Scribble(d));
    }
  }

  lemma Removed(ms: seq<Memory>, nextid: int, i: nat, d: Device, apsize: nat, gtt: seq<bv32>)
    requires GoodDevice(d) && Ascending(ms, nextid) && BlocksOk(ms, d, apsize) && i < |ms| && !ms[i].isBound
    ensures var r := ms[..i] + ms[i + 1..];
            Without(ms, ms[i]) == r && Ascending(r, nextid) && BlocksOk(r, d, apsize) && Total(r) == Total(ms) - ms[i].size
            && (Tidy(gtt, SpansOf(ms), d, apsize) ==> Tidy(gtt, SpansOf(r), d, apsize))
  {
    hide Tidy, GoodDevice, Ascending, BlocksOk, Total, SpansOf, Without;
    TotalWithout(ms, i);
    RemovedInOrder(ms, nextid, i);
    RemovedOk(ms, i, d, apsize);
    if Tidy(gtt, SpansOf(ms), d, apsize) {
      RemovedTidy(ms, i, d, apsize, gtt);
    }
  }

  lemma RemovedInOrder(ms: seq<Memory>, nextid: int, i: nat)
    requires Ascending(ms, nextid) && i < |ms|
    ensures Without(ms, ms[i]) == ms[..i] + ms[i + 1..] && Ascending(ms[..i] + ms[i + 1..], nextid)
  {
    hide Without, Ascending;
    forall j | 0 <= j < |ms| && ms[j] == ms[i] ensures j == i {
      IndexUnique(ms, nextid, i, j);
    }
    WithoutAt(ms, ms[i], i);
    StillAscending(ms, nextid, i);
  }

  lemma StillAscending(ms: seq<Memory>, nextid: int, i: nat)
    requires Ascending(ms, nextid) && i < |ms|
    ensures Ascending(ms[..i] + ms[i + 1..], nextid)
  {
    var r := ms[..i] + ms[i + 1..];
    forall a, b | 0 <= a < b < |r| ensures r[a].id < r[b].id {
      assert r[a] == ms[if a < i then a else a + 1] && r[b] == ms[if b < i then b else b + 1];
    }
  }

  lemma RemovedOk(ms: seq<Memory>, i: nat, d: Device, apsize: nat)
    requires BlocksOk(ms, d, apsize) && i < |ms| && !ms[i].isBound
    ensures BlocksOk(ms[..i] + ms[i + 1..], d, apsize) && ms[i].span == NO_SPAN
  {
    assert BlockOk(ms[i], d, apsize);
  }

  lemma RemovedTidy(ms: seq<Memory>, i: nat, d: Device, apsize: nat, gtt: seq<bv32>)
    requires GoodDevice(d) && i < |ms| && ms[i].span == NO_SPAN && Tidy(gtt, SpansOf(ms), d, apsize)
    ensures Tidy(gtt, SpansOf(ms[..i] + ms[i + 1..]), d, apsize)
  {
    hide Matches, Apart, GoodDevice, Scribble;
    assert SpansOf(ms[..i] + ms[i + 1..]) == SpansOf(ms)[..i] + SpansOf(ms)[i + 1..];
    RemoveKeeps(gtt, SpansOf(ms), First(d), Top(apsize), Scribble(d), i);
  }

  /** The pages from stolen memory upwards are all an operation may write; no entry below has changed. */
  predicate StolenKept(d: Device, gtt: seq<bv32>, gtt0: seq<bv32>) {
    |gtt| == |gtt0| && (d.chip.I810? || forall i :: 0 <= i < d.stolen && i < |gtt| ==> gtt[i] == gtt0[i])
  }

  lemma StolenMeans(d: Device, gtt: seq<bv32>, gtt0: seq<bv32>)
    requires StolenKept(d, gtt, gtt0)
    ensures |gtt| == |gtt0| && (!d.chip.I810? ==> forall i :: 0 <= i < d.stolen && i < |gtt| ==> gtt[i] == gtt0[i])
  {}

  lemma RunKeepsStolen(d: Device, gtt: seq<bv32>, base: nat, es: seq<bv32>)
    requires forall i :: base <= i < base + |es| ==> InTable(d, i * AGP_PAGE_SIZE)
    ensures StolenKept(d, PutRun(gtt, base, es), gtt)
    ensures !d.chip.I810? ==> forall i :: 0 <= i < d.stolen && i < |gtt| ==> PutRun(gtt, base, es)[i] == gtt[i]
  {
    forall i | 0 <= i < d.stolen && i < |gtt| ensures !d.chip.I810? ==> PutRun(gtt, base, es)[i] == gtt[i] {
      assert base <= i < base + |es| ==> InTable(d, i * AGP_PAGE_SIZE);
    }
  }

  lemma BoundInTable(d: Device, base: nat, pages: seq<bv64>)
    requires AllBindable(d, base, pages)
    ensures forall i :: base <= i < base + |pages| ==> InTable(d, i * AGP_PAGE_SIZE)
  {
    forall i | base <= i < base + |pages| ensures InTable(d, i * AGP_PAGE_SIZE) {
      assert Bindable(d, base + (i - base), pages[i - base]);
    }
  }

  /** Unbinding what was just bound restores the table iff the range was scribble before. */
  lemma UnbindRestoresIff(d: Device, gtt: seq<bv32>, base: nat, es: seq<bv32>)
    requires GoodDevice(d) && base + |es| <= |gtt|
    ensures PutRun(PutRun(gtt, base, es), base, Scribbles(d, |es|)) == gtt
       <==> forall i :: base <= i < base + |es| ==> gtt[i] == Scribble(d)
  {
    PutRunTwice(gtt, base, es, Scribbles(d, |es|));
    RollbackRestoresIff(d, gtt, base, |es|);
  }

  /** The offset tests of agp_generic_bind_memory. */
  predicate GoodOffset(offset: int, size: nat, apsize: nat) {
    0 <= offset && offset % AGP_PAGE_SIZE == 0 && offset + size <= apsize
  }

  /** What binding does to the table, by the number f of pages bound before one fails (f = n: all). */
  ghost predicate BindResult(d: Device, gtt0: seq<bv32>, gtt: seq<bv32>, base: nat, n: nat, pages: seq<bv64>, f: nat, error: int)
    requires GoodDevice(d)
  {
    && f <= n <= |pages| && |gtt0| == d.entries && AllBindable(d, base, pages[..f]) && (f > 0 ==> base + f <= d.entries)
    && if f == n then error == 0 && gtt == PutRun(gtt0, base, Entries(d, base, pages[..f]))
       else error == EINVAL && !Bindable(d, base + f, pages[f]) && gtt == PutRun(gtt0, base, Scribbles(d, f))
  }

  lemma BindResultStolen(d: Device, gtt0: seq<bv32>, gtt: seq<bv32>, base: nat, n: nat, pages: seq<bv64>, f: nat, error: int)
    requires GoodDevice(d) && BindResult(d, gtt0, gtt, base, n, pages, f, error)
    ensures StolenKept(d, gtt, gtt0) && forall i :: base <= i < base + f ==> InTable(d, i * AGP_PAGE_SIZE)
  {
    hide GoodDevice, InTable, AllBindable, Entries, PutRun, StolenKept, Scribbles;
    BoundInTable(d, base, pages[..f]);
    if f == n {
      RunKeepsStolen(d, gtt0, base, Entries(d, base, pages[..f]));
    } else {
      RunKeepsStolen(d, gtt0, base, Scribbles(d, f));
    }
  }

  lemma BindResultIs(d: Device, gtt0: seq<bv32>, gtt: seq<bv32>, base: nat, n: nat, pages: seq<bv64>, f: nat, error: int)
    requires GoodDevice(d) && f <= n <= |pages| && |gtt0| == d.entries && AllBindable(d, base, pages[..f]) && (f > 0 ==> base + f <= d.entries)
    requires if f == n then error == 0 && gtt == PutRun(gtt0, base, Entries(d, base, pages[..f]))
             else error == EINVAL && !Bindable(d, base + f, pages[f]) && gtt == PutRun(gtt0, base, Scribbles(d, f))
    ensures BindResult(d, gtt0, gtt, base, n, pages, f, error) && (f == n <==> error == 0)
  {}

  lemma SameStolen(d: Device, gtt: seq<bv32>)
    ensures StolenKept(d, gtt, gtt)
  {}

  /** All blocks but number i are in order, and hold these spans. */
  ghost predicate OthersOk(ms: seq<Memory>, i: nat, d: Device, apsize: nat, spans: seq<Span>)
    reads set j | 0 <= j < |ms| && j != i :: ms[j]
  {
    |spans| == |ms| && forall j :: 0 <= j < |ms| && j != i ==> BlockOk(ms[j], d, apsize) && ms[j].span == spans[j]
  }

  lemma TakeApart(ms: seq<Memory>, i: nat, d: Device, apsize: nat)
    requires BlocksOk(ms, d, apsize) && i < |ms|
    ensures BlockOk(ms[i], d, apsize) && OthersOk(ms, i, d, apsize, SpansOf(ms)) && SpansOf(ms)[i] == ms[i].span
  {
    hide BlockOk;
  }

  lemma PutTogether(ms: seq<Memory>, i: nat, d: Device, apsize: nat, spans: seq<Span>)
    requires i < |ms| && BlockOk(ms[i], d, apsize) && OthersOk(ms, i, d, apsize, spans)
    ensures BlocksOk(ms, d, apsize) && SpansOf(ms) == spans[i := ms[i].span]
  {
    hide BlockOk;
  }

  /** A failed bind over a range of scribble entries is a no-op. */
  lemma BindResultNoOp(d: Device, gtt0: seq<bv32>, gtt: seq<bv32>, base: nat, n: nat, pages: seq<bv64>, f: nat, error: int)
    requires GoodDevice(d) && BindResult(d, gtt0, gtt, base, n, pages, f, error) && error != 0
    requires forall i :: base <= i < base + n && i < |gtt0| ==> gtt0[i] == Scribble(d)
    ensures gtt == gtt0
  {
    hide GoodDevice, Scribble, AllBindable;
    assert PutRun(gtt0, base, []) == gtt0;
    if f > 0 { RollbackRestoresIff(d, gtt0, base, f); }
  }

  lemma EntryAt(d: Device, gtt0: seq<bv32>, base: nat, pages: seq<bv64>, k: nat)
    requires AllBindable(d, base, pages) && k < |pages| && base + k < |gtt0|
    ensures Entry(d, pages[k]).Some?
    ensures PutRun(gtt0, base, Entries(d, base, pages))[base + k] == Entry(d, pages[k]).value
  {
    hide Entry, InTable;
    assert Bindable(d, base + k, pages[k]);
  }

  lemma BoundEntryIs(d: Device, gtt0: seq<bv32>, gtt: seq<bv32>, base: nat, n: nat, pages: seq<bv64>, f: nat, error: int, k: nat)
    requires GoodDevice(d) && BindResult(d, gtt0, gtt, base, n, pages, f, error) && error == 0 && k < n
    ensures base + k < |gtt| && Entry(d, pages[k]) == Some(gtt[base + k])
  {
    hide GoodDevice, Entry, AllBindable, Bindable;
    EntryAt(d, gtt0, base, pages[..f], k);
  }

  lemma EntryReads(d: Device, p: bv64, pte: bv32)
    requires p & 0xfff == 0 && (!d.wide ==> p < 0x1_0000_0000) && Entry(d, p) == Some(pte)
    ensures Decode(d.chip, d.wide, pte) == p + 1
  {
    hide Entry, Decode;
    PageReads(d, p);
  }

  /** After a successful bind the graphics chip finds the bus address of the block's k-th page, with its valid bit,
      in the k-th entry from the block's offset on ... */
  lemma BoundPageDecodes(d: Device, gtt0: seq<bv32>, gtt: seq<bv32>, base: nat, n: nat, pages: seq<bv64>, f: nat, error: int, k: nat, p: bv64)
    requires GoodDevice(d) && BindResult(d, gtt0, gtt, base, n, pages, f, error) && error == 0 && k < n && pages[k] == p
    requires p & 0xfff == 0 && (!d.wide ==> p < 0x1_0000_0000)
    ensures base + k < |gtt| && Decode(d.chip, d.wide, gtt[base + k]) == p + 1
  {
    hide GoodDevice, Decode, Entry, BindResult;
    BoundEntryIs(d, gtt0, gtt, base, n, pages, f, error, k);
    EntryReads(d, p, gtt[base + k]);
  }

  /** ... and the entries outside the block are as they were. */
  lemma BoundElsewhere(d: Device, gtt0: seq<bv32>, gtt: seq<bv32>, base: nat, n: nat, pages: seq<bv64>, f: nat, error: int)
    requires GoodDevice(d) && BindResult(d, gtt0, gtt, base, n, pages, f, error)
    ensures |gtt| == |gtt0| && forall i :: 0 <= i < |gtt| && !(base <= i < base + n) ==> gtt[i] == gtt0[i]
  {
    hide GoodDevice, Entry, AllBindable, Bindable;
  }

  /** A page can be bound iff its entry is in the table, not in stolen memory, and its address in the chip's reach. */
  lemma BindableIff(d: Device, i: nat, p: bv64)
    requires p & 0xfff == 0
    ensures Bindable(d, i, p) <==>
      && i < d.entries && (d.chip.I810? || d.stolen <= i)
      && (d.wide ==> if d.chip.SNB? then p < 0x100_0000_0000
                     else if d.chip.I965? || d.chip.G33? || d.chip.G4X? then p < 0x10_0000_0000
                     else p < 0x1_0000_0000)
  {
    hide Entry;
    PageFits(d, p);
  }

  lemma BindResultTidy(d: Device, gtt0: seq<bv32>, gtt: seq<bv32>, base: nat, n: nat, pages: seq<bv64>, f: nat, error: int,
                       spans: seq<Span>, apsize: nat, m: nat)
    requires GoodDevice(d) && BindResult(d, gtt0, gtt, base, n, pages, f, error)
    requires Tidy(gtt0, spans, d, apsize) && Clear(spans, base, n) && m < |spans| && spans[m] == NO_SPAN
    ensures error == 0 ==> Tidy(gtt, spans[m := Span(base, Entries(d, base, pages[..f]))], d, apsize)
    ensures error != 0 ==> Tidy(gtt, spans, d, apsize)
  {
    hide GoodDevice, Scribble, AllBindable, Matches, Apart, PutRun, First, Top;
    if error == 0 {
      BindKeeps(gtt0, spans, First(d), Top(apsize), Scribble(d), m, Span(base, Entries(d, base, pages[..f])));
    } else {
      RollbackKeeps(gtt0, spans, First(d), Top(apsize), d, base, f);
    }
  }

  lemma OnlyFirst(ms: seq<Memory>, off: int, mem: Memory)
    requires exists i :: 0 <= i < |ms| && ms[i] == mem && forall j :: 0 <= j < i ==> !At(ms[j], off)
    requires At(mem, off)
    ensures forall i :: 0 <= i < |ms| && At(ms[i], off) && (forall j :: 0 <= j < i ==> !At(ms[j], off)) ==> ms[i] == mem
  {
    var k :| 0 <= k < |ms| && ms[k] == mem && forall j :: 0 <= j < k ==> !At(ms[j], off);
    forall i | 0 <= i < |ms| && At(ms[i], off) && (forall j :: 0 <= j < i ==> !At(ms[j], off)) ensures i == k {
      assert i <= k && k <= i;
    }
  }

  lemma CoversWithin(ms: seq<Memory>, d: Device, apsize: nat, off: int)
    requires BlocksOk(ms, d, apsize)
    ensures (exists m :: m in ms && At(m, off)) ==> off < apsize
  {}

  lemma SpanInTable(m: Memory, d: Device, apsize: nat)
    requires BlockOk(m, d, apsize) && m.isBound
    ensures m.span.base == m.offset / AGP_PAGE_SIZE && |m.span.es| == m.size / AGP_PAGE_SIZE
    ensures forall i :: m.span.base <= i < m.span.base + |m.span.es| ==> InTable(d, i * AGP_PAGE_SIZE)
  {
    hide InTable;
    forall i | m.span.base <= i < m.span.base + |m.span.es| ensures InTable(d, i * AGP_PAGE_SIZE) {
      assert In(m.span, i);
    }
  }

  lemma UnbindTidy(gtt: seq<bv32>, spans: seq<Span>, d: Device, apsize: nat, m: nat)
    requires GoodDevice(d) && Tidy(gtt, spans, d, apsize) && m < |spans|
    ensures Tidy(PutRun(gtt, spans[m].base, Scribbles(d, |spans[m].es|)), spans[m := NO_SPAN], d, apsize)
  {
    hide GoodDevice, Scribble, Matches, Apart, PutRun, First, Top;
    UnbindKeeps(gtt, spans, First(d), Top(apsize), d, m);
  }

  lemma OneBlockAt(ms: seq<Memory>, d: Device, apsize: nat, i: nat, j: nat, off: int)
    requires BlocksOk(ms, d, apsize) && Apart(SpansOf(ms)) && i < |ms| && j < |ms| && At(ms[i], off) && At(ms[j], off)
    ensures i == j
  {
    hide InTable;
    assert BlockOk(ms[i], d, apsize) && BlockOk(ms[j], d, apsize);
    var page := off / AGP_PAGE_SIZE;
    assert In(SpansOf(ms)[i], page) && In(SpansOf(ms)[j], page);
  }

  lemma HeadIndex(ms: seq<Memory>, nextid: int)
    requires Ascending(ms, nextid) && ms != []
    ensures forall i :: 0 <= i < |ms| && ms[i] == ms[0] ==> i == 0
  {}

  lemma HeadApart(ms: seq<Memory>, nextid: int)
    requires Ascending(ms, nextid) && ms != []
    ensures ms[0] !in ms[1..]
  {}

  lemma StolenTwice(d: Device, gtt: seq<bv32>, gtt1: seq<bv32>, gtt0: seq<bv32>)
    requires StolenKept(d, gtt, gtt1) && StolenKept(d, gtt1, gtt0)
    ensures StolenKept(d, gtt, gtt0)
  {}

  lemma NoBlocksAllScribble(gtt: seq<bv32>, d: Device, apsize: nat)
    requires GoodDevice(d) && Tidy(gtt, SpansOf([]), d, apsize)
    ensures var first := if d.chip.I810? then d.dcache / 4096 else d.stolen;
            forall i :: first <= i < |gtt| && i * 4096 < apsize ==> gtt[i] == Scribble(d)
  {
    hide Scribble, GoodDevice;
    forall i | 0 <= i < |gtt| && First(d) <= i && i * 4096 < apsize ensures gtt[i] == Scribble(d) {
      assert !Covered(SpansOf([]), i);
    }
  }

  /** What a clean table is: page k of a bound block has the entry it was bound with ... */
  lemma BlockShown(sc: Softc, n: nat, k: nat)
    requires sc.Valid() && sc.Clean() && n < |sc.memory| && sc.memory[n].isBound && k < sc.memory[n].size / 4096
    ensures var i, m := sc.memory[n].offset / 4096 + k, sc.memory[n];
            i < |sc.table.gtt| && k < |m.span.es| && sc.table.gtt[i] == m.span.es[k]
  {
    hide Scribble, GoodDevice, Ascending, Total, InTable, Apart, Covered;
    var m := sc.memory[n];
    assert BlockOk(m, sc.table.d, sc.apsize);
    assert SpansOf(sc.memory)[n] == m.span && In(m.span, m.offset / 4096 + k);
    assert Shows(sc.table.gtt, SpansOf(sc.memory)[n], m.offset / 4096 + k);
  }

  /** ... two bound blocks have no offset in common ... */
  lemma NoOverlap(sc: Softc, m: nat, n: nat, off: int)
    requires sc.Valid() && sc.Clean() && m < |sc.memory| && n < |sc.memory| && At(sc.memory[m], off) && At(sc.memory[n], off)
    ensures m == n
  {
    OneBlockAt(sc.memory, sc.table.d, sc.apsize, m, n, off);
  }

  /** ... and every other entry from the first usable one to the end of the aperture is the scribble page. */
  lemma RestScribble(sc: Softc, i: nat)
    requires sc.Valid() && sc.Clean() && i < |sc.table.gtt| && i * 4096 < sc.apsize
    requires (if sc.table.d.chip.I810? then sc.table.d.dcache / 4096 else sc.table.d.stolen) <= i
    requires forall n :: 0 <= n < |sc.memory| ==> !At(sc.memory[n], i * 4096)
    ensures sc.table.gtt[i] == Scribble(sc.table.d)
  {
    hide Scribble, GoodDevice, Ascending, Total, InTable, Apart, Covered;
    NotCovered(sc.memory, sc.table.d, sc.apsize, i);
  }

  lemma NotCovered(ms: seq<Memory>, d: Device, apsize: nat, i: nat)
    requires BlocksOk(ms, d, apsize) && forall n :: 0 <= n < |ms| ==> !At(ms[n], i * 4096)
    ensures !Covered(SpansOf(ms), i)
  {
    hide InTable;
    forall n | 0 <= n < |ms| ensures !In(SpansOf(ms)[n], i) {
      assert BlockOk(ms[n], d, apsize) && !At(ms[n], i * 4096);
    }
  }

  class Softc {
    const table: Table
    const apsize: nat
    const maxmem: nat
    var inUse: int
    var nextid: int
    var memory: seq<Memory>
    var state: AcquireState
    var isOpen: bool

    ghost predicate Valid()
      reads this, table, memory
    {
      && table.Valid() && Ascending(memory, nextid) && inUse == Total(memory) <= maxmem
      && BlocksOk(memory, table.d, apsize)
    }

    /** The table is what the bound blocks say, and they do not overlap. */
    ghost predicate Clean()
      reads this, table, memory
    {
      table.Valid() && Tidy(table.gtt, SpansOf(memory), table.d, apsize)
    }

    constructor (d: Device, gtt: seq<bv32>, apsize: nat, maxmem: nat)
      requires GoodDevice(d) && |gtt| == d.entries && d.dcache % AGP_PAGE_SIZE == 0
      ensures Valid() && Clean() && memory == [] && state == Free && fresh(table) && table.d == d
      ensures inUse == nextid == 0 && this.apsize == apsize && this.maxmem == maxmem
      ensures StolenKept(d, table.gtt, gtt)
    {
      this.apsize, this.maxmem := apsize, maxmem;
      inUse, nextid, memory, state, isOpen := 0, 0, [], Free, false;
      table := new Table(d, gtt);
      new;
      table.ScribbleAll(apsize);
    }

    /** agp_generic_alloc_memory; `leftover` is what malloc left in am_mapref, which is not initialised. */
    method Alloc(kind: int, size: nat, mallocOk: bool, dmamapOk: bool, leftover: nat) returns (mem: Memory?)
      requires Valid()
      modifies this
      ensures Valid() && state == old(state) && isOpen == old(isOpen)
      ensures mem != null <==> size % AGP_PAGE_SIZE == 0 && old(inUse) + size <= maxmem && kind == 0 && mallocOk && dmamapOk
      ensures mem == null ==> memory == old(memory) && inUse == old(inUse) && nextid == old(nextid)
      ensures mem != null ==> fresh(mem) && memory == old(memory) + [mem] && inUse == old(inUse) + size
                              && mem.id == old(nextid) && nextid == old(nextid) + 1 && mem.size == size && !mem.isBound
                              && mem.offset == 0 && mem.mapref == leftover && mem.span == NO_SPAN
      ensures old(Clean()) ==> Clean()
    {
      hide Tidy, Ascending, BlocksOk, Total, SpansOf;
      if size % AGP_PAGE_SIZE != 0 { return null; }
      if inUse + size > maxmem { return null; }
      if kind != 0 { return null; }
      if !mallocOk { return null; }
      if !dmamapOk { return null; }
      var m := new Memory(nextid, size, leftover);
      Appended(memory, nextid, m, table.d, apsize, table.gtt);
      nextid := nextid + 1;
      memory := memory + [m];
      inUse := inUse + size;
      mem := m;
    }

    /** agp_generic_free_memory: a bound block is never freed. */
    method FreeMemory(mem: Memory) returns (error: int)
      requires Valid() && mem in memory
      modifies this
      ensures Valid() && nextid == old(nextid) && state == old(state) && isOpen == old(isOpen)
      ensures mem.isBound ==> error == EBUSY && memory == old(memory) && inUse == old(inUse)
      ensures !mem.isBound ==> error == 0 && inUse == old(inUse) - mem.size
      ensures !mem.isBound ==> exists i :: 0 <= i < |old(memory)| && old(memory)[i] == mem && memory == old(memory)[..i] + old(memory)[i + 1..]
      ensures old(Clean()) ==> Clean()
    {
      hide Tidy, Ascending, BlocksOk, Total, SpansOf, Without;
      if mem.isBound { return EBUSY; }
      ghost var i := IndexOf(memory, nextid, mem);
      Removed(memory, nextid, i, table.d, apsize, table.gtt);
      inUse := inUse - mem.size;
      memory := Without(memory, mem);
      error := 0;
    }

    /** agp_generic_bind_memory. */
    method Bind(mem: Memory, offset: int, tries: seq<Attempt>) returns (error: int, ghost f: nat)
      requires Valid() && mem in memory && |tries| == 4
      requires forall k :: 0 <= k < 4 && tries[k].Works? ==> Supplies(tries[k].segs, mem.size)
      modifies mem, table
      ensures Valid() && StolenKept(table.d, table.gtt, old(table.gtt))
      ensures old(mem.isBound) || offset < 0 || offset % 4096 != 0 || offset + mem.size > apsize ==>
        error == EINVAL && table.gtt == old(table.gtt)
      ensures !old(mem.isBound) && offset >= 0 && offset % 4096 == 0 && offset + mem.size <= apsize ==>
        var t := Deciding(tries);
        if t == 4 || tries[t].NoSegs? then error == ENOMEM && table.gtt == old(table.gtt)
        else BindResult(table.d, old(table.gtt), table.gtt, offset / AGP_PAGE_SIZE, mem.size / AGP_PAGE_SIZE,
                        PageList(tries[t].segs), f, error)
             && (error == 0 ==> mem.span == Span(offset / AGP_PAGE_SIZE,
                                  Entries(table.d, offset / AGP_PAGE_SIZE, PageList(tries[t].segs)[..mem.size / AGP_PAGE_SIZE])))
      ensures mem.isBound <==> old(mem.isBound) || error == 0
      ensures mem.mapref == old(mem.mapref) && mem.offset == if error == 0 then offset else old(mem.offset)
      ensures error != 0 ==> mem.span == old(mem.span) && mem.dma == old(mem.dma)
      ensures old(Clean()) && (old(mem.isBound) || Clear(old(SpansOf(memory)), FirstPage(offset), mem.size / AGP_PAGE_SIZE)) ==> Clean()
    {
      hide Tidy, Ascending, BlocksOk, Total, SpansOf, BindResult, Supplies, GoodDevice, StolenKept, Clear, Entries, PageList, Deciding, OthersOk;
      f := 0;
      ghost var i := IndexOf(memory, nextid, mem);
      SameStolen(table.d, table.gtt);
      TakeApart(memory, i, table.d, apsize);
      if mem.isBound { return EINVAL, f; }
      if offset < 0 || offset % AGP_PAGE_SIZE != 0 || offset + mem.size > apsize { return EINVAL, f; }
      ghost var gtt0, spans, base, n := table.gtt, SpansOf(memory), offset / AGP_PAGE_SIZE, mem.size / AGP_PAGE_SIZE;
      var ok, segs := AcquireDma(mem, tries);
      if !ok {
        PutTogether(memory, i, table.d, apsize, spans);
        return ENOMEM, f;
      }
      error, f := BindPages(table, mem.size, segs, offset);
      ghost var pages := PageList(segs);
      BindResultIs(table.d, gtt0, table.gtt, base, n, pages, f, error);
      BindResultStolen(table.d, gtt0, table.gtt, base, n, pages, f, error);
      if Tidy(gtt0, spans, table.d, apsize) && Clear(spans, base, n) {
        BindResultTidy(table.d, gtt0, table.gtt, base, n, pages, f, error, spans, apsize, i);
      }
      if error != 0 {
        ReleaseDma(mem);
        PutTogether(memory, i, table.d, apsize, spans);
        return;
      }
      mem.offset := offset;
      mem.isBound := true;
      mem.span := Span(base, Entries(table.d, base, pages[..f]));
      PutTogether(memory, i, table.d, apsize, spans);
    }

    /** agp_generic_unbind_memory: the block's entries become scribble and it gives everything back. */
    method Unbind(mem: Memory) returns (error: int)
      requires Valid() && mem in memory
      modifies mem, table
      ensures Valid() && StolenKept(table.d, table.gtt, old(table.gtt)) && mem.mapref == old(mem.mapref)
      ensures error == if old(mem.isBound) && mem.mapref == 0 then 0 else EINVAL
      ensures error == 0 ==> !mem.isBound && mem.offset == 0 && mem.span == NO_SPAN
      ensures error == 0 ==> table.gtt == PutRun(old(table.gtt), old(mem.span).base, Scribbles(table.d, |old(mem.span).es|))
      ensures error != 0 ==> table.gtt == old(table.gtt) && mem.isBound == old(mem.isBound) && mem.offset == old(mem.offset)
                             && mem.span == old(mem.span) && mem.dma == old(mem.dma)
      ensures old(Clean()) ==> Clean()
    {
      hide Tidy, Ascending, BlocksOk, Total, SpansOf, GoodDevice, StolenKept, OthersOk, Scribbles, PutRun;
      ghost var i := IndexOf(memory, nextid, mem);
      SameStolen(table.d, table.gtt);
      if !mem.isBound { return EINVAL; }
      if mem.mapref > 0 { return EINVAL; }
      TakeApart(memory, i, table.d, apsize);
      ghost var gtt0, spans := table.gtt, SpansOf(memory);
      SpanInTable(mem, table.d, apsize);
      RunKeepsStolen(table.d, gtt0, mem.span.base, Scribbles(table.d, |mem.span.es|));
      if Tidy(gtt0, spans, table.d, apsize) {
        UnbindTidy(gtt0, spans, table.d, apsize, i);
      }
      UnbindPages(table, mem.offset, mem.size);
      ReleaseDma(mem);
      mem.offset := 0;
      mem.isBound := false;
      mem.span := NO_SPAN;
      PutTogether(memory, i, table.d, apsize, spans);
      error := 0;
    }

    /** agp_find_memory. */
    method Find(id: int) returns (mem: Memory?)
      requires Valid()
      ensures mem == null ==> forall m :: m in memory ==> m.id != id
      ensures mem != null ==> mem in memory && mem.id == id && forall m :: m in memory && m.id == id ==> m == mem
    {
      hide BlocksOk, Total;
      for i := 0 to |memory|
        invariant forall k :: 0 <= k < i ==> memory[k].id != id
      {
        if memory[i].id == id {
          ghost var k := i;
          forall m | m in memory && m.id == id ensures m == memory[k] {
            var j :| 0 <= j < |memory| && memory[j] == m;
            IndexUnique(memory, nextid, k, j);
          }
          return memory[i];
        }
      }
      mem := null;
    }

    /** agp_lookup_memory: the bound block at an offset; the only one when blocks do not overlap. */
    method Lookup(off: int) returns (mem: Memory?)
      requires Valid()
      ensures mem == null ==> forall m :: m in memory ==> !At(m, off)
      ensures mem != null ==> mem in memory && At(mem, off)
      ensures mem != null ==> exists i :: 0 <= i < |memory| && memory[i] == mem && forall j :: 0 <= j < i ==> !At(memory[j], off)
      ensures mem != null && Apart(SpansOf(memory)) ==> forall m :: m in memory && At(m, off) ==> m == mem
    {
      hide Total, Ascending;
      for i := 0 to |memory|
        invariant forall k :: 0 <= k < i ==> !At(memory[k], off)
      {
        if memory[i].isBound && off >= memory[i].offset && off < memory[i].offset + memory[i].size {
          ghost var k := i;
          if Apart(SpansOf(memory)) {
            forall m | m in memory && At(m, off) ensures m == memory[k] {
              var j :| 0 <= j < |memory| && memory[j] == m;
              OneBlockAt(memory, table.d, apsize, k, j, off);
            }
          }
          return memory[i];
        }
      }
      mem := null;
    }

    /** agp_map where the bridge does not remap processor accesses: a further mapping of the block at an offset;
        `mapOk` is whether bus_dmamem_map succeeds. */
    method Map(off: int, mapOk: bool) returns (mem: Memory?)
      requires Valid()
      modifies memory
      ensures Valid() && (old(Clean()) ==> Clean())
      ensures mem == null ==> forall i :: 0 <= i < |memory| ==> memory[i].mapref == old(memory[i].mapref)
      ensures mem != null ==> mem in memory && At(mem, off) && mem.mapref == old(mem.mapref) + 1
      ensures mem != null ==> forall i :: 0 <= i < |memory| && memory[i] != mem ==> memory[i].mapref == old(memory[i].mapref)
      ensures (forall m :: m in memory ==> !old(At(m, off))) ==> mem == null
      ensures forall i :: 0 <= i < |memory| && old(At(memory[i], off)) && (forall j :: 0 <= j < i ==> !old(At(memory[j], off))) ==>
        mem == if old(memory[i].mapref) > 0 || mapOk then memory[i] else null
    {
      hide Tidy, Ascending, Total, GoodDevice, BlocksOk, Clean;
      CoversWithin(memory, table.d, apsize, off);
      if off >= apsize { return null; }
      mem := Lookup(off);
      assert forall i :: 0 <= i < |memory| ==> memory[i] in memory;
      if mem != null { OnlyFirst(memory, off, mem); }
      if mem == null || (mem.mapref == 0 && !mapOk) { return null; }
      CountMapping(mem);
    }

    method CountMapping(mem: Memory)
      requires Valid() && mem in memory
      modifies mem`mapref
      ensures Valid() && (old(Clean()) ==> Clean()) && mem.mapref == old(mem.mapref) + 1
    {
      hide Tidy, Ascending, Total, GoodDevice;
      ghost var spans := SpansOf(memory);
      mem.mapref := mem.mapref + 1;
      assert SpansOf(memory) == spans;
    }

    /** agp_acquire_helper. */
    method Acquire(who: AcquireState) returns (error: int)
      requires Valid()
      modifies this`state
      ensures Valid() && (old(Clean()) ==> Clean())
      ensures if old(state) == Free then error == 0 && state == who else error == EBUSY && state == old(state)
    {
      if state != Free { return EBUSY; }
      state := who;
      error := 0;
    }

    /** agp_release_helper: only the holder can release; releasing a free device is not an error. */
    method Release(who: AcquireState) returns (error: int)
      requires Valid()
      modifies this`state
      ensures Valid() && (old(Clean()) ==> Clean())
      ensures old(state) == Free || old(state) == who ==> error == 0 && state == Free
      ensures old(state) != Free && old(state) != who ==> error == EBUSY && state == old(state)
    {
      if state == Free { return 0; }
      if state != who { return EBUSY; }
      state := Free;
      error := 0;
    }

    /** One turn of agpclose's loop. A block that is bound and mapped can be neither unbound nor freed, and then the
        turn changes nothing at all. */
    method CloseTurn()
      requires Valid() && memory != []
      modifies this, memory[0], table
      ensures Valid() && StolenKept(table.d, table.gtt, old(table.gtt)) && (old(Clean()) ==> Clean())
      ensures nextid == old(nextid) && state == old(state) && isOpen == old(isOpen)
      ensures if old(memory[0].isBound && memory[0].mapref > 0)
              then memory == old(memory) && table.gtt == old(table.gtt) && Stuck(memory[0]) && inUse == old(inUse)
              else memory == old(memory)[1..]
    {
      hide Matches, Apart, Tidy, Ascending, BlocksOk, BlockOk, Total, SpansOf, GoodDevice, StolenKept, Scribbles, PutRun;
      SameStolen(table.d, table.gtt);
      var mem := memory[0];
      if mem.isBound {
        var e1 := Unbind(mem);
      }
      HeadIndex(memory, nextid);
      var e2 := FreeMemory(mem);
    }

    /** agpclose: provided no block is bound and mapped, in the user state the loop ends and everything is given back. */
    method Close()
      requires Valid() && (state == User ==> forall m :: m in memory ==> !(m.isBound && m.mapref > 0))
      modifies this, memory, table
      ensures Valid() && StolenKept(table.d, table.gtt, old(table.gtt)) && !isOpen
      ensures !table.d.chip.I810? ==> forall i :: 0 <= i < table.d.stolen && i < |table.gtt| ==> table.gtt[i] == old(table.gtt)[i]
      ensures old(state) == User ==> memory == [] && inUse == 0 && state == Free
      ensures old(state) == User && old(Clean()) ==>
        var first := if table.d.chip.I810? then table.d.dcache / 4096 else table.d.stolen;
        forall i :: first <= i < |table.gtt| && i * 4096 < apsize ==> table.gtt[i] == Scribble(table.d)
      ensures old(state) != User ==> memory == old(memory) && inUse == old(inUse) && state == old(state) && table.gtt == old(table.gtt)
    {
      hide Tidy, Ascending, BlocksOk, BlockOk, SpansOf, GoodDevice, StolenKept, Scribble, First, Top;
      SameStolen(table.d, table.gtt);
      if state == User {
        ghost var all, wasClean, gtt0, k := memory, Clean(), table.gtt, 0;
        while memory != []
          invariant Valid() && state == User && StolenKept(table.d, table.gtt, gtt0) && (wasClean ==> Clean())
          invariant k <= |all| && memory == all[k..]
          invariant forall m :: m in memory ==> !Stuck(m)
          decreases |memory|
        {
          ghost var before := table.gtt;
          HeadApart(memory, nextid);
          assert memory[0] in memory;
          CloseTurn();
          k := k + 1;
          StolenTwice(table.d, table.gtt, before, gtt0);
        }
        if wasClean {
          NoBlocksAllScribble(table.gtt, table.d, apsize);
        }
        var e := Release(User);
      }
      StolenMeans(table.d, table.gtt, old(table.gtt));
      isOpen := false;
    }
  }

  ghost predicate At(m: Memory, off: int)
    reads m
  {
    m.isBound && m.offset <= off < m.offset + m.size
  }

  /** Bound and mapped into a virtual address space. */
  predicate Stuck(m: Memory)
    reads m
  {
    m.isBound && m.mapref > 0
  }

  /** The page number of an offset, which may be negative in a bad request. */
  function FirstPage(offset: int): nat {
    if offset < 0 then 0 else offset / AGP_PAGE_SIZE
  }

  /** Pages that start inside the aperture. */
  function Top(apsize: nat): nat {
    (apsize + AGP_PAGE_SIZE - 1) / AGP_PAGE_SIZE
  }

  /** TAILQ_REMOVE. */
  function Without(ms: seq<Memory>, mem: Memory): seq<Memory> {
    if ms == [] then [] else if ms[0] == mem then ms[1..] else [ms[0]] + Without(ms[1..], mem)
  }

  lemma {:induction false} WithoutAt(ms: seq<Memory>, mem: Memory, i: nat)
    requires i < |ms| && ms[i] == mem && forall j :: 0 <= j < i ==> ms[j] != mem
    ensures Without(ms, mem) == ms[..i] + ms[i + 1..]
  {
    if i > 0 { WithoutAt(ms[1..], mem, i - 1); }
  }
}
