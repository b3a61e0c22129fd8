/** Runs of requests on the AGP aperture (agp.c), as a function on what can be seen of it, and closing it. */
module ApertureRuns {
  import opened Gtt
  import opened AgpPages
  import opened Agp
  import opened Aperture

  // ------------------------------------------------------------------ what can be seen

  datatype BlockView = BlockView(id: int, size: nat, offset: nat, isBound: bool, mapref: nat, span: Span)
  datatype View = View(gtt: seq<bv32>, blocks: seq<BlockView>, inUse: int, nextid: int, state: AcquireState)
  datatype Config = Config(d: Device, apsize: nat, maxmem: nat)

  ghost function LookBlock(m: Memory): BlockView
    reads m
  {
    BlockView(m.id, m.size, m.offset, m.isBound, m.mapref, m.span)
  }

  ghost function Blocks(ms: seq<Memory>): (r: seq<BlockView>)
    reads ms
    ensures |r| == |ms| && forall i :: 0 <= i < |ms| ==> r[i] == LookBlock(ms[i])
  {
    seq(|ms|, i requires 0 <= i < |ms| reads ms => LookBlock(ms[i]))
  }

  ghost function Look(sc: Softc): View
    reads sc, sc.table, sc.memory
  {
    View(sc.table.gtt, Blocks(sc.memory), sc.inUse, sc.nextid, sc.state)
  }

  ghost function ConfigOf(sc: Softc): Config {
    Config(sc.table.d, sc.apsize, sc.maxmem)
  }

  function Spans(bs: seq<BlockView>): (r: seq<Span>)
    ensures |r| == |bs| && forall i :: 0 <= i < |bs| ==> r[i] == bs[i].span
  {
    seq(|bs|, i requires 0 <= i < |bs| => bs[i].span)
  }

  /** Where the first block with the id is; |bs| if there is none. */
  function Place(bs: seq<BlockView>, id: int): (i: nat)
    ensures i <= |bs| && (i < |bs| ==> bs[i].id == id)
    ensures forall j :: 0 <= j < i ==> bs[j].id != id
  {
    if bs == [] then 0 else if bs[0].id == id then 0 else 1 + Place(bs[1..], id)
  }

  lemma PlaceIs(bs: seq<BlockView>, id: int, i: nat)
    requires i < |bs| && bs[i].id == id && forall j :: 0 <= j < |bs| && bs[j].id == id ==> j == i
    ensures Place(bs, id) == i
  {
    hide Place;
    var k := Place(bs, id);
  }

  // ------------------------------------------------------------------ what a request does

  datatype Op = Allocate(kind: int, pgCount: nat, mallocOk: bool, dmamapOk: bool, leftover: nat)
              | Deallocate(id: int)
              | BindBlock(id: int, pgStart: int, tries: nat -> seq<Attempt>)
              | UnbindBlock(id: int)
              | TakeDevice(who: AcquireState)
              | GiveDevice(who: AcquireState)

  predicate Supplied(tries: seq<Attempt>, size: nat) {
    |tries| == 4 && forall k :: 0 <= k < 4 && tries[k].Works? ==> Supplies(tries[k].segs, size)
  }

  /** What bus_dma does with a request of a given size: when it succeeds it supplies that many whole pages. */
  ghost predicate Plausible(op: Op) {
    op.BindBlock? ==> forall size :: Supplied(op.tries(size), size)
  }

  /** The longest prefix of the pages that can be bound from base on. */
  ghost function Longest(d: Device, base: nat, pages: seq<bv64>): (f: nat)
    ensures f <= |pages| && AllBindable(d, base, pages[..f]) && (f < |pages| ==> !Bindable(d, base + f, pages[f]))
  {
    if pages == [] then 0
    else
      var n := |pages| - 1;
      var f := Longest(d, base, pages[..n]);
      assert forall k :: 0 <= k <= n ==> pages[..n][..k] == pages[..k];
      if f == n && Bindable(d, base + n, pages[n]) then n + 1 else f
  }

  lemma LongestIs(d: Device, base: nat, pages: seq<bv64>, f: nat)
    requires f <= |pages| && AllBindable(d, base, pages[..f]) && (f < |pages| ==> !Bindable(d, base + f, pages[f]))
    ensures Longest(d, base, pages) == f
  {
    hide Longest, Bindable, AllBindable;
    var g := Longest(d, base, pages);
    PrefixBindable(d, base, pages, g, f);
    PrefixBindable(d, base, pages, f, g);
  }

  lemma PrefixBindable(d: Device, base: nat, pages: seq<bv64>, f: nat, k: nat)
    requires f <= |pages| && AllBindable(d, base, pages[..f])
    ensures k < f ==> Bindable(d, base + k, pages[k])
  {
    hide Bindable;
    assert k < f ==> pages[..f][k] == pages[k];
  }

  ghost function BindEffect(c: Config, v: View, i: nat, offset: int, tries: seq<Attempt>): (View, int)
    requires GoodDevice(c.d) && i < |v.blocks| && Supplied(tries, v.blocks[i].size)
  {
    var b := v.blocks[i];
    if b.isBound || !GoodOffset(offset, b.size, c.apsize) then (v, EINVAL)
    else if Deciding(tries) == 4 || tries[Deciding(tries)].NoSegs? then (v, ENOMEM)
    else
      var base, pages := offset / AGP_PAGE_SIZE, PageList(tries[Deciding(tries)].segs)[..b.size / AGP_PAGE_SIZE];
      var f := Longest(c.d, base, pages);
      if f == |pages| then
        var es := Entries(c.d, base, pages[..f]);
        (WithBound(v, i, offset, PutRun(v.gtt, base, es), Span(base, es)), 0)
      else
        (v.(gtt := PutRun(v.gtt, base, Scribbles(c.d, f))), EINVAL)
  }

  function WithBound(v: View, i: nat, offset: nat, gtt: seq<bv32>, span: Span): View
    requires i < |v.blocks|
  {
    v.(gtt := gtt, blocks := v.blocks[i := v.blocks[i].(offset := offset, isBound := true, span := span)])
  }

  ghost function UnbindEffect(c: Config, v: View, i: nat): (View, int)
    requires GoodDevice(c.d) && i < |v.blocks|
  {
    var b := v.blocks[i];
    if !b.isBound || b.mapref > 0 then (v, EINVAL)
    else (v.(gtt := PutRun(v.gtt, b.span.base, Scribbles(c.d, |b.span.es|)),
             blocks := v.blocks[i := b.(offset := 0, isBound := false, span := NO_SPAN)]), 0)
  }

  ghost function AllocEffect(c: Config, v: View, kind: int, pgCount: nat, granted: bool, leftover: nat): (View, int) {
    var size := pgCount * AGP_PAGE_SIZE;
    if v.inUse + size > c.maxmem || kind != 0 || !granted then (v, ENOMEM)
    else (v.(blocks := v.blocks + [BlockView(v.nextid, size, 0, false, leftover, NO_SPAN)],
             inUse := v.inUse + size, nextid := v.nextid + 1), 0)
  }

  ghost function FreeEffect(v: View, id: int): (View, int) {
    var i := Place(v.blocks, id);
    if i == |v.blocks| then (v, ENOENT)
    else if v.blocks[i].isBound then (v, 0)
    else (v.(blocks := v.blocks[..i] + v.blocks[i + 1..], inUse := v.inUse - v.blocks[i].size), 0)
  }

  ghost function BindById(c: Config, v: View, id: int, pgStart: int, tries: nat -> seq<Attempt>): (View, int)
    requires GoodDevice(c.d) && forall size :: Supplied(tries(size), size)
  {
    var i := Place(v.blocks, id);
    if i == |v.blocks| then (v, ENOENT) else BindEffect(c, v, i, pgStart * AGP_PAGE_SIZE, tries(v.blocks[i].size))
  }

  ghost function UnbindById(c: Config, v: View, id: int): (View, int)
    requires GoodDevice(c.d)
  {
    var i := Place(v.blocks, id);
    if i == |v.blocks| then (v, ENOENT) else UnbindEffect(c, v, i)
  }

  /** What follows a request, and the error it returns. */
  ghost function Next(c: Config, v: View, op: Op): (View, int)
    requires GoodDevice(c.d) && Plausible(op)
  {
    match op
    case Allocate(kind, pgCount, mallocOk, dmamapOk, leftover) =>
      AllocEffect(c, v, kind, pgCount, mallocOk && dmamapOk, leftover)
    case Deallocate(id) => FreeEffect(v, id)
    case BindBlock(id, pgStart, tries) => BindById(c, v, id, pgStart, tries)
    case UnbindBlock(id) => UnbindById(c, v, id)
    case TakeDevice(who) => if v.state != Free then (v, EBUSY) else (v.(state := who), 0)
    case GiveDevice(who) =>
      if v.state == Free then (v, 0) else if v.state != who then (v, EBUSY) else (v.(state := Free), 0)
  }

  /** The block is missing, or bound already, or its place is clear of other blocks. */
  ghost predicate ClearFor(v: View, id: int, pgStart: int) {
    var i := Place(v.blocks, id);
    i == |v.blocks| || v.blocks[i].isBound
    || Clear(Spans(v.blocks), FirstPage(pgStart * AGP_PAGE_SIZE), v.blocks[i].size / AGP_PAGE_SIZE)
  }

  /** A request that does not bind a block over entries of another. */
  ghost predicate Polite(v: View, op: Op) {
    op.BindBlock? ==> ClearFor(v, op.id, op.pgStart)
  }

  ghost function After(c: Config, v: View, ops: seq<Op>): View
    requires GoodDevice(c.d) && forall i :: 0 <= i < |ops| ==> Plausible(ops[i])
    decreases |ops|
  {
    if ops == [] then v else After(c, Next(c, v, ops[0]).0, ops[1..])
  }

  ghost predicate AllPolite(c: Config, v: View, ops: seq<Op>)
    requires GoodDevice(c.d) && forall i :: 0 <= i < |ops| ==> Plausible(ops[i])
    decreases |ops|
  {
    ops == [] || (Polite(v, ops[0]) && AllPolite(c, Next(c, v, ops[0]).0, ops[1..]))
  }

  // ------------------------------------------------------------------ the requests

  lemma SpansAgree(ms: seq<Memory>)
    ensures Spans(Blocks(ms)) == SpansOf(ms)
  {}

  /** A block of the list is where its id says. */
  lemma FindPlace(sc: Softc, mem: Memory) returns (i: nat)
    requires sc.Valid() && mem in sc.memory
    ensures i == Place(Blocks(sc.memory), mem.id) < |sc.memory| && sc.memory[i] == mem
    ensures forall j :: 0 <= j < |sc.memory| && j != i ==> sc.memory[j] != mem
  {
    hide Place, BlocksOk, Total;
    i := IndexOf(sc.memory, sc.nextid, mem);
    forall j | 0 <= j < |sc.memory| && sc.memory[j].id == mem.id ensures j == i {
      IndexUnique(sc.memory, sc.nextid, i, j);
    }
    PlaceIs(Blocks(sc.memory), mem.id, i);
  }

  lemma NoPlace(ms: seq<Memory>, id: int)
    requires forall m :: m in ms ==> m.id != id
    ensures Place(Blocks(ms), id) == |ms|
  {
    hide Place;
    assert forall i :: 0 <= i < |ms| ==> ms[i] in ms;
  }

  /** A bind that got its memory has the effect of BindEffect. */
  lemma BindWorked(c: Config, v: View, i: nat, offset: int, tries: seq<Attempt>, gtt2: seq<bv32>, f: nat, error: int)
    requires GoodDevice(c.d) && i < |v.blocks| && Supplied(tries, v.blocks[i].size)
    requires !v.blocks[i].isBound && GoodOffset(offset, v.blocks[i].size, c.apsize)
    requires Deciding(tries) < 4 && tries[Deciding(tries)].Works?
    requires BindResult(c.d, v.gtt, gtt2, offset / AGP_PAGE_SIZE, v.blocks[i].size / AGP_PAGE_SIZE,
                        PageList(tries[Deciding(tries)].segs), f, error)
    ensures error != 0 ==> error == EINVAL && BindEffect(c, v, i, offset, tries) == (v.(gtt := gtt2), EINVAL)
    ensures var base, n, all := offset / AGP_PAGE_SIZE, v.blocks[i].size / AGP_PAGE_SIZE, PageList(tries[Deciding(tries)].segs);
      error == 0 ==> (n <= |all| && AllBindable(c.d, base, all[..n])
        && BindEffect(c, v, i, offset, tries) == (WithBound(v, i, offset, gtt2, Span(base, Entries(c.d, base, all[..n]))), 0))
  {
    hide AllBindable, Bindable, Entries, PutRun, Scribbles, GoodDevice, PageList, Deciding, Longest, Supplies;
    var base, all, n := offset / AGP_PAGE_SIZE, PageList(tries[Deciding(tries)].segs), v.blocks[i].size / AGP_PAGE_SIZE;
    assert all[..n][..f] == all[..f];
    LongestIs(c.d, base, all[..n], f);
    assert f == n ==> all[..n][..n] == all[..n];
  }

  /** agp_bind_user, once the block is found. */
  method DoBind(sc: Softc, mem: Memory, offset: int, tries: seq<Attempt>, ghost i: nat) returns (error: int)
    requires sc.Valid() && i < |sc.memory| && sc.memory[i] == mem && Supplied(tries, mem.size)
    requires forall j :: 0 <= j < |sc.memory| && j != i ==> sc.memory[j] != mem
    modifies mem, sc.table
    ensures sc.Valid() && StolenKept(sc.table.d, sc.table.gtt, old(sc.table.gtt))
    ensures (Look(sc), error) == BindEffect(ConfigOf(sc), old(Look(sc)), i, offset, tries)
    ensures old(sc.Clean()) && (old(mem.isBound) || Clear(old(Spans(Blocks(sc.memory))), FirstPage(offset), mem.size / AGP_PAGE_SIZE))
            ==> sc.Clean()
  {
    hide Softc.Clean, Clear, SpansOf, StolenKept, Entries, PutRun, Scribbles, PageList, Deciding, Tidy, BlocksOk, Total, Ascending,
         BindResult, Longest, Supplies;
    ghost var v := Look(sc);
    SpansAgree(sc.memory);
    ghost var f;
    error, f := sc.Bind(mem, offset, tries);
    assert Blocks(sc.memory) == v.blocks[i := LookBlock(mem)];
    if v.blocks[i].isBound || !GoodOffset(offset, mem.size, sc.apsize) {
      assert LookBlock(mem) == v.blocks[i];
      assert Blocks(sc.memory) == v.blocks;
      assert Look(sc) == v;
    } else if Deciding(tries) == 4 || tries[Deciding(tries)].NoSegs? {
      assert LookBlock(mem) == v.blocks[i];
      assert Blocks(sc.memory) == v.blocks;
      assert Look(sc) == v;
    } else {
      BindWorked(ConfigOf(sc), v, i, offset, tries, sc.table.gtt, f, error);
      assert error != 0 ==> LookBlock(mem) == v.blocks[i];
      assert error != 0 ==> Blocks(sc.memory) == v.blocks;
    }
  }

  /** agp_unbind_user, once the block is found. */
  method DoUnbind(sc: Softc, mem: Memory, ghost i: nat) returns (error: int)
    requires sc.Valid() && i < |sc.memory| && sc.memory[i] == mem
    requires forall j :: 0 <= j < |sc.memory| && j != i ==> sc.memory[j] != mem
    modifies mem, sc.table
    ensures sc.Valid() && StolenKept(sc.table.d, sc.table.gtt, old(sc.table.gtt))
    ensures (Look(sc), error) == UnbindEffect(ConfigOf(sc), old(Look(sc)), i)
    ensures old(sc.Clean()) ==> sc.Clean()
  {
    hide Softc.Clean, SpansOf, StolenKept, PutRun, Scribbles, Tidy, BlocksOk, Total, Ascending;
    ghost var v := Look(sc);
    error := sc.Unbind(mem);
    assert Blocks(sc.memory) == v.blocks[i := LookBlock(mem)];
    assert error != 0 ==> LookBlock(mem) == v.blocks[i];
    assert error != 0 ==> Blocks(sc.memory) == v.blocks;
  }

  /** agp_deallocate_user, once the block is found. */
  method DoFree(sc: Softc, mem: Memory, ghost i: nat)
    requires sc.Valid() && i < |sc.memory| && sc.memory[i] == mem
    requires forall j :: 0 <= j < |sc.memory| && j != i ==> sc.memory[j] != mem
    modifies sc
    ensures sc.Valid() && forall m :: m in sc.memory ==> m in old(sc.memory)
    ensures var v := old(Look(sc));
            Look(sc) == if v.blocks[i].isBound then v
                        else v.(blocks := v.blocks[..i] + v.blocks[i + 1..], inUse := v.inUse - v.blocks[i].size)
    ensures old(sc.Clean()) ==> sc.Clean()
  {
    hide Softc.Clean, SpansOf, Tidy, BlocksOk, Total, Ascending;
    ghost var v, ms := Look(sc), sc.memory;
    var error := sc.FreeMemory(mem);
    if !v.blocks[i].isBound {
      ghost var k :| 0 <= k < |ms| && ms[k] == mem && sc.memory == ms[..k] + ms[k + 1..];
      assert k == i;
      assert Blocks(sc.memory) == v.blocks[..i] + v.blocks[i + 1..];
    } else {
      assert Blocks(sc.memory) == v.blocks;
    }
  }

  /** agp_allocate_user. */
  method DoAlloc(sc: Softc, kind: int, pgCount: nat, mallocOk: bool, dmamapOk: bool, leftover: nat) returns (error: int)
    requires sc.Valid()
    modifies sc
    ensures sc.Valid() && forall m :: m in sc.memory ==> m in old(sc.memory) || fresh(m)
    ensures (Look(sc), error) == AllocEffect(ConfigOf(sc), old(Look(sc)), kind, pgCount, mallocOk && dmamapOk, leftover)
    ensures old(sc.Clean()) ==> sc.Clean()
  {
    hide Softc.Clean, SpansOf, Tidy, BlocksOk, Total, Ascending, GoodDevice;
    ghost var v := Look(sc);
    var mem := sc.Alloc(kind, pgCount * AGP_PAGE_SIZE, mallocOk, dmamapOk, leftover);
    error := if mem != null then 0 else ENOMEM;
    if mem != null {
      assert Blocks(sc.memory) == v.blocks + [LookBlock(mem)];
    } else {
      assert Blocks(sc.memory) == v.blocks;
    }
  }

  /** agp_bind_user. */
  method FindAndBind(sc: Softc, id: int, pgStart: int, tries: nat -> seq<Attempt>) returns (error: int)
    requires sc.Valid() && forall size :: Supplied(tries(size), size)
    modifies sc.memory, sc.table
    ensures sc.Valid() && StolenKept(sc.table.d, sc.table.gtt, old(sc.table.gtt))
    ensures (Look(sc), error) == BindById(ConfigOf(sc), old(Look(sc)), id, pgStart, tries)
    ensures old(sc.Clean()) && ClearFor(old(Look(sc)), id, pgStart) ==> sc.Clean()
  {
    hide Softc.Valid, Softc.Clean, Clear, StolenKept, BindEffect, Place, GoodDevice, Supplied;
    SameStolen(sc.table.d, sc.table.gtt);
    var mem := sc.Find(id);
    if mem == null {
      NoPlace(sc.memory, id);
      return ENOENT;
    }
    ghost var i := FindPlace(sc, mem);
    error := DoBind(sc, mem, pgStart * AGP_PAGE_SIZE, tries(mem.size), i);
  }

  /** agp_unbind_user. */
  method FindAndUnbind(sc: Softc, id: int) returns (error: int)
    requires sc.Valid()
    modifies sc.memory, sc.table
    ensures sc.Valid() && StolenKept(sc.table.d, sc.table.gtt, old(sc.table.gtt))
    ensures (Look(sc), error) == UnbindById(ConfigOf(sc), old(Look(sc)), id)
    ensures old(sc.Clean()) ==> sc.Clean()
  {
    hide Softc.Valid, Softc.Clean, StolenKept, UnbindEffect, Place, GoodDevice;
    SameStolen(sc.table.d, sc.table.gtt);
    var mem := sc.Find(id);
    if mem == null {
      NoPlace(sc.memory, id);
      return ENOENT;
    }
    ghost var i := FindPlace(sc, mem);
    error := DoUnbind(sc, mem, i);
  }

  /** agp_deallocate_user. */
  method FindAndFree(sc: Softc, id: int) returns (error: int)
    requires sc.Valid()
    modifies sc
    ensures sc.Valid() && forall m :: m in sc.memory ==> m in old(sc.memory)
    ensures (Look(sc), error) == FreeEffect(old(Look(sc)), id)
    ensures old(sc.Clean()) ==> sc.Clean()
  {
    hide Softc.Valid, Softc.Clean, Place, GoodDevice;
    var mem := sc.Find(id);
    if mem == null {
      NoPlace(sc.memory, id);
      return ENOENT;
    }
    ghost var i := FindPlace(sc, mem);
    DoFree(sc, mem, i);
    error := 0;
  }

  /** One request. What can be seen changes as Next says; bound pages stay where their blocks say and all other
      initialised entries scribble, unless the request binds over entries of another block. */
  method Execute(sc: Softc, op: Op) returns (error: int)
    requires sc.Valid() && Plausible(op)
    modifies sc, sc.memory, sc.table
    ensures sc.Valid() && StolenKept(sc.table.d, sc.table.gtt, old(sc.table.gtt))
    ensures forall i :: 0 <= i < |sc.memory| ==> sc.memory[i] in old(sc.memory) || fresh(sc.memory[i])
    ensures (Look(sc), error) == Next(ConfigOf(sc), old(Look(sc)), op)
    ensures old(sc.Clean()) && Polite(old(Look(sc)), op) ==> sc.Clean()
  {
    hide Softc.Valid, Softc.Clean, StolenKept, BindById, UnbindById, FreeEffect, AllocEffect, ClearFor, GoodDevice;
    SameStolen(sc.table.d, sc.table.gtt);
    DeviceGood(sc);
    match op
    case Allocate(kind, pgCount, mallocOk, dmamapOk, leftover) =>
      error := DoAlloc(sc, kind, pgCount, mallocOk, dmamapOk, leftover);
    case Deallocate(id) =>
      error := FindAndFree(sc, id);
    case BindBlock(id, pgStart, tries) =>
      error := FindAndBind(sc, id, pgStart, tries);
    case UnbindBlock(id) =>
      error := FindAndUnbind(sc, id);
    case TakeDevice(who) =>
      error := sc.Acquire(who);
    case GiveDevice(who) =>
      error := sc.Release(who);
  }

  lemma DeviceGood(sc: Softc)
    requires sc.Valid()
    ensures GoodDevice(sc.table.d)
  {}

  /** Over any run: sizes add up, ids are distinct, bound blocks lie in the aperture (Valid), stolen entries are never
      written, what can be seen is what the requests call for, and if none of them binds over another block every
      initialised entry is a bound page or the scribble page (Clean). */
  method Run(sc: Softc, ops: seq<Op>)
    requires sc.Valid() && forall i :: 0 <= i < |ops| ==> Plausible(ops[i])
    modifies sc, sc.memory, sc.table
    ensures sc.Valid() && StolenKept(sc.table.d, sc.table.gtt, old(sc.table.gtt))
    ensures !sc.table.d.chip.I810? ==>
      |sc.table.gtt| == |old(sc.table.gtt)| && forall i :: 0 <= i < sc.table.d.stolen && i < |sc.table.gtt| ==> sc.table.gtt[i] == old(sc.table.gtt)[i]
    ensures Look(sc) == After(ConfigOf(sc), old(Look(sc)), ops)
    ensures old(sc.Clean()) && AllPolite(ConfigOf(sc), old(Look(sc)), ops) ==> sc.Clean()
  {
    hide Softc.Valid, Softc.Clean, StolenKept, Plausible, Next, Look, Polite, GoodDevice;
    SameStolen(sc.table.d, sc.table.gtt);
    DeviceGood(sc);
    ghost var v0 := Look(sc);
    assert ops[0..] == ops;
    for n := 0 to |ops|
      invariant sc.Valid() && StolenKept(sc.table.d, sc.table.gtt, old(sc.table.gtt))
      invariant forall i :: 0 <= i < |sc.memory| ==> sc.memory[i] in old(sc.memory) || fresh(sc.memory[i])
      invariant After(ConfigOf(sc), v0, ops) == After(ConfigOf(sc), Look(sc), ops[n..])
      invariant AllPolite(ConfigOf(sc), v0, ops) ==> AllPolite(ConfigOf(sc), Look(sc), ops[n..])
      invariant old(sc.Clean()) && AllPolite(ConfigOf(sc), v0, ops) ==> sc.Clean()
    {
      ghost var before := sc.table.gtt;
      assert ops[n..][1..] == ops[n + 1..];
      var error := Execute(sc, ops[n]);
      StolenTwice(sc.table.d, sc.table.gtt, before, old(sc.table.gtt));
    }
    assert ops[|ops|..] == [];
    StolenMeans(sc.table.d, sc.table.gtt, old(sc.table.gtt));
  }

  /** Where nothing is bound any request is polite. */
  lemma UnboundIsPolite(v: View, op: Op)
    requires forall i :: 0 <= i < |v.blocks| ==> v.blocks[i].span == NO_SPAN
    ensures Polite(v, op)
  {
    hide Place;
    assert forall m, i: int :: 0 <= m < |v.blocks| ==> !In(Spans(v.blocks)[m], i);
  }

  // ------------------------------------------------------------------ agpclose ends iff nothing is stuck

  /** One turn of agpclose's loop, on which blocks of the list are bound and mapped. */
  function Turn(stuck: seq<bool>): seq<bool> {
    if stuck == [] || stuck[0] then stuck else stuck[1..]
  }

  function Turns(stuck: seq<bool>, n: nat): seq<bool> {
    if n == 0 then stuck else Turn(Turns(stuck, n - 1))
  }

  ghost function Flags(ms: seq<Memory>): (r: seq<bool>)
    reads ms
    ensures |r| == |ms| && forall i :: 0 <= i < |ms| ==> r[i] == Stuck(ms[i])
  {
    seq(|ms|, i requires 0 <= i < |ms| reads ms => Stuck(ms[i]))
  }

  /** The loop of agpclose, stopped after at most n turns: what it does to the list is Turns. */
  method CloseTurns(sc: Softc, n: nat, ghost all: set<Memory>)
    requires sc.Valid() && forall i :: 0 <= i < |sc.memory| ==> sc.memory[i] in all
    modifies sc, sc.table, all
    ensures sc.Valid() && Flags(sc.memory) == Turns(old(Flags(sc.memory)), n)
    ensures forall i :: 0 <= i < |sc.memory| ==> sc.memory[i] in all
  {
    hide Softc.Valid, Stuck;
    var k := 0;
    while k < n
      invariant k <= n && sc.Valid() && Flags(sc.memory) == Turns(old(Flags(sc.memory)), k)
      invariant forall i :: 0 <= i < |sc.memory| ==> sc.memory[i] in all
    {
      if sc.memory != [] { OneTurn(sc, all); }
      k := k + 1;
    }
  }

  method OneTurn(sc: Softc, ghost all: set<Memory>)
    requires sc.Valid() && sc.memory != [] && forall i :: 0 <= i < |sc.memory| ==> sc.memory[i] in all
    modifies sc, sc.table, all
    ensures sc.Valid() && Flags(sc.memory) == Turn(old(Flags(sc.memory)))
    ensures forall i :: 0 <= i < |sc.memory| ==> sc.memory[i] in all
  {
    hide BlocksOk, Total, Softc.Clean, Ascending, StolenKept;
    HeadElsewhere(sc.memory, sc.nextid);
    ghost var ms, flags := sc.memory, Flags(sc.memory);
    sc.CloseTurn();
    assert Flags(sc.memory) == if flags[0] then flags else flags[1..];
  }

  lemma HeadElsewhere(ms: seq<Memory>, nextid: int)
    requires Ascending(ms, nextid) && ms != []
    ensures forall i :: 0 < i < |ms| ==> ms[i] != ms[0]
  {}

  lemma {:induction false} TurnsOfFree(stuck: seq<bool>, n: nat)
    requires n <= |stuck| && forall i :: 0 <= i < |stuck| ==> !stuck[i]
    ensures Turns(stuck, n) == stuck[n..]
  {
    if n > 0 {
      TurnsOfFree(stuck, n - 1);
    }
  }

  /** A stuck block stays on the list. */
  lemma {:induction false} StuckStays(stuck: seq<bool>, n: nat)
    requires true in stuck
    ensures true in Turns(stuck, n)
  {
    if n > 0 {
      StuckStays(stuck, n - 1);
      var s := Turns(stuck, n - 1);
      assert !s[0] ==> s == [s[0]] + s[1..];
    }
  }

  /** The loop of agpclose empties the list iff no block is bound and mapped. */
  lemma CloseEndsIff(sc: Softc)
    ensures (exists n: nat :: Turns(Flags(sc.memory), n) == []) <==> forall i :: 0 <= i < |sc.memory| ==> !(sc.memory[i].isBound && sc.memory[i].mapref > 0)
  {
    hide Turns;
    var flags := Flags(sc.memory);
    if i :| 0 <= i < |flags| && flags[i] {
      forall n: nat ensures Turns(flags, n) != [] {
        StuckStays(flags, n);
      }
    } else {
      TurnsOfFree(flags, |flags|);
    }
  }

  const SMALL := Device(I830, false, 1, 0, 0, 0x1000)

  lemma CleanAddresses()
    ensures LowClear(Present(0x1000)) && LowClear(Present(0))
  {}

  lemma PacksWhenClear(d: Device, v: bv64)
    requires !d.wide && LowClear(Present(v))
    ensures Entry(d, v).Some?
  {
    hide LowClear, Present, Pack32;
  }

  lemma SmallDevice()
    ensures GoodDevice(SMALL) && Bindable(SMALL, 0, 0)
  {
    hide LowClear, Present, Entry;
    CleanAddresses();
    PacksWhenClear(SMALL, 0x1000);
    PacksWhenClear(SMALL, 0);
  }

  lemma OnePage()
    ensures Supplies([Segment(0, 4096)], 4096) && PageList([Segment(0, 4096)]) == [0]
  {
    assert PageList([]) == [];
    assert [Segment(0, 4096)][..0] == [];
    assert SegPages(Segment(0, 4096)) == [0];
  }

  /** A new device with one page of memory, bound. */
  method OneBoundPage() returns (sc: Softc)
    ensures fresh(sc) && fresh(sc.table) && sc.Valid() && sc.state == Free && |sc.memory| == 1 && fresh(sc.memory[0])
    ensures sc.memory[0].isBound && sc.memory[0].offset == 0 && sc.memory[0].size == 4096
  {
    hide Bindable, GoodDevice, PageList, Supplies, Tidy, Ascending, BlocksOk, AllBindable, Entries, Scribbles, StolenKept, Clear, SpansOf;
    SmallDevice();
    OnePage();
    sc := new Softc(SMALL, [0], 4096, 4096);
    var mem := sc.Alloc(0, 4096, true, true, 0);
    var tries := [Works([Segment(0, 4096)]), NoPages, NoPages, NoPages];
    DecidingIs(tries, 0);
    ghost var f;
    var error;
    error, f := sc.Bind(mem, 0, tries);
  }

  /** It does happen: map the page, acquire the device, and close it without unmapping. */
  method ClosingHazard() returns (sc: Softc)
    ensures fresh(sc) && sc.Valid() && sc.state == User && |sc.memory| == 1
    ensures sc.memory[0].isBound && sc.memory[0].mapref > 0
    ensures forall n: nat :: Turns(Flags(sc.memory), n) != []
  {
    hide Softc.Valid, Softc.Clean, Turns;
    sc := OneBoundPage();
    assert At(sc.memory[0], 0);
    var mapped := sc.Map(0, true);
    var error := sc.Acquire(User);
    CloseEndsIff(sc);
  }
}
