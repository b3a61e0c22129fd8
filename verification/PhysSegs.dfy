/** The physical segment table (vm_physmem) as a value: what it means for frames to be managed and
    available, and what stealing one frame at boot does to them. */
module PhysSegs {

  // struct vm_physseg; all fields are page frame numbers.  `pgs` is the index in the vm_page array of
  // the segment's first page, or -1 before uvm_page_init (NULL).
  datatype PhysSeg = PhysSeg(start: nat, end: nat, availStart: nat, availEnd: nat, freeList: nat, pgs: int)

  predicate SegOk(g: PhysSeg) {
    g.start <= g.availStart <= g.availEnd <= g.end && g.start < g.end
  }

  ghost predicate Sorted(t: seq<PhysSeg>) {
    forall i, j :: 0 <= i < j < |t| ==> t[i].end <= t[j].start
  }

  ghost predicate Table(t: seq<PhysSeg>) {
    (forall i :: 0 <= i < |t| ==> SegOk(t[i])) && Sorted(t)
  }

  predicate In(g: PhysSeg, f: nat) { g.start <= f < g.end }
  predicate InAvail(g: PhysSeg, f: nat) { g.availStart <= f < g.availEnd }

  ghost predicate Managed(t: seq<PhysSeg>, f: nat) {
    exists i :: 0 <= i < |t| && In(t[i], f)
  }

  ghost predicate Available(t: seq<PhysSeg>, f: nat) {
    exists i :: 0 <= i < |t| && InAvail(t[i], f)
  }

  function Size(t: seq<PhysSeg>): int {
    if t == [] then 0 else Size(t[..|t| - 1]) + (t[|t| - 1].end - t[|t| - 1].start)
  }

  function AvailSize(t: seq<PhysSeg>): int {
    if t == [] then 0 else AvailSize(t[..|t| - 1]) + (t[|t| - 1].availEnd - t[|t| - 1].availStart)
  }

  lemma {:induction false} SizeSplit(a: seq<PhysSeg>, b: seq<PhysSeg>)
    ensures Size(a + b) == Size(a) + Size(b) && AvailSize(a + b) == AvailSize(a) + AvailSize(b)
  {
    if b == [] {
      assert a + b == a;
    } else {
      assert (a + b)[..|a + b| - 1] == a + b[..|b| - 1];
      SizeSplit(a, b[..|b| - 1]);
    }
  }

  lemma SizeOne(g: PhysSeg)
    ensures Size([g]) == g.end - g.start && AvailSize([g]) == g.availEnd - g.availStart
  {
    assert [g][..0] == [];
  }

  /** Sizes of a table around one of its entries. */
  lemma SizeAround(t: seq<PhysSeg>, i: nat)
    requires i < |t|
    ensures Size(t) == Size(t[..i]) + (t[i].end - t[i].start) + Size(t[i + 1..])
    ensures AvailSize(t) == AvailSize(t[..i]) + (t[i].availEnd - t[i].availStart) + AvailSize(t[i + 1..])
  {
    hide Size, AvailSize;
    assert t == t[..i] + ([t[i]] + t[i + 1..]);
    SizeSplit(t[..i], [t[i]] + t[i + 1..]);
    SizeSplit([t[i]], t[i + 1..]);
    SizeOne(t[i]);
  }

  // ----- stealing one frame

  // From the front of a segment whose front is available, from its rear, or from the middle, dropping
  // the unavailable front pages.
  datatype How = Front | Rear | Truncating

  predicate Possible(g: PhysSeg, how: How) {
    && g.availStart < g.availEnd
    && match how
       case Front => g.availStart == g.start
       case Rear => g.availEnd == g.end
       case Truncating => true
  }

  function FrameOf(g: PhysSeg, how: How): nat
    requires Possible(g, how)
  {
    if how.Rear? then g.availEnd - 1 else g.availStart
  }

  function Shrunk(g: PhysSeg, how: How): PhysSeg
    requires Possible(g, how) && SegOk(g)
  {
    if how.Rear? then g.(availEnd := g.availEnd - 1, end := g.end - 1)
    else g.(availStart := g.availStart + 1, start := g.availStart + 1)
  }

  /** The table after a frame was taken from entry i: a segment with nothing left is removed. */
  function Without(t: seq<PhysSeg>, i: nat, how: How): seq<PhysSeg>
    requires i < |t| && Possible(t[i], how) && SegOk(t[i])
  {
    var g := Shrunk(t[i], how);
    if g.start == g.end then t[..i] + t[i + 1..] else t[i := g]
  }

  /** The order in which uvm_page_physget_freelist looks: first the first segment of the list that ends in
      available pages (its front before its rear), otherwise the first segment with any available page. */
  ghost predicate FirstChoice(t: seq<PhysSeg>, fl: nat, i: nat, how: How) {
    && i < |t| && Possible(t[i], how)
    && if how.Truncating? then
         && (forall j :: 0 <= j < |t| && t[j].freeList == fl ==> !Possible(t[j], Front) && !Possible(t[j], Rear))
         && (forall j :: 0 <= j < i ==> !Possible(t[j], Truncating))
       else
         && t[i].freeList == fl
         && (how.Rear? ==> !Possible(t[i], Front))
         && (forall j :: 0 <= j < i && t[j].freeList == fl ==> !Possible(t[j], Front) && !Possible(t[j], Rear))
  }

  ghost predicate SameSegment(t: seq<PhysSeg>, x: nat, y: nat) {
    exists i :: 0 <= i < |t| && In(t[i], x) && In(t[i], y)
  }

  /** How many available pages of list fl lie in segments that begin or end with one. */
  function EndPages(t: seq<PhysSeg>, fl: nat): int {
    if t == [] then 0
    else
      var g := t[|t| - 1];
      EndPages(t[..|t| - 1], fl)
      + if g.freeList == fl && (g.availStart == g.start || g.availEnd == g.end) then g.availEnd - g.availStart else 0
  }

  /** While some segment of the list begins or ends with an available page, a steal costs the stolen frame only. */
  ghost predicate Spares(t: seq<PhysSeg>, u: seq<PhysSeg>, f: nat, fl: nat) {
    EndPages(t, fl) > 0 ==>
      EndPages(u, fl) == EndPages(t, fl) - 1 && forall x :: Managed(u, x) <==> Managed(t, x) && x != f
  }

  /** What one successful steal means, without saying how: frame f was available and is now neither available
      nor managed, nothing else became available or unavailable, and the table stays a sorted table. Any other frame
      that is lost lies before f in its segment. */
  ghost predicate Stolen(t: seq<PhysSeg>, u: seq<PhysSeg>, f: nat) {
    && Table(u)
    && Available(t, f) && !Managed(u, f)
    && (forall x :: Available(u, x) <==> Available(t, x) && x != f)
    && (forall x :: Managed(u, x) ==> Managed(t, x))
    && (forall x: nat :: Managed(t, x) && !Managed(u, x) ==> x == f || (x < f && SameSegment(t, x, f)))
    && (forall x: nat, y: nat :: SameSegment(u, x, y) ==> SameSegment(t, x, y))
    && AvailSize(u) == AvailSize(t) - 1
    && Size(u) <= Size(t) - 1
  }

  lemma WithoutTable(t: seq<PhysSeg>, i: nat, how: How)
    requires Table(t) && i < |t| && Possible(t[i], how)
    ensures Table(Without(t, i, how))
  {}

  lemma WithoutSizes(t: seq<PhysSeg>, i: nat, how: How)
    requires i < |t| && SegOk(t[i]) && Possible(t[i], how)
    ensures AvailSize(Without(t, i, how)) == AvailSize(t) - 1
    ensures Size(Without(t, i, how)) <= Size(t) - 1
  {
    hide Size, AvailSize;
    var u, g := Without(t, i, how), Shrunk(t[i], how);
    SizeAround(t, i);
    if g.start == g.end {
      SizeSplit(t[..i], t[i + 1..]);
    } else {
      SizeAround(u, i);
      assert u[..i] == t[..i] && u[i + 1..] == t[i + 1..];
    }
  }

  /** Entry j of the shortened table is entry `From(j)` of the old one, shrunk if it is the one taken from. */
  function From(t: seq<PhysSeg>, i: nat, how: How, j: nat): nat
    requires i < |t| && Possible(t[i], how) && SegOk(t[i])
  {
    if Shrunk(t[i], how).start == Shrunk(t[i], how).end && j >= i then j + 1 else j
  }

  lemma WithoutAt(t: seq<PhysSeg>, i: nat, how: How, j: nat)
    requires Table(t) && i < |t| && Possible(t[i], how) && j < |Without(t, i, how)|
    ensures var k := From(t, i, how, j);
            k < |t| && Without(t, i, how)[j] == (if k == i then Shrunk(t[i], how) else t[k])
  {}

  lemma OneSegment(t: seq<PhysSeg>, i: nat, j: nat, x: nat)
    requires Table(t) && i < |t| && j < |t| && In(t[i], x) && In(t[j], x)
    ensures i == j
  {}

  /** No frame of the shortened table is new, and the stolen one is gone. */
  lemma WithoutShrinks(t: seq<PhysSeg>, i: nat, how: How, j: nat, x: nat)
    requires Table(t) && i < |t| && Possible(t[i], how)
    requires j < |Without(t, i, how)| && In(Without(t, i, how)[j], x)
    ensures Managed(t, x) && x != FrameOf(t[i], how)
    ensures InAvail(Without(t, i, how)[j], x) ==> Available(t, x)
  {
    hide Without;
    WithoutAt(t, i, how, j);
    var k := From(t, i, how, j);
    SegmentOk(t, i);
    assert In(t[k], x);
    if k != i && x == FrameOf(t[i], how) { OneSegment(t, i, k, x); }
    assert InAvail(Without(t, i, how)[j], x) ==> InAvail(t[k], x);
  }

  /** Every other available frame stays available. */
  lemma WithoutKeeps(t: seq<PhysSeg>, i: nat, how: How, k: nat, x: nat)
    requires Table(t) && i < |t| && Possible(t[i], how) && k < |t|
    requires InAvail(t[k], x) && x != FrameOf(t[i], how)
    ensures Available(Without(t, i, how), x)
  {
    var u := Without(t, i, how);
    var j := if |u| < |t| && k > i then k - 1 else k;
    assert InAvail(u[j], x);
  }

  lemma WithoutFrames(t: seq<PhysSeg>, i: nat, how: How, x: nat)
    requires Table(t) && i < |t| && Possible(t[i], how)
    ensures SegOk(t[i])
    ensures Managed(Without(t, i, how), x) ==> Managed(t, x) && x != FrameOf(t[i], how)
    ensures Available(Without(t, i, how), x) <==> Available(t, x) && x != FrameOf(t[i], how)
  {
    hide Without, Table;
    SegmentOk(t, i);
    WithoutTable(t, i, how);
    var u := Without(t, i, how);
    if Managed(u, x) {
      var j :| 0 <= j < |u| && In(u[j], x);
      WithoutShrinks(t, i, how, j, x);
    }
    if Available(u, x) {
      var j :| 0 <= j < |u| && InAvail(u[j], x);
      SegmentOk(u, j);
      WithoutShrinks(t, i, how, j, x);
    }
    if Available(t, x) && x != FrameOf(t[i], how) {
      var k :| 0 <= k < |t| && InAvail(t[k], x);
      WithoutKeeps(t, i, how, k, x);
    }
  }

  /** Which frames of the segment stolen from go: f alone at either end, f and those before it in the middle. */
  lemma ShrunkFrames(g: PhysSeg, how: How, x: nat)
    requires SegOk(g) && Possible(g, how)
    ensures In(Shrunk(g, how), x) <==>
      In(g, x) && if how.Truncating? then x > g.availStart else if how.Front? then x != g.availStart else x != g.availEnd - 1
  {}

  /** Exactly those are lost. */
  lemma WithoutManaged(t: seq<PhysSeg>, i: nat, how: How, x: nat)
    requires Table(t) && i < |t| && Possible(t[i], how)
    ensures SegOk(t[i])
    ensures Managed(Without(t, i, how), x) <==> Managed(t, x) && (In(t[i], x) ==> In(Shrunk(t[i], how), x))
  {
    hide Without, Table, Shrunk;
    SegmentOk(t, i);
    var u := Without(t, i, how);
    if Managed(u, x) {
      var j :| 0 <= j < |u| && In(u[j], x);
      WithoutShrinks(t, i, how, j, x);
      WithoutAt(t, i, how, j);
      if In(t[i], x) {
        var k := From(t, i, how, j);
        ShrunkFrames(t[i], how, x);
        OneSegment(t, i, k, x);
      }
    }
    if Managed(t, x) && (In(t[i], x) ==> In(Shrunk(t[i], how), x)) {
      var k :| 0 <= k < |t| && In(t[k], x);
      StaysManaged(t, i, how, k, x);
    }
  }

  lemma StaysManaged(t: seq<PhysSeg>, i: nat, how: How, k: nat, x: nat)
    requires Table(t) && i < |t| && Possible(t[i], how) && k < |t| && In(t[k], x)
    requires SegOk(t[i]) && (In(t[i], x) ==> In(Shrunk(t[i], how), x))
    ensures Managed(Without(t, i, how), x)
  {
    var u := Without(t, i, how);
    var j := if |u| < |t| && k > i then k - 1 else k;
    assert In(u[j], x);
  }

  lemma WithoutTogether(t: seq<PhysSeg>, i: nat, how: How, x: nat, y: nat)
    requires Table(t) && i < |t| && Possible(t[i], how) && SegOk(t[i]) && SameSegment(Without(t, i, how), x, y)
    ensures SameSegment(t, x, y)
  {
    hide Without, Table, Shrunk;
    var u := Without(t, i, how);
    var j :| 0 <= j < |u| && In(u[j], x) && In(u[j], y);
    WithoutAt(t, i, how, j);
    ShrunkFrames(t[i], how, x);
    ShrunkFrames(t[i], how, y);
    assert In(t[From(t, i, how, j)], x) && In(t[From(t, i, how, j)], y);
  }

  lemma WithoutLost(t: seq<PhysSeg>, i: nat, how: How, x: nat)
    requires Table(t) && i < |t| && Possible(t[i], how) && SegOk(t[i])
    requires Managed(t, x) && !Managed(Without(t, i, how), x)
    ensures var f := FrameOf(t[i], how); x == f || (x < f && SameSegment(t, x, f))
  {
    hide Without, Table, Shrunk, Managed;
    WithoutManaged(t, i, how, x);
    ShrunkFrames(t[i], how, x);
    assert In(t[i], x) && In(t[i], FrameOf(t[i], how));
  }

  lemma WithoutIsStolen(t: seq<PhysSeg>, i: nat, how: How)
    requires Table(t) && i < |t| && Possible(t[i], how)
    ensures Stolen(t, Without(t, i, how), FrameOf(t[i], how))
  {
    hide Without, Size, AvailSize, Managed, Table, SameSegment;
    SegmentOk(t, i);
    WithoutTable(t, i, how);
    WithoutSizes(t, i, how);
    forall x: nat { WithoutFrames(t, i, how, x); }
    forall x: nat | Managed(t, x) && !Managed(Without(t, i, how), x)
      ensures var f := FrameOf(t[i], how); x == f || (x < f && SameSegment(t, x, f))
    {
      WithoutLost(t, i, how, x);
    }
    forall x: nat, y: nat | SameSegment(Without(t, i, how), x, y) ensures SameSegment(t, x, y) { WithoutTogether(t, i, how, x, y); }
    assert InAvail(t[i], FrameOf(t[i], how));
  }

  lemma SegmentOk(t: seq<PhysSeg>, i: nat)
    requires Table(t) && i < |t|
    ensures SegOk(t[i])
  {}

  lemma NothingPossible(t: seq<PhysSeg>)
    ensures (forall i :: 0 <= i < |t| ==> !Possible(t[i], Truncating)) <==> (forall f :: !Available(t, f))
  {
    if forall f :: !Available(t, f) {
      forall i | 0 <= i < |t| ensures !Possible(t[i], Truncating) {
        assert Possible(t[i], Truncating) ==> InAvail(t[i], t[i].availStart);
        assert !Available(t, t[i].availStart);
      }
    }
  }

  // ----- segments that begin or end with an available page

  lemma {:induction false} EndSplit(a: seq<PhysSeg>, b: seq<PhysSeg>, fl: nat)
    ensures EndPages(a + b, fl) == EndPages(a, fl) + EndPages(b, fl)
  {
    if b == [] {
      assert a + b == a;
    } else {
      assert (a + b)[..|a + b| - 1] == a + b[..|b| - 1];
      EndSplit(a, b[..|b| - 1], fl);
    }
  }

  lemma EndOne(g: PhysSeg, fl: nat)
    ensures EndPages([g], fl) == if g.freeList == fl && (g.availStart == g.start || g.availEnd == g.end) then g.availEnd - g.availStart else 0
  {
    assert [g][..0] == [];
  }

  lemma EndAround(t: seq<PhysSeg>, i: nat, fl: nat)
    requires i < |t|
    ensures EndPages(t, fl) == EndPages(t[..i], fl) + EndPages([t[i]], fl) + EndPages(t[i + 1..], fl)
  {
    hide EndPages;
    assert t == t[..i] + ([t[i]] + t[i + 1..]);
    EndSplit(t[..i], [t[i]] + t[i + 1..], fl);
    EndSplit([t[i]], t[i + 1..], fl);
  }

  /** There are such pages iff some segment of the list begins or ends with one. */
  lemma {:induction false} EndPagesIff(t: seq<PhysSeg>, fl: nat)
    requires forall i :: 0 <= i < |t| ==> SegOk(t[i])
    ensures EndPages(t, fl) >= 0
    ensures EndPages(t, fl) > 0 <==> exists i :: 0 <= i < |t| && t[i].freeList == fl && t[i].availStart < t[i].availEnd
                                                && (t[i].availStart == t[i].start || t[i].availEnd == t[i].end)
  {
    if t != [] {
      var n := |t| - 1;
      EndPagesIff(t[..n], fl);
      assert SegOk(t[n]);
      if i :| 0 <= i < |t| && t[i].freeList == fl && t[i].availStart < t[i].availEnd
              && (t[i].availStart == t[i].start || t[i].availEnd == t[i].end) {
        assert i < n ==> t[..n][i] == t[i];
      }
      if EndPages(t[..n], fl) > 0 {
        var i :| 0 <= i < n && t[..n][i].freeList == fl && t[..n][i].availStart < t[..n][i].availEnd
                 && (t[..n][i].availStart == t[..n][i].start || t[..n][i].availEnd == t[..n][i].end);
        assert t[i] == t[..n][i];
      }
    }
  }

  /** Such a page is what a steal from an end takes. */
  lemma EndStolen(t: seq<PhysSeg>, i: nat, how: How, fl: nat)
    requires i < |t| && SegOk(t[i]) && Possible(t[i], how) && !how.Truncating? && t[i].freeList == fl
    ensures EndPages(Without(t, i, how), fl) == EndPages(t, fl) - 1
  {
    hide EndPages;
    var u, g := Without(t, i, how), Shrunk(t[i], how);
    EndAround(t, i, fl);
    EndOne(t[i], fl);
    EndOne(g, fl);
    if g.start == g.end {
      EndSplit(t[..i], t[i + 1..], fl);
    } else {
      EndAround(u, i, fl);
      assert u[..i] == t[..i] && u[i + 1..] == t[i + 1..];
    }
  }

  /** So the first choice spares every other frame while there are such pages. */
  lemma FirstChoiceSpares(t: seq<PhysSeg>, fl: nat, i: nat, how: How)
    requires Table(t) && FirstChoice(t, fl, i, how)
    ensures SegOk(t[i]) && Spares(t, Without(t, i, how), FrameOf(t[i], how), fl)
  {
    hide Without, Managed, EndPages, Shrunk;
    SegmentOk(t, i);
    if EndPages(t, fl) > 0 {
      EndPagesIff(t, fl);
      assert !how.Truncating? by {
        var j :| 0 <= j < |t| && t[j].freeList == fl && t[j].availStart < t[j].availEnd
                 && (t[j].availStart == t[j].start || t[j].availEnd == t[j].end);
        assert Possible(t[j], Front) || Possible(t[j], Rear);
      }
      EndStolen(t, i, how, fl);
      forall x ensures Managed(Without(t, i, how), x) <==> Managed(t, x) && x != FrameOf(t[i], how) {
        WithoutManaged(t, i, how, x);
        ShrunkFrames(t[i], how, x);
        if x == FrameOf(t[i], how) { FrameManaged(t, i, how); }
      }
    }
  }

  lemma FrameManaged(t: seq<PhysSeg>, i: nat, how: How)
    requires i < |t| && SegOk(t[i]) && Possible(t[i], how)
    ensures In(t[i], FrameOf(t[i], how)) && !In(Shrunk(t[i], how), FrameOf(t[i], how))
  {}

  /** And where there are none, the frames before the stolen one in its segment go with it, and no others. */
  lemma FirstChoiceTruncates(t: seq<PhysSeg>, fl: nat, i: nat, how: How, x: nat)
    requires Table(t) && FirstChoice(t, fl, i, how) && EndPages(t, fl) == 0
    ensures SegOk(t[i]) && how.Truncating?
    ensures Managed(Without(t, i, how), x) <==>
      Managed(t, x) && !(x <= FrameOf(t[i], how) && SameSegment(t, x, FrameOf(t[i], how)))
  {
    hide Without, Managed, EndPages, Shrunk;
    SegmentOk(t, i);
    EndPagesIff(t, fl);
    WithoutManaged(t, i, how, x);
    ShrunkFrames(t[i], how, x);
    FrameManaged(t, i, how);
    if SameSegment(t, x, FrameOf(t[i], how)) {
      var j :| 0 <= j < |t| && In(t[j], x) && In(t[j], FrameOf(t[i], how));
      OneSegment(t, i, j, FrameOf(t[i], how));
    }
  }

  /** Which frame it is: of the first segment of the list that begins or ends with an available page, the first if it
      begins with one and else the last; where there is no such segment, the first available page of all. */
  lemma FirstChoiceFrame(t: seq<PhysSeg>, fl: nat, i: nat, how: How)
    requires Table(t) && FirstChoice(t, fl, i, how)
    ensures if exists j :: 0 <= j < |t| && t[j].freeList == fl && t[j].availStart < t[j].availEnd
                           && (t[j].availStart == t[j].start || t[j].availEnd == t[j].end)
            then && t[i].freeList == fl && t[i].availStart < t[i].availEnd
                 && (forall j :: 0 <= j < i && t[j].freeList == fl && t[j].availStart < t[j].availEnd ==>
                       t[j].availStart != t[j].start && t[j].availEnd != t[j].end)
                 && FrameOf(t[i], how) == if t[i].availStart == t[i].start then t[i].start else t[i].end - 1
            else && t[i].availStart < t[i].availEnd && FrameOf(t[i], how) == t[i].availStart
                 && forall j :: 0 <= j < i ==> t[j].availStart >= t[j].availEnd
  {
    SegmentOk(t, i);
    forall j | 0 <= j < |t| && t[j].availStart < t[j].availEnd && (t[j].availStart == t[j].start || t[j].availEnd == t[j].end)
      ensures Possible(t[j], Front) || Possible(t[j], Rear)
    {}
    assert forall j :: 0 <= j < i && t[j].availStart < t[j].availEnd ==> Possible(t[j], Truncating);
  }

  // ----- runs of steals

  /** Steals one after the other, free list 0 being asked first each time. */
  ghost predicate StealRun(ts: seq<seq<PhysSeg>>, fs: seq<nat>) {
    |ts| == |fs| + 1 && forall k :: 0 <= k < |fs| ==> Stolen(ts[k], ts[k + 1], fs[k]) && Spares(ts[k], ts[k + 1], fs[k], 0)
  }

  /** x lies before a stolen frame of its segment. */
  ghost predicate Behind(t: seq<PhysSeg>, fs: seq<nat>, x: nat) {
    exists k :: 0 <= k < |fs| && x < fs[k] && SameSegment(t, x, fs[k])
  }

  /** Over any run of boot-time steals every frame handed out was available at the start and is handed out
      once, none is left inside a segment, and the counts fall accordingly. */
  lemma {:induction false} RunConserves(ts: seq<seq<PhysSeg>>, fs: seq<nat>)
    requires StealRun(ts, fs)
    ensures forall j, k :: 0 <= j < k < |fs| ==> fs[j] != fs[k]
    ensures forall x :: x in fs ==> Available(ts[0], x) && !Managed(ts[|fs|], x)
    ensures forall x :: Available(ts[|fs|], x) <==> Available(ts[0], x) && x !in fs
    ensures forall x :: Managed(ts[|fs|], x) ==> Managed(ts[0], x)
    ensures AvailSize(ts[|fs|]) == AvailSize(ts[0]) - |fs|
    ensures Size(ts[|fs|]) <= Size(ts[0]) - |fs|
  {
    if |fs| > 0 {
      hide Size, AvailSize, Available, Managed, Table, SameSegment, Spares;
      var n := |fs| - 1;
      assert StealRun(ts[..|fs|], fs[..n]);
      RunConserves(ts[..|fs|], fs[..n]);
      assert ts[..|fs|][n] == ts[n] && ts[..|fs|][0] == ts[0];
      assert Stolen(ts[n], ts[n + 1], fs[n]);
      assert fs == fs[..n] + [fs[n]];
    }
  }

  /** No frame is lost without being handed out but those before one that was, in the same segment. */
  lemma {:induction false} RunLosses(ts: seq<seq<PhysSeg>>, fs: seq<nat>)
    requires StealRun(ts, fs)
    ensures forall x: nat :: Managed(ts[0], x) && !Managed(ts[|fs|], x) ==> x in fs || Behind(ts[0], fs, x)
    ensures forall x: nat, y: nat :: SameSegment(ts[|fs|], x, y) ==> SameSegment(ts[0], x, y)
  {
    if |fs| > 0 {
      hide Size, AvailSize, Available, Managed, Table, SameSegment, Spares;
      var n := |fs| - 1;
      assert StealRun(ts[..|fs|], fs[..n]);
      RunLosses(ts[..|fs|], fs[..n]);
      assert ts[..|fs|][n] == ts[n] && ts[..|fs|][0] == ts[0];
      assert Stolen(ts[n], ts[n + 1], fs[n]);
      forall x: nat | Managed(ts[0], x) && !Managed(ts[|fs|], x) ensures x in fs || Behind(ts[0], fs, x) {
        if !Managed(ts[n], x) {
          if Behind(ts[0], fs[..n], x) {
            var k :| 0 <= k < n && x < fs[..n][k] && SameSegment(ts[0], x, fs[..n][k]);
            assert fs[k] == fs[..n][k];
          } else {
            var k :| 0 <= k < n && fs[..n][k] == x;
            assert fs[k] == x;
          }
        } else {
          assert x == fs[n] || (x < fs[n] && SameSegment(ts[0], x, fs[n]));
        }
      }
    }
  }

  /** As long as segments of list 0 begin or end with that many available pages, a run costs the frames handed out and
      no other. */
  lemma {:induction false} RunSpares(ts: seq<seq<PhysSeg>>, fs: seq<nat>)
    requires StealRun(ts, fs) && |fs| <= EndPages(ts[0], 0)
    ensures EndPages(ts[|fs|], 0) == EndPages(ts[0], 0) - |fs|
    ensures forall x :: Managed(ts[|fs|], x) <==> Managed(ts[0], x) && x !in fs
  {
    if |fs| > 0 {
      hide EndPages, Managed, Table, Stolen;
      var n := |fs| - 1;
      assert StealRun(ts[..|fs|], fs[..n]);
      RunSpares(ts[..|fs|], fs[..n]);
      assert ts[..|fs|][n] == ts[n] && ts[..|fs|][0] == ts[0];
      assert Spares(ts[n], ts[n + 1], fs[n], 0);
      assert fs == fs[..n] + [fs[n]];
    }
  }

  // ----- loading a segment

  predicate Disjoint(g: PhysSeg, h: PhysSeg) {
    g.end <= h.start || h.end <= g.start
  }

  /** Where BSEARCH loading puts a segment starting at `start`. */
  ghost predicate InsertAt(t: seq<PhysSeg>, start: nat, k: nat) {
    && k <= |t|
    && (forall j :: 0 <= j < k ==> t[j].start <= start)
    && (k < |t| ==> start < t[k].start)
  }

  function Inserted(t: seq<PhysSeg>, g: PhysSeg, k: nat): seq<PhysSeg>
    requires k <= |t|
  {
    t[..k] + [g] + t[k..]
  }

  /** A segment that may join the table: well formed and overlapping no loaded one. */
  ghost predicate Joins(t: seq<PhysSeg>, g: PhysSeg) {
    SegOk(g) && forall i :: 0 <= i < |t| ==> Disjoint(t[i], g)
  }

  lemma InsertedKeepsOrder(t: seq<PhysSeg>, g: PhysSeg, k: nat)
    requires Table(t) && SegOk(g) && InsertAt(t, g.start, k)
    requires forall i :: 0 <= i < |t| ==> Disjoint(t[i], g)
    ensures Table(Inserted(t, g, k))
  {
    var u := Inserted(t, g, k);
    forall i, j | 0 <= i < j < |u| ensures u[i].end <= u[j].start {
      var i', j' := if i <= k then i else i - 1, if j <= k then j else j - 1;
      if i == k { assert Disjoint(t[j'], g); assert t[k].start <= t[j'].start; }
      if j == k { assert Disjoint(t[i'], g); }
    }
  }

  lemma OverlapBreaksOrder(t: seq<PhysSeg>, g: PhysSeg, k: nat, i: nat)
    requires k <= |t| && i < |t| && !Disjoint(t[i], g)
    ensures !Table(Inserted(t, g, k))
  {
    var u := Inserted(t, g, k);
    var i' := if i < k then i else i + 1;
    assert u[i'] == t[i] && u[k] == g;
  }

  lemma JoinsMeans(t: seq<PhysSeg>, g: PhysSeg)
    ensures Joins(t, g) <==>
      && g.start < g.end && g.start <= g.availStart <= g.availEnd <= g.end
      && forall i :: 0 <= i < |t| ==> t[i].end <= g.start || g.end <= t[i].start
  {
    forall i | 0 <= i < |t| ensures Disjoint(t[i], g) <==> t[i].end <= g.start || g.end <= t[i].start {}
  }

  /** The table stays sorted exactly when the new segment is well formed and overlaps no loaded one. */
  lemma LoadKeepsTableIff(t: seq<PhysSeg>, g: PhysSeg, k: nat)
    requires Table(t) && InsertAt(t, g.start, k)
    ensures Table(Inserted(t, g, k)) <==> Joins(t, g)
    ensures Joins(t, g) <==>
      && g.start < g.end && g.start <= g.availStart <= g.availEnd <= g.end
      && forall i :: 0 <= i < |t| ==> t[i].end <= g.start || g.end <= t[i].start
  {
    hide Disjoint, SegOk, Sorted;
    JoinsMeans(t, g);
    assert Inserted(t, g, k)[k] == g;
    if SegOk(g) && forall i :: 0 <= i < |t| ==> Disjoint(t[i], g) {
      InsertedKeepsOrder(t, g, k);
    } else if i :| 0 <= i < |t| && !Disjoint(t[i], g) {
      OverlapBreaksOrder(t, g, k, i);
    }
  }

  // ----- looking a frame up

  /** psi and off say where frame f is, or psi is -1. */
  ghost predicate Finds(t: seq<PhysSeg>, f: nat, psi: int, off: int) {
    if psi == -1 then !Managed(t, f)
    else 0 <= psi < |t| && In(t[psi], f) && off == f - t[psi].start
  }

  /** On a sorted table there is one answer: binary search, linear search and any other correct search agree. */
  lemma FindsUnique(t: seq<PhysSeg>, f: nat, p: int, o: int, q: int, r: int)
    requires Table(t) && Finds(t, f, p, o) && Finds(t, f, q, r)
    ensures p == q && (p != -1 ==> o == r)
  {
    hide Table;
    if p != -1 && q != -1 { OneSegment(t, p, q, f); }
  }

  // ----- laying out the vm_page array

  /** t with each segment's `pgs` pointing just behind the pages of the segments before it. */
  ghost predicate Placed(t: seq<PhysSeg>, u: seq<PhysSeg>, n: nat) {
    && |u| == |t| && n <= |t|
    && (forall i :: 0 <= i < n ==> u[i] == t[i].(pgs := Size(t[..i])))
    && (forall i :: n <= i < |t| ==> u[i] == t[i])
  }

  /** Position of frame f's page structure. */
  ghost function PageIndex(t: seq<PhysSeg>, i: nat, f: nat): int
    requires i < |t| && In(t[i], f)
  {
    Size(t[..i]) + (f - t[i].start)
  }

  /** The vm_page array describes the first n segments: page pgs + k of a segment is its frame start + k. */
  ghost predicate Described(t: seq<PhysSeg>, phys: seq<nat>, n: nat) {
    && n <= |t| && Size(t[..n]) <= |phys|
    && forall i: nat, f: nat :: i < n && In(t[i], f) ==>
         0 <= PageIndex(t, i, f) < |phys| && phys[PageIndex(t, i, f)] == f
  }

  lemma {:induction false} SizeMonotone(t: seq<PhysSeg>, i: nat, j: nat)
    requires Table(t) && i <= j <= |t|
    ensures 0 <= Size(t[..i]) <= Size(t[..j])
    ensures i < j ==> Size(t[..i]) + (t[i].end - t[i].start) <= Size(t[..j])
  {
    hide Sorted;
    if i < j {
      assert t[..j][..j - 1] == t[..j - 1];
      SizeMonotone(t, i, j - 1);
      if i < j - 1 { assert SegOk(t[j - 1]); }
    } else if i > 0 {
      assert t[..i][..i - 1] == t[..i - 1];
      SizeMonotone(t, i - 1, i - 1);
      assert SegOk(t[i - 1]);
    }
  }

  /** OpenBSD's layout loop finds a segment with more frames than structures left, and panics, exactly when all
      segments together have more frames than there are structures. */
  lemma LostPagesIff(t: seq<PhysSeg>, pagecount: nat)
    requires Table(t)
    ensures (exists i :: 0 <= i < |t| && Lost(t, pagecount, i)) <==> Size(t) > pagecount
  {
    hide Size, Table;
    if i :| 0 <= i < |t| && Lost(t, pagecount, i) {
      SizeMonotone(t, i, |t|);
      assert t[..|t|] == t;
    }
    if Size(t) > pagecount {
      assert t[..|t|] == t;
      NoFrames();
      var i := FirstLost(t, pagecount, |t|);
    }
  }

  /** Segment i has more frames than the structures the earlier segments left. */
  predicate Lost(t: seq<PhysSeg>, pagecount: nat, i: nat)
    requires i < |t|
  {
    Size(t[..i]) <= pagecount && t[i].end - t[i].start > pagecount - Size(t[..i])
  }

  lemma {:induction false} FirstLost(t: seq<PhysSeg>, pagecount: nat, n: nat) returns (i: nat)
    requires 0 < n <= |t| && Size(t[..n]) > pagecount
    ensures i < |t| && Lost(t, pagecount, i)
  {
    SizeStep(t, n - 1);
    assert Size(t[..0]) == 0;
    if n > 1 && Size(t[..n - 1]) > pagecount {
      i := FirstLost(t, pagecount, n - 1);
    } else {
      i := n - 1;
    }
  }

  lemma NoFrames()
    ensures Size([]) == 0
  {}

  lemma SizeStep(t: seq<PhysSeg>, i: nat)
    requires i < |t|
    ensures Size(t[..i + 1]) == Size(t[..i]) + (t[i].end - t[i].start)
    ensures AvailSize(t[..i + 1]) == AvailSize(t[..i]) + (t[i].availEnd - t[i].availStart)
  {
    assert t[..i + 1][..i] == t[..i];
  }

  /** No two frames share a page structure. */
  lemma PageIndexInjective(t: seq<PhysSeg>, i: nat, f: nat, j: nat, g: nat)
    requires Table(t) && i < |t| && j < |t| && In(t[i], f) && In(t[j], g)
    requires PageIndex(t, i, f) == PageIndex(t, j, g)
    ensures i == j && f == g
  {
    hide Table, Size;
    if i < j { SizeMonotone(t, i, j); }
    if j < i { SizeMonotone(t, j, i); }
  }

  /** Every structure below Size(t) belongs to some frame. */
  lemma {:induction false} PageIndexOnto(t: seq<PhysSeg>, n: nat, k: nat) returns (i: nat, f: nat)
    requires Table(t) && n <= |t| && k < Size(t[..n])
    ensures i < n && In(t[i], f) && PageIndex(t, i, f) == k
  {
    hide Table;
    SizeMonotone(t, 0, n);
    if n > 0 {
      SizeStep(t, n - 1);
      if k < Size(t[..n - 1]) {
        i, f := PageIndexOnto(t, n - 1, k);
      } else {
        i, f := n - 1, t[n - 1].start + (k - Size(t[..n - 1]));
      }
    }
  }

  lemma {:induction false} SameSize(t: seq<PhysSeg>, u: seq<PhysSeg>)
    requires |t| == |u| && forall i :: 0 <= i < |t| ==> u[i] == t[i].(pgs := u[i].pgs)
    ensures Size(t) == Size(u) && AvailSize(t) == AvailSize(u)
    ensures Table(t) <==> Table(u)
    ensures forall f :: (Managed(t, f) <==> Managed(u, f)) && (Available(t, f) <==> Available(u, f))
  {
    SameSums(t, u);
    hide Size, AvailSize;
    forall f: nat ensures (Managed(t, f) <==> Managed(u, f)) && (Available(t, f) <==> Available(u, f)) {
      forall i | 0 <= i < |t| ensures (In(t[i], f) <==> In(u[i], f)) && (InAvail(t[i], f) <==> InAvail(u[i], f)) {}
    }
    forall i | 0 <= i < |t| ensures SegOk(t[i]) <==> SegOk(u[i]) {}
    forall i, j | 0 <= i < j < |t| ensures t[i].end <= t[j].start <==> u[i].end <= u[j].start {}
  }

  lemma {:induction false} SameSums(t: seq<PhysSeg>, u: seq<PhysSeg>)
    requires |t| == |u| && forall i :: 0 <= i < |t| ==> u[i] == t[i].(pgs := u[i].pgs)
    ensures Size(t) == Size(u) && AvailSize(t) == AvailSize(u)
  {
    if t != [] { SameSums(t[..|t| - 1], u[..|u| - 1]); }
  }

  lemma AvailablePrefix(t: seq<PhysSeg>, n: nat, f: nat)
    requires n <= |t|
    ensures Available(t[..n], f) ==> Available(t, f)
  {
    forall i: nat | i < n && InAvail(t[..n][i], f) ensures Available(t, f) { assert InAvail(t[i], f); }
  }

  lemma {:induction false} NoneAvailable(t: seq<PhysSeg>)
    requires Table(t) && forall f :: !Available(t, f)
    ensures AvailSize(t) == 0
  {
    if t != [] {
      var n := |t| - 1;
      forall f: nat ensures !Available(t[..n], f) { AvailablePrefix(t, n, f); }
      NoneAvailable(t[..n]);
      assert !Available(t, t[n].availStart);
    }
  }

  /** Stealing empties the table only if it held a single available frame. */
  lemma LastFrame(t: seq<PhysSeg>, i: nat, how: How)
    requires Table(t) && i < |t| && Possible(t[i], how) && SegOk(t[i]) && Without(t, i, how) == []
    ensures AvailSize(t) == 1
  {
    WithoutSizes(t, i, how);
  }

  /** Looking up the frame a page structure describes gives that structure back, and looking up any other
      managed frame gives a structure describing it. */
  lemma LookupInverts(t: seq<PhysSeg>, u: seq<PhysSeg>, phys: seq<nat>, f: nat, psi: int, off: int)
    requires Table(t) && Placed(t, u, |t|) && Described(t, phys, |t|) && Finds(u, f, psi, off) && psi != -1
    ensures 0 <= u[psi].pgs + off < |phys| && phys[u[psi].pgs + off] == f
  {
    hide Size, Table;
    assert In(t[psi], f);
    assert u[psi].pgs + off == PageIndex(t, psi, f);
  }

  lemma StructureFound(t: seq<PhysSeg>, u: seq<PhysSeg>, phys: seq<nat>, k: nat, psi: int, off: int)
    requires Table(t) && Placed(t, u, |t|) && Described(t, phys, |t|)
    requires k < Size(t) <= |phys| && Finds(u, phys[k], psi, off)
    ensures psi != -1 && u[psi].pgs + off == k
  {
    hide Size, Table;
    assert t[..|t|] == t;
    var i, f := PageIndexOnto(t, |t|, k);
    assert phys[k] == f && In(u[i], f);
    assert In(t[psi], f);
    OneSegment(t, i, psi, f);
  }
}
