/** The pages of an AGP memory block, the spans of a translation table, and what keeps them in step (agp.c). */
module AgpPages {
  import opened Gtt

  // ------------------------------------------------------------------ DMA segments

  datatype Segment = Segment(addr: bv64, len: nat)

  /** The address one page further, as a bus_addr_t. */
  function PageAfter(pa: bv64): bv64 { pa + 4096 }

  /** The bus addresses of n pages. */
  function PagesFrom(addr: bv64, n: nat): (ps: seq<bv64>)
    ensures |ps| == n && (n > 0 ==> ps[0] == addr)
    decreases n
  {
    if n == 0 then [] else [addr] + PagesFrom(PageAfter(addr), n - 1)
  }

  lemma {:induction false} PagesFromAt(addr: bv64, n: nat, j: nat)
    requires j + 1 < n
    ensures PagesFrom(addr, n)[j + 1] == PageAfter(PagesFrom(addr, n)[j])
    decreases n
  {
    hide PageAfter;
    if j > 0 { PagesFromAt(PageAfter(addr), n - 1, j - 1); }
  }

  /** The bus addresses of the whole pages of one segment. */
  function SegPages(s: Segment): (ps: seq<bv64>)
    ensures |ps| == s.len / AGP_PAGE_SIZE
  {
    PagesFrom(s.addr, s.len / AGP_PAGE_SIZE)
  }

  /** The pages of the concatenated segments. */
  function PageList(segs: seq<Segment>): seq<bv64> {
    if segs == [] then [] else PageList(segs[..|segs| - 1]) + SegPages(segs[|segs| - 1])
  }

  /** What bus_dma gives: whole pages, at least as many as asked for. */
  predicate Supplies(segs: seq<Segment>, size: nat) {
    (forall i :: 0 <= i < |segs| ==> segs[i].len % AGP_PAGE_SIZE == 0) && |PageList(segs)| >= size / AGP_PAGE_SIZE
  }

  lemma {:induction false} PageListGrows(segs: seq<Segment>, i: nat)
    requires i <= |segs|
    ensures PageList(segs[..i]) <= PageList(segs)
  {
    if i < |segs| {
      PageListGrows(segs[..|segs| - 1], i);
      assert segs[..|segs| - 1][..i] == segs[..i];
    } else {
      assert segs[..i] == segs;
    }
  }

  /** The pages of a segment are the ones from p on. */
  predicate Within(pages: seq<bv64>, p: nat, seg: Segment) {
    p + seg.len / AGP_PAGE_SIZE <= |pages| && pages[p..p + seg.len / AGP_PAGE_SIZE] == SegPages(seg)
  }

  lemma WithinAt(pages: seq<bv64>, p: nat, seg: Segment, q: nat)
    requires Within(pages, p, seg) && q < seg.len / AGP_PAGE_SIZE
    ensures p + q < |pages|
    ensures pages[p + q] == if q == 0 then seg.addr else PageAfter(pages[p + q - 1])
  {
    hide PageAfter;
    assert pages[p + q] == SegPages(seg)[q];
    if q > 0 {
      assert pages[p + q - 1] == SegPages(seg)[q - 1];
      PagesFromAt(seg.addr, seg.len / AGP_PAGE_SIZE, q - 1);
    }
  }

  /** Segment i's pages come after those of the segments before it. */
  lemma PagesOfSegment(segs: seq<Segment>, i: nat)
    requires i < |segs|
    ensures Within(PageList(segs), |PageList(segs[..i])|, segs[i])
  {
    PageListGrows(segs, i + 1);
    assert segs[..i + 1][..i] == segs[..i];
    var p := |PageList(segs[..i])|;
    assert PageList(segs)[p..p + |SegPages(segs[i])|] == PageList(segs[..i + 1])[p..];
  }

  /** The list of pages, segment by segment: the first page of a segment is at its address and comes after the pages of
      the segments before it; there are no others ... */
  lemma PagesAre(segs: seq<Segment>, i: nat)
    requires i < |segs|
    ensures var ps, p, n := PageList(segs), |PageList(segs[..i])|, segs[i].len / 4096;
      && (i == 0 ==> p == 0) && p + n == |PageList(segs[..i + 1])| <= |ps| && (i + 1 == |segs| ==> p + n == |ps|)
      && (n > 0 ==> ps[p] == segs[i].addr)
  {
    hide PageAfter, Within;
    var ps, p, n := PageList(segs), |PageList(segs[..i])|, segs[i].len / 4096;
    PagesOfSegment(segs, i);
    PageListStep(segs, i);
    PageListGrows(segs, i + 1);
    assert segs[..|segs|] == segs;
    if n > 0 { WithinAt(ps, p, segs[i], 0); }
  }

  /** ... and each further page of a segment is 4096 bytes on. */
  lemma PageFollows(segs: seq<Segment>, i: nat, q: nat)
    requires i < |segs| && |PageList(segs[..i])| < q < |PageList(segs[..i + 1])|
    ensures q < |PageList(segs)| && PageList(segs)[q] == PageList(segs)[q - 1] + 4096
  {
    hide PageAfter, Within, PageList;
    PagesOfSegment(segs, i);
    PageListStep(segs, i);
    WithinAt(PageList(segs), |PageList(segs[..i])|, segs[i], q - |PageList(segs[..i])|);
    NextPage(PageList(segs)[q - 1]);
  }

  lemma NextPage(pa: bv64)
    ensures PageAfter(pa) == pa + 4096
  {}

  lemma PageListStep(segs: seq<Segment>, i: nat)
    requires i < |segs|
    ensures |PageList(segs[..i + 1])| == |PageList(segs[..i])| + segs[i].len / AGP_PAGE_SIZE
  {
    assert segs[..i + 1][..i] == segs[..i];
  }

  // ------------------------------------------------------------------ runs of entries

  /** bind_page succeeds for page number i and this address. */
  predicate Bindable(d: Device, i: nat, pa: bv64) {
    InTable(d, i * AGP_PAGE_SIZE) && Entry(d, pa).Some?
  }

  predicate AllBindable(d: Device, base: nat, pages: seq<bv64>) {
    forall k :: 0 <= k < |pages| ==> Bindable(d, base + k, pages[k])
  }

  function Entries(d: Device, base: nat, pages: seq<bv64>): (es: seq<bv32>)
    requires AllBindable(d, base, pages)
    ensures |es| == |pages|
  {
    seq(|pages|, k requires 0 <= k < |pages| => Packing(d, base, pages, k))
  }

  function Packing(d: Device, base: nat, pages: seq<bv64>, k: nat): bv32
    requires AllBindable(d, base, pages) && k < |pages|
  {
    assert Bindable(d, base + k, pages[k]);
    Entry(d, pages[k]).value
  }

  function Scribbles(d: Device, n: nat): (es: seq<bv32>)
    requires GoodDevice(d)
    ensures |es| == n && forall k :: 0 <= k < n ==> es[k] == Scribble(d)
  {
    seq(n, _ => Scribble(d))
  }

  /** The table with a run of entries from base on. */
  function PutRun(gtt: seq<bv32>, base: nat, es: seq<bv32>): (r: seq<bv32>)
    ensures |r| == |gtt|
    ensures forall i :: 0 <= i < |gtt| ==> r[i] == if base <= i < base + |es| then es[i - base] else gtt[i]
  {
    seq(|gtt|, i requires 0 <= i < |gtt| => if base <= i < base + |es| then es[i - base] else gtt[i])
  }

  lemma PutRunStep(gtt: seq<bv32>, base: nat, es: seq<bv32>, e: bv32)
    requires base + |es| < |gtt|
    ensures PutRun(gtt, base, es)[base + |es| := e] == PutRun(gtt, base, es + [e])
  {}

  lemma EntriesStep(d: Device, base: nat, pages: seq<bv64>, pa: bv64)
    requires AllBindable(d, base, pages) && Bindable(d, base + |pages|, pa)
    ensures AllBindable(d, base, pages + [pa])
    ensures Entries(d, base, pages + [pa]) == Entries(d, base, pages) + [Entry(d, pa).value]
  {
    hide Entry, InTable;
    assert Bindable(d, base + |pages|, pa);
  }

  /** Overwriting a run by another from the same start: the longer one wins. */
  lemma PutRunTwice(gtt: seq<bv32>, base: nat, es: seq<bv32>, fs: seq<bv32>)
    requires |es| <= |fs|
    ensures PutRun(PutRun(gtt, base, es), base, fs) == PutRun(gtt, base, fs)
  {}

  /** The rollback restores the table iff what the failed bind overwrote was scribble. */
  lemma RollbackRestoresIff(d: Device, gtt: seq<bv32>, base: nat, f: nat)
    requires GoodDevice(d) && base + f <= |gtt|
    ensures PutRun(gtt, base, Scribbles(d, f)) == gtt <==> forall i :: base <= i < base + f ==> gtt[i] == Scribble(d)
  {
    hide Scribble, GoodDevice;
    var r := PutRun(gtt, base, Scribbles(d, f));
    if r == gtt {
      forall i | base <= i < base + f ensures gtt[i] == Scribble(d) {
        assert r[i] == Scribbles(d, f)[i - base];
      }
    }
  }

  // ------------------------------------------------------------------ spans

  /** The entries a bound block holds, from page number base on; an unbound block holds none. */
  datatype Span = Span(base: nat, es: seq<bv32>)

  const NO_SPAN := Span(0, [])

  predicate In(s: Span, i: int) {
    s.base <= i < s.base + |s.es|
  }

  ghost predicate Covered(spans: seq<Span>, i: int) {
    exists m :: 0 <= m < |spans| && In(spans[m], i)
  }

  /** No entry belongs to two blocks. */
  ghost predicate Apart(spans: seq<Span>) {
    forall m, n, i: int :: 0 <= m < n < |spans| ==> !(In(spans[m], i) && In(spans[n], i))
  }

  /** The range [base, base + n) holds no block. */
  ghost predicate Clear(spans: seq<Span>, base: nat, n: nat) {
    forall i :: base <= i < base + n ==> !Covered(spans, i)
  }

  predicate Shows(gtt: seq<bv32>, s: Span, i: int)
    requires In(s, i)
  {
    i < |gtt| && gtt[i] == s.es[i - s.base]
  }

  /** Every entry of a bound block is that block's page, and every other initialised one is the scribble page. */
  ghost predicate Matches(gtt: seq<bv32>, spans: seq<Span>, lo: nat, hi: nat, scribble: bv32) {
    && (forall m, i :: 0 <= m < |spans| && In(spans[m], i) ==> Shows(gtt, spans[m], i))
    && (forall i :: lo <= i < hi && i < |gtt| && !Covered(spans, i) ==> gtt[i] == scribble)
  }

  lemma CoveredAfter(spans: seq<Span>, m: nat, s: Span, i: int)
    requires m < |spans|
    ensures Covered(spans[m := s], i) ==> In(s, i) || Covered(spans, i)
    ensures In(s, i) ==> Covered(spans[m := s], i)
    ensures Covered(spans, i) && !In(spans[m], i) ==> Covered(spans[m := s], i)
  {
    if In(s, i) {
      assert In(spans[m := s][m], i);
    }
    if Covered(spans, i) && !In(spans[m], i) {
      var k :| 0 <= k < |spans| && In(spans[k], i);
      assert In(spans[m := s][k], i);
    }
    if Covered(spans[m := s], i) {
      var k :| 0 <= k < |spans| && In(spans[m := s][k], i);
      assert k != m ==> In(spans[k], i);
    }
  }

  lemma BindKeeps(gtt: seq<bv32>, spans: seq<Span>, lo: nat, hi: nat, scribble: bv32, m: nat, s: Span)
    requires Matches(gtt, spans, lo, hi, scribble) && Apart(spans) && m < |spans| && spans[m] == NO_SPAN
    requires Clear(spans, s.base, |s.es|) && (s.es == [] || s.base + |s.es| <= |gtt|)
    ensures Matches(PutRun(gtt, s.base, s.es), spans[m := s], lo, hi, scribble) && Apart(spans[m := s])
  {
    hide Covered;
    var spans2 := spans[m := s];
    var gtt2 := PutRun(gtt, s.base, s.es);
    forall n, i: int | 0 <= n < |spans| && n != m && In(spans[n], i) ensures !In(s, i) {
      CoveredBy(spans, n, i);
    }
    forall n, i: int | 0 <= n < |spans2| && In(spans2[n], i) ensures Shows(gtt2, spans2[n], i) {
      if n != m {
        assert In(spans[n], i) && !In(s, i);
        assert Shows(gtt, spans[n], i);
        assert i < |gtt|;
        assert gtt2[i] == gtt[i];
      } else {
        assert gtt2[i] == s.es[i - s.base];
      }
    }
    forall i | lo <= i < hi && i < |gtt2| && !Covered(spans2, i) ensures gtt2[i] == scribble {
      CoveredAfter(spans, m, s, i);
      assert !In(spans[m], i);
    }
  }

  lemma CoveredBy(spans: seq<Span>, m: nat, i: int)
    requires m < |spans| && In(spans[m], i)
    ensures Covered(spans, i)
  {}

  lemma RollbackKeeps(gtt: seq<bv32>, spans: seq<Span>, lo: nat, hi: nat, d: Device, base: nat, f: nat)
    requires GoodDevice(d) && Matches(gtt, spans, lo, hi, Scribble(d)) && Clear(spans, base, f)
    ensures Matches(PutRun(gtt, base, Scribbles(d, f)), spans, lo, hi, Scribble(d))
  {
    hide Covered, Scribble, GoodDevice;
    forall m, i: int | 0 <= m < |spans| && In(spans[m], i) ensures !(base <= i < base + f) {
      CoveredBy(spans, m, i);
    }
  }

  lemma UnbindKeeps(gtt: seq<bv32>, spans: seq<Span>, lo: nat, hi: nat, d: Device, m: nat)
    requires GoodDevice(d) && Matches(gtt, spans, lo, hi, Scribble(d)) && Apart(spans) && m < |spans|
    ensures Matches(PutRun(gtt, spans[m].base, Scribbles(d, |spans[m].es|)), spans[m := NO_SPAN], lo, hi, Scribble(d))
    ensures Apart(spans[m := NO_SPAN])
  {
    hide Covered, Scribble, GoodDevice;
    var spans2 := spans[m := NO_SPAN];
    var gtt2 := PutRun(gtt, spans[m].base, Scribbles(d, |spans[m].es|));
    forall n, i: int | 0 <= n < |spans| && n != m && In(spans[n], i) ensures !In(spans[m], i) {}
    forall i | lo <= i < hi && i < |gtt2| && !Covered(spans2, i) ensures gtt2[i] == Scribble(d) {
      CoveredAfter(spans, m, NO_SPAN, i);
    }
  }

  /** A new unbound block, and the removal of one, change nothing. */
  lemma AppendKeeps(gtt: seq<bv32>, spans: seq<Span>, lo: nat, hi: nat, scribble: bv32)
    requires Matches(gtt, spans, lo, hi, scribble) && Apart(spans)
    ensures Matches(gtt, spans + [NO_SPAN], lo, hi, scribble) && Apart(spans + [NO_SPAN])
  {
    hide Covered;
    forall i: int | Covered(spans, i) ensures Covered(spans + [NO_SPAN], i) {
      CoveredMap(spans, spans + [NO_SPAN], i);
    }
  }

  lemma CoveredMap(spans: seq<Span>, spans2: seq<Span>, i: int)
    requires Covered(spans, i)
    requires forall k :: 0 <= k < |spans| ==> spans[k] in spans2 || spans[k] == NO_SPAN
    ensures Covered(spans2, i)
  {
    var k :| 0 <= k < |spans| && In(spans[k], i);
    var n :| 0 <= n < |spans2| && spans2[n] == spans[k];
  }

  lemma RemoveKeeps(gtt: seq<bv32>, spans: seq<Span>, lo: nat, hi: nat, scribble: bv32, m: nat)
    requires Matches(gtt, spans, lo, hi, scribble) && Apart(spans) && m < |spans| && spans[m] == NO_SPAN
    ensures var spans2 := spans[..m] + spans[m + 1..];
            Matches(gtt, spans2, lo, hi, scribble) && Apart(spans2)
  {
    hide Covered;
    var spans2 := spans[..m] + spans[m + 1..];
    forall k | 0 <= k < |spans| ensures spans[k] in spans2 || spans[k] == NO_SPAN {
      assert k < m ==> spans2[k] == spans[k];
      assert k > m ==> spans2[k - 1] == spans[k];
    }
    forall i: int | Covered(spans, i) ensures Covered(spans2, i) {
      CoveredMap(spans, spans2, i);
    }
    forall a, b, i: int | 0 <= a < b < |spans2| ensures !(In(spans2[a], i) && In(spans2[b], i)) {
      var a2, b2 := if a < m then a else a + 1, if b < m then b else b + 1;
      assert spans2[a] == spans[a2] && spans2[b] == spans[b2];
    }
  }
}
