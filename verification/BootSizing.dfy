/** The arithmetic of uvm_page_init: how many vm_page structures are allocated, how many pages holding
    them are stolen, and when what is left needs no more structures than were allocated. */
module BootSizing {

  /** pagecount = ((freepages + 1) << PAGE_SHIFT) / (PAGE_SIZE + sizeof(struct vm_page)) */
  function PageCount(freepages: nat, pageSize: nat, structSize: nat): nat
    requires pageSize > 0
  {
    ((freepages + 1) * pageSize) / (pageSize + structSize)
  }

  /** round_page(bytes) in pages. */
  function PagesFor(bytes: nat, pageSize: nat): nat
    requires pageSize > 0
  {
    (bytes + pageSize - 1) / pageSize
  }

  /** Pages stolen for the bucket headers and the page array. */
  function PagesStolen(freepages: nat, pageSize: nat, structSize: nat, bucketBytes: nat): nat
    requires pageSize > 0
  {
    PagesFor(bucketBytes + PageCount(freepages, pageSize, structSize) * structSize, pageSize)
  }

  /** After the steal at most freepages - stolen pages are left to describe. */
  predicate Enough(freepages: nat, pageSize: nat, structSize: nat, bucketBytes: nat)
    requires pageSize > 0
  {
    freepages - PagesStolen(freepages, pageSize, structSize, bucketBytes) <= PageCount(freepages, pageSize, structSize)
  }

  lemma DivBounds(a: nat, b: nat)
    requires b > 0
    ensures b * (a / b) <= a < b * (a / b) + b
  {}

  lemma MulLe(a: nat, b: int, c: int)
    requires b <= c
    ensures a * b <= a * c
  {
    assert a * (c - b) >= 0;
  }

  /** The "+ 1 fudge factor" is enough for every memory size as long as a vm_page fits in a page. */
  lemma FudgeFactorEnough(freepages: nat, pageSize: nat, structSize: nat, bucketBytes: nat)
    requires 0 < structSize <= pageSize
    ensures Enough(freepages, pageSize, structSize, bucketBytes)
    ensures var count := (freepages + 1) * pageSize / (pageSize + structSize);
            freepages - (bucketBytes + count * structSize + pageSize - 1) / pageSize <= count
  {
    var f, p, s := freepages, pageSize, structSize;
    var c, t := PageCount(f, p, s), PagesStolen(f, p, s, bucketBytes);
    DivBounds((f + 1) * p, p + s);
    DivBounds(bucketBytes + c * s + p - 1, p);
    ScaledEnough(f, p, s, c, t, bucketBytes);
  }

  lemma ScaledEnough(f: nat, p: nat, s: nat, c: nat, t: nat, b: nat)
    requires 0 < s <= p
    requires (f + 1) * p < (p + s) * c + (p + s)
    requires b + c * s + p - 1 < p * t + p
    ensures f - t <= c
  {
    assert (p + s) * c == p * c + c * s;
    assert (f + 1) * p == p * f + p;
    assert p * f < p * c + p * t + p;
    assert p * (c + t + 1) == p * c + p * t + p;
    if f - t > c { MulLe(p, c + t + 1, f); }
  }

  /** Without bucket headers (OpenBSD) the sizing works for every memory size exactly when sizeof(struct vm_page)
      is at most a page: with a larger structure even a single free page is lost. */
  lemma FudgeFactorIff(pageSize: nat, structSize: nat)
    requires pageSize > 0 && structSize > 0
    ensures (forall freepages: nat :: Enough(freepages, pageSize, structSize, 0)) <==> structSize <= pageSize
  {
    if structSize <= pageSize {
      forall freepages: nat { FudgeFactorEnough(freepages, pageSize, structSize, 0); }
    } else {
      OnePageLost(pageSize, structSize);
    }
  }

  lemma OnePageLost(pageSize: nat, structSize: nat)
    requires 0 < pageSize < structSize
    ensures !Enough(1, pageSize, structSize, 0)
  {
    assert (1 + 1) * pageSize / (pageSize + structSize) == 0;
    assert PageCount(1, pageSize, structSize) == 0;
    assert (0 + pageSize - 1) / pageSize == 0;
  }
}
