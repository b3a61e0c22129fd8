/** Pages in memory objects (uvm_page.c): each object's offset tree and page list, and the usage counters. */
module ObjectPages {
  import opened PageLists

  datatype Kind = Vnode | Text | Aobj | Other         // Text: a vnode mapped executable

  /** The part of struct vm_page that says who owns the page; `anon` stands for uanon != NULL. */
  datatype Page = Page(uobject: int, offset: int, tabled: bool, anon: bool)

  const NOBODY := -1

  /** struct uvm_object: rb_tree, memq, uo_npages, and whether the vnode is held because of its pages. */
  datatype Object = Object(kind: Kind, tree: map<int, nat>, memq: seq<nat>, npages: int, held: bool)

  predicate IsVnode(kind: Kind) { kind.Vnode? || kind.Text? }

  predicate InObject(pg: Page, o: int) {
    pg.tabled && pg.uobject == o
  }

  /** Tree and list hold the same pages, those tabled in the object; they are counted; a vnode is held iff it has some. */
  ghost predicate Coherent(pages: seq<Page>, ob: Object, o: int) {
    && Distinct(ob.memq) && ob.npages == |ob.memq|
    && (forall p: nat :: p in ob.memq ==> p < |pages| && InObject(pages[p], o))
    && (forall p: nat :: p < |pages| && InObject(pages[p], o) ==>
          p in ob.memq && pages[p].offset in ob.tree && ob.tree[pages[p].offset] == p)
    && (forall off :: off in ob.tree ==> TreeEntry(pages, ob, o, off))
    && (ob.held <==> IsVnode(ob.kind) && ob.npages > 0)
  }

  ghost predicate TreeEntry(pages: seq<Page>, ob: Object, o: int, off: int)
    requires off in ob.tree
  {
    ob.tree[off] < |pages| && InObject(pages[ob.tree[off]], o) && pages[ob.tree[off]].offset == off
  }

  /** A page belongs to an object iff it is tabled, and never to an object and an anon at once. */
  predicate OwnerOk(pg: Page, nobjects: nat) {
    && (pg.tabled <==> pg.uobject != NOBODY)
    && (pg.tabled ==> 0 <= pg.uobject < nobjects && !pg.anon)
  }

  /** TAILQ_INSERT_AFTER, or TAILQ_INSERT_TAIL for NULL. */
  function InsertAfter(q: seq<nat>, at: int, p: nat): seq<nat> {
    if q == [] then [p]
    else if q[0] == at then [at, p] + q[1..]
    else [q[0]] + InsertAfter(q[1..], at, p)
  }

  lemma {:induction false} InsertAfterAt(q: seq<nat>, i: nat, p: nat)
    requires i < |q| && Distinct(q)
    ensures InsertAfter(q, q[i], p) == q[..i + 1] + [p] + q[i + 1..]
  {
    if i > 0 {
      InsertAfterAt(q[1..], i - 1, p);
    }
  }

  lemma {:induction false} InsertAtTail(q: seq<nat>, at: int, p: nat)
    requires forall i :: 0 <= i < |q| ==> q[i] != at
    ensures InsertAfter(q, at, p) == q + [p]
  {
    if q != [] { InsertAtTail(q[1..], at, p); }
  }

  // ------------------------------------------------------------------ counters

  function Usage(objects: seq<Object>, kind: Kind): int {
    if objects == [] then 0
    else Usage(objects[..|objects| - 1], kind) + if objects[|objects| - 1].kind == kind then objects[|objects| - 1].npages else 0
  }

  function Anons(pages: seq<Page>): nat {
    if pages == [] then 0 else Anons(pages[..|pages| - 1]) + if pages[|pages| - 1].anon then 1 else 0
  }

  lemma {:induction false} UsageUpdate(objects: seq<Object>, o: nat, ob: Object, kind: Kind)
    requires o < |objects| && ob.kind == objects[o].kind
    ensures Usage(objects[o := ob], kind) == Usage(objects, kind) + if ob.kind == kind then ob.npages - objects[o].npages else 0
  {
    var n := |objects| - 1;
    if o < n {
      UsageUpdate(objects[..n], o, ob, kind);
      assert objects[o := ob][..n] == objects[..n][o := ob];
    } else {
      assert objects[o := ob][..n] == objects[..n];
    }
  }

  lemma {:induction false} AnonsUpdate(pages: seq<Page>, p: nat, pg: Page)
    requires p < |pages|
    ensures Anons(pages[p := pg]) == Anons(pages) + (if pg.anon then 1 else 0) - if pages[p].anon then 1 else 0
  {
    var n := |pages| - 1;
    if p < n {
      AnonsUpdate(pages[..n], p, pg);
      assert pages[p := pg][..n] == pages[..n][p := pg];
    } else {
      assert pages[p := pg][..n] == pages[..n];
    }
  }

  // ------------------------------------------------------------------ one page in or out of one object

  /** An object does not notice a page that was not its own and is not afterwards. */
  lemma CoherentOther(pages: seq<Page>, ob: Object, o: int, p: nat, pg: Page)
    requires Coherent(pages, ob, o) && p < |pages| && !InObject(pages[p], o) && !InObject(pg, o)
    ensures Coherent(pages[p := pg], ob, o)
  {
    var pages2 := pages[p := pg];
    forall off | off in ob.tree ensures TreeEntry(pages2, ob, o, off) {
      assert TreeEntry(pages, ob, o, off);
    }
  }

  lemma InsertedList(q: seq<nat>, i: nat, p: nat)
    requires Distinct(q) && p !in q && i <= |q|
    ensures var r := q[..i] + [p] + q[i..]; Distinct(r) && forall x :: x in r <==> x in q || x == p
  {
    var r := q[..i] + [p] + q[i..];
    forall x | x in q ensures x in r {
      var k :| 0 <= k < |q| && q[k] == x;
      assert r[if k < i then k else k + 1] == x;
    }
    assert r[i] == p;
  }

  lemma RemovedList(q: seq<nat>, i: nat)
    requires Distinct(q) && i < |q|
    ensures var r := q[..i] + q[i + 1..]; Distinct(r) && forall x :: x in r <==> x in q && x != q[i]
  {
    var r := q[..i] + q[i + 1..];
    forall x | x in q && x != q[i] ensures x in r {
      var k :| 0 <= k < |q| && q[k] == x;
      assert r[if k < i then k else k - 1] == x;
    }
  }

  /** An object with page p at an offset, and at place i of the list. */
  function Added(ob: Object, p: nat, off: int, i: nat): Object
    requires i <= |ob.memq|
  {
    Object(ob.kind, ob.tree[off := p], ob.memq[..i] + [p] + ob.memq[i..], ob.npages + 1, IsVnode(ob.kind))
  }

  /** An object without the page at place i of the list and at that offset. */
  function Dropped(ob: Object, off: int, i: nat): Object
    requires i < |ob.memq|
  {
    Object(ob.kind, ob.tree - {off}, ob.memq[..i] + ob.memq[i + 1..], ob.npages - 1, IsVnode(ob.kind) && ob.npages > 1)
  }

  lemma CoherentInsert(pages: seq<Page>, ob: Object, o: int, p: nat, off: int, i: nat)
    requires Coherent(pages, ob, o) && p < |pages| && !InObject(pages[p], o) && off !in ob.tree && i <= |ob.memq|
    ensures Coherent(pages[p := Page(o, off, true, false)], Added(ob, p, off, i), o)
  {
    hide Distinct;
    var pages2, ob2 := pages[p := Page(o, off, true, false)], Added(ob, p, off, i);
    InsertedList(ob.memq, i, p);
    forall off2 | off2 in ob2.tree ensures TreeEntry(pages2, ob2, o, off2) {
      assert off2 != off ==> TreeEntry(pages, ob, o, off2);
    }
    forall x: nat | x < |pages2| && x != p && InObject(pages2[x], o) ensures pages[x].offset != off {
      assert InObject(pages[x], o);
    }
  }

  lemma CoherentRemove(pages: seq<Page>, ob: Object, o: int, p: nat, pg: Page, i: nat)
    requires Coherent(pages, ob, o) && p < |pages| && InObject(pages[p], o) && !InObject(pg, o) && i < |ob.memq| && ob.memq[i] == p
    ensures Coherent(pages[p := pg], Dropped(ob, pages[p].offset, i), o)
  {
    hide Distinct;
    var pages2, ob2 := pages[p := pg], Dropped(ob, pages[p].offset, i);
    RemovedList(ob.memq, i);
    forall off2 | off2 in ob2.tree ensures TreeEntry(pages2, ob2, o, off2) {
      assert TreeEntry(pages, ob, o, off2);
    }
    forall x: nat | x < |pages2| && InObject(pages2[x], o) ensures pages[x].offset != pages[p].offset && x in ob.memq {
      assert InObject(pages[x], o);
    }
  }

  // ------------------------------------------------------------------ all objects

  ghost predicate AllCoherent(pages: seq<Page>, objects: seq<Object>) {
    && (forall o: nat :: o < |objects| ==> Coherent(pages, objects[o], o))
    && (forall p: nat :: p < |pages| ==> OwnerOk(pages[p], |objects|))
  }

  ghost predicate Counted(pages: seq<Page>, objects: seq<Object>, filepages: int, execpages: int, anonpages: int) {
    filepages == Usage(objects, Vnode) && execpages == Usage(objects, Text) && anonpages == Usage(objects, Aobj) + Anons(pages)
  }

  lemma CountedStep(pages: seq<Page>, objects: seq<Object>, f: int, e: int, a: int, p: nat, pg: Page, o: nat, ob: Object)
    requires Counted(pages, objects, f, e, a) && p < |pages| && o < |objects| && ob.kind == objects[o].kind && pg.anon == pages[p].anon
    ensures var n := ob.npages - objects[o].npages;
            Counted(pages[p := pg], objects[o := ob], f + (if ob.kind.Vnode? then n else 0), e + (if ob.kind.Text? then n else 0),
                    a + if ob.kind.Aobj? then n else 0)
  {
    hide Usage, Anons;
    AnonsUpdate(pages, p, pg);
    UsageUpdate(objects, o, ob, Vnode);
    UsageUpdate(objects, o, ob, Text);
    UsageUpdate(objects, o, ob, Aobj);
  }

  /** An unowned page enters object o. */
  lemma AllInsert(pages: seq<Page>, objects: seq<Object>, p: nat, o: nat, off: int, i: nat)
    requires AllCoherent(pages, objects) && p < |pages| && o < |objects| && !pages[p].tabled
    requires off !in objects[o].tree && i <= |objects[o].memq|
    ensures AllCoherent(pages[p := Page(o, off, true, false)], objects[o := Added(objects[o], p, off, i)])
  {
    hide Coherent, Added;
    CoherentInsert(pages, objects[o], o, p, off, i);
    forall o2: nat | o2 < |objects| && o2 != o ensures Coherent(pages[p := Page(o, off, true, false)], objects[o2], o2) {
      CoherentOther(pages, objects[o2], o2, p, Page(o, off, true, false));
    }
  }

  /** A page leaves its object. */
  lemma AllRemove(pages: seq<Page>, objects: seq<Object>, p: nat, o: nat, pg: Page, i: nat)
    requires AllCoherent(pages, objects) && p < |pages| && o < |objects| && InObject(pages[p], o)
    requires !pg.tabled && pg.uobject == NOBODY && i < |objects[o].memq| && objects[o].memq[i] == p
    ensures AllCoherent(pages[p := pg], objects[o := Dropped(objects[o], pages[p].offset, i)])
  {
    hide Coherent, Dropped;
    CoherentRemove(pages, objects[o], o, p, pg, i);
    forall o2: nat | o2 < |objects| && o2 != o ensures Coherent(pages[p := pg], objects[o2], o2) {
      CoherentOther(pages, objects[o2], o2, p, pg);
    }
  }

  /** A page that is in no object changes, and stays in none. */
  lemma AllOutside(pages: seq<Page>, objects: seq<Object>, p: nat, pg: Page)
    requires AllCoherent(pages, objects) && p < |pages| && !pages[p].tabled && !pg.tabled && pg.uobject == NOBODY
    ensures AllCoherent(pages[p := pg], objects)
  {
    hide Coherent;
    forall o: nat | o < |objects| ensures Coherent(pages[p := pg], objects[o], o) {
      CoherentOther(pages, objects[o], o, p, pg);
    }
  }

  lemma PlaceOf(pages: seq<Page>, objects: seq<Object>, p: nat) returns (o: nat, i: nat)
    requires AllCoherent(pages, objects) && p < |pages| && pages[p].tabled
    ensures o == pages[p].uobject < |objects| && i < |objects[o].memq| && objects[o].memq[i] == p && Distinct(objects[o].memq)
    ensures pages[p].offset in objects[o].tree && objects[o].tree[pages[p].offset] == p
    ensures !pages[p].anon && objects[o].npages == |objects[o].memq| && (objects[o].held <==> IsVnode(objects[o].kind))
  {
    assert OwnerOk(pages[p], |objects|);
    o := pages[p].uobject;
    assert Coherent(pages, objects[o], o) && InObject(pages[p], o);
    i :| 0 <= i < |objects[o].memq| && objects[o].memq[i] == p;
  }

  // ------------------------------------------------------------------ the operations

  class PageIndex {
    var pages: seq<Page>
    var objects: seq<Object>
    var filepages: int            // uvmexp.filepages
    var execpages: int
    var anonpages: int

    ghost predicate Valid()
      reads this
    {
      AllCoherent(pages, objects) && Counted(pages, objects, filepages, execpages, anonpages)
    }

    constructor (npages: nat, kinds: seq<Kind>)
      ensures Valid() && |pages| == npages && |objects| == |kinds|
      ensures forall p: nat :: p < npages ==> !pages[p].tabled && !pages[p].anon
      ensures forall o: nat :: o < |kinds| ==> objects[o] == Object(kinds[o], map[], [], 0, false)
    {
      pages := seq(npages, _ => Page(NOBODY, 0, false, false));
      objects := seq(|kinds|, o requires 0 <= o < |kinds| => Object(kinds[o], map[], [], 0, false));
      filepages, execpages, anonpages := 0, 0, 0;
      new;
      NothingCounted(pages, objects);
    }

    /** uvm_pageinsert_tree. */
    method InsertTree(o: nat, p: nat)
      requires o < |objects| && p < |pages| && pages[p].offset !in objects[o].tree
      modifies this`objects
      ensures objects == old(objects)[o := old(objects)[o].(tree := old(objects)[o].tree[pages[p].offset := p])]
    {
      objects := objects[o := objects[o].(tree := objects[o].tree[pages[p].offset := p])];
    }

    /** uvm_pageremove_tree. */
    method RemoveTree(o: nat, p: nat)
      requires o < |objects| && p < |pages| && pages[p].offset in objects[o].tree
      modifies this`objects
      ensures objects == old(objects)[o := old(objects)[o].(tree := old(objects)[o].tree - {pages[p].offset})]
    {
      objects := objects[o := objects[o].(tree := objects[o].tree - {pages[p].offset})];
    }

    /** uvm_pageinsert_list; `at` is NOBODY for a null `where`. */
    method InsertList(o: nat, p: nat, at: int)
      requires o < |objects| && p < |pages| && !pages[p].tabled
      modifies this
      ensures objects == old(objects)[o := Listed(old(objects)[o], at, p)]
      ensures pages == old(pages)[p := old(pages)[p].(tabled := true)]
      ensures filepages == old(filepages) + (if objects[o].kind.Vnode? then 1 else 0)
      ensures execpages == old(execpages) + (if objects[o].kind.Text? then 1 else 0)
      ensures anonpages == old(anonpages) + (if objects[o].kind.Aobj? then 1 else 0)
    {
      var ob := objects[o];
      if IsVnode(ob.kind) {
        if ob.npages == 0 { ob := ob.(held := true); }
        if ob.kind.Text? { execpages := execpages + 1; } else { filepages := filepages + 1; }
      } else if ob.kind.Aobj? {
        anonpages := anonpages + 1;
      }
      ob := ob.(memq := InsertAfter(ob.memq, at, p));
      pages := pages[p := pages[p].(tabled := true)];
      objects := objects[o := ob.(npages := ob.npages + 1)];
    }

    /** uvm_pageremove_list. */
    method RemoveList(o: nat, p: nat)
      requires o < |objects| && p < |pages| && pages[p].tabled
      modifies this
      ensures objects == old(objects)[o := Unlisted(old(objects)[o], p)]
      ensures pages == old(pages)[p := old(pages)[p].(tabled := false, uobject := NOBODY)]
      ensures filepages == old(filepages) - (if objects[o].kind.Vnode? then 1 else 0)
      ensures execpages == old(execpages) - (if objects[o].kind.Text? then 1 else 0)
      ensures anonpages == old(anonpages) - (if objects[o].kind.Aobj? then 1 else 0)
    {
      var ob := objects[o];
      if IsVnode(ob.kind) {
        if ob.npages == 1 { ob := ob.(held := false); }
        if ob.kind.Text? { execpages := execpages - 1; } else { filepages := filepages - 1; }
      } else if ob.kind.Aobj? {
        anonpages := anonpages - 1;
      }
      ob := ob.(npages := ob.npages - 1);
      objects := objects[o := ob.(memq := Without(ob.memq, p))];
      pages := pages[p := pages[p].(tabled := false, uobject := NOBODY)];
    }

    /** uvm_pageinsert, after the caller has set the page's object and offset: to the end of the list. */
    method Insert(o: nat, p: nat)
      requires o < |objects| && p < |pages| && !pages[p].tabled && pages[p].uobject == o && !pages[p].anon
      requires AllCoherent(pages[p := pages[p].(uobject := NOBODY)], objects) && Counted(pages, objects, filepages, execpages, anonpages)
      requires pages[p].offset !in objects[o].tree
      modifies this
      ensures Valid() && pages == old(pages)[p := old(pages)[p].(tabled := true)]
      ensures objects == old(objects)[o := Added(old(objects)[o], p, old(pages)[p].offset, |old(objects)[o].memq|)]
      ensures var ob := old(objects)[o];
        objects == old(objects)[o := Object(ob.kind, ob.tree[pages[p].offset := p], ob.memq + [p], ob.npages + 1, ob.kind.Vnode? || ob.kind.Text?)]
    {
      hide AllCoherent, Counted, InsertAfter;
      ghost var pages0, objects0, off := pages, objects, pages[p].offset;
      AllInsert(pages[p := pages[p].(uobject := NOBODY)], objects, p, o, off, |objects[o].memq|);
      TailFacts(pages[p := pages[p].(uobject := NOBODY)], objects, o, p);
      CountedStep(pages, objects, filepages, execpages, anonpages, p, Page(o, off, true, false), o, Added(objects[o], p, off, |objects[o].memq|));
      InsertTree(o, p);
      InsertList(o, p, NOBODY);
      ghost var q := objects0[o].memq;
      assert q + [p] == q[..|q|] + [p] + q[|q|..];
      assert pages == pages0[p := pages0[p].(uobject := NOBODY)][p := Page(o, off, true, false)];
      assert objects == objects0[o := Added(objects0[o], p, off, |objects0[o].memq|)];
    }

    /** uvm_pageremove. */
    method Remove(p: nat, ghost i: nat)
      requires Valid() && p < |pages| && pages[p].tabled && 0 <= pages[p].uobject < |objects|
      requires i < |objects[pages[p].uobject].memq| && objects[pages[p].uobject].memq[i] == p
      modifies this
      ensures Valid() && pages == old(pages)[p := old(pages)[p].(tabled := false, uobject := NOBODY)]
      ensures var o := old(pages)[p].uobject; objects == old(objects)[o := Dropped(old(objects)[o], old(pages)[p].offset, i)]
      ensures var o := old(pages)[p].uobject; var ob := old(objects)[o];
        objects == old(objects)[o := Object(ob.kind, ob.tree - {old(pages)[p].offset}, Without(ob.memq, p), ob.npages - 1,
                                            (ob.kind.Vnode? || ob.kind.Text?) && ob.npages > 1)]
    {
      hide AllCoherent, Counted, Without;
      var o := pages[p].uobject;
      ghost var pages0, objects0, off := pages, objects, pages[p].offset;
      ghost var o2, i2 := PlaceOf(pages, objects, p);
      ghost var pg := pages[p].(tabled := false, uobject := NOBODY);
      WithoutAt(objects[o].memq, i);
      AllRemove(pages, objects, p, o, pg, i);
      CountedStep(pages, objects, filepages, execpages, anonpages, p, pg, o, Dropped(objects[o], off, i));
      RemoveTree(o, p);
      RemoveList(o, p);
      assert objects == objects0[o := Dropped(objects0[o], off, i)];
    }

    /** uvm_pagelookup: the one page of the object at that offset. */
    method Lookup(o: nat, off: int) returns (found: bool, p: nat)
      requires Valid() && o < |objects|
      ensures found ==> p < |pages| && forall x: nat :: x < |pages| && InObject(pages[x], o) && pages[x].offset == off <==> x == p
      ensures !found ==> forall x: nat :: x < |pages| && InObject(pages[x], o) ==> pages[x].offset != off
      ensures found ==> objects[o].npages > 0
    {
      hide Counted, Distinct;
      assert Coherent(pages, objects[o], o);
      if off in objects[o].tree {
        assert TreeEntry(pages, objects[o], o, off);
        NotEmpty(objects[o].memq, objects[o].tree[off]);
        return true, objects[o].tree[off];
      }
      return false, 0;
    }

    /** The end of uvm_pagealloc_strat: a free page goes to an object, to an anon, or to neither. */
    method Alloc(p: nat, obj: int, off: int, anon: bool)
      requires Valid() && p < |pages| && !pages[p].tabled && !pages[p].anon
      requires obj == NOBODY || (0 <= obj < |objects| && !anon && off !in objects[obj].tree)
      modifies this
      ensures Valid() && pages == old(pages)[p := Page(obj, off, obj != NOBODY, anon)]
      ensures objects == if obj == NOBODY then old(objects)
                         else var ob := old(objects)[obj];
                              old(objects)[obj := Object(ob.kind, ob.tree[off := p], ob.memq + [p], ob.npages + 1, ob.kind.Vnode? || ob.kind.Text?)]
    {
      hide AllCoherent, Counted, Usage, Anons;
      ghost var pages0, pg := pages, Page(NOBODY, off, false, anon);
      Unowned(pages, objects, p);
      AllOutside(pages, objects, p, pg);
      AnonSteps(pages, objects, filepages, execpages, anonpages, p, pg);
      AnonSteps(pages, objects, filepages, execpages, anonpages, p, Page(obj, off, false, anon));
      pages := pages[p := Page(obj, off, false, anon)];
      if anon {
        anonpages := anonpages + 1;
      } else if obj != NOBODY {
        assert pages[p := pages[p].(uobject := NOBODY)] == pages0[p := pg];
        Insert(obj, p);
      }
    }

    /** uvm_pagereplace: the new page takes the old one's offset and its place in the list. */
    method Replace(oldpg: nat, newpg: nat)
      requires Valid() && oldpg < |pages| && newpg < |pages| && pages[oldpg].tabled && !pages[newpg].tabled && !pages[newpg].anon
      modifies this
      ensures Valid() && filepages == old(filepages) && execpages == old(execpages) && anonpages == old(anonpages)
      ensures pages == old(pages)[oldpg := old(pages)[oldpg].(tabled := false, uobject := NOBODY)]
                                 [newpg := Page(old(pages)[oldpg].uobject, old(pages)[oldpg].offset, true, false)]
      ensures var o := old(pages)[oldpg].uobject; 0 <= o < |old(objects)| && var ob := old(objects)[o];
        exists i :: 0 <= i < |ob.memq| && ob.memq[i] == oldpg
          && objects == old(objects)[o := ob.(tree := ob.tree[old(pages)[oldpg].offset := newpg], memq := ob.memq[i := newpg])]
    {
      hide AllCoherent, Counted, InsertAfter, Without;
      ghost var o2, i := PlaceOf(pages, objects, oldpg);
      ghost var pages0, objects0, off := pages, objects, pages[oldpg].offset;
      ReplaceKeeps(pages, objects, filepages, execpages, anonpages, oldpg, newpg, o2, i);
      var o := pages[oldpg].uobject;
      pages := pages[newpg := pages[newpg].(uobject := o, offset := pages[oldpg].offset)];
      RemoveTree(o, oldpg);
      InsertTree(o, newpg);
      InsertList(o, newpg, oldpg);
      RemoveList(o, oldpg);
      ReplacedList(objects0[o].memq, i, newpg);
      assert objects[o].memq == objects0[o].memq[i := newpg];
      assert objects[o].tree == objects0[o].tree[off := newpg];
      assert pages == pages0[oldpg := pages0[oldpg].(tabled := false, uobject := NOBODY)][newpg := Page(o, off, true, false)];
      assert objects == objects0[o := objects0[o].(tree := objects0[o].tree[off := newpg], memq := objects0[o].memq[i := newpg])];
    }

    /** uvm_pagerealloc: out of the old object, if any, and to the end of the new one, if any. */
    method Realloc(p: nat, newobj: int, newoff: int)
      requires Valid() && p < |pages| && !pages[p].anon
      requires newobj == NOBODY || (0 <= newobj < |objects| && (newoff !in objects[newobj].tree || objects[newobj].tree[newoff] == p))
      modifies this
      ensures Valid() && pages == old(pages)[p := Page(newobj, if newobj == NOBODY then old(pages)[p].offset else newoff, newobj != NOBODY, false)]
      ensures |objects| == |old(objects)|
      ensures newobj != NOBODY ==> var ob, ob0 := objects[newobj], old(objects)[newobj];
        ob.memq == Without(ob0.memq, p) + [p] && ob.tree == (if old(pages)[p].uobject == newobj then ob0.tree - {old(pages)[p].offset} else ob0.tree)[newoff := p]
      ensures old(pages)[p].uobject != NOBODY ==> 0 <= old(pages)[p].uobject < |objects|
      ensures var o := old(pages)[p].uobject; o != NOBODY && o != newobj ==>
        objects[o].memq == Without(old(objects)[o].memq, p) && objects[o].tree == old(objects)[o].tree - {old(pages)[p].offset}
      ensures forall o: nat :: o < |objects| && o != newobj && o != old(pages)[p].uobject ==> o < |old(objects)| && objects[o] == old(objects)[o]
    {
      hide AllCoherent, Counted, Dropped;
      Unowned(pages, objects, p);
      ghost var pages0 := pages;
      NotListed(pages, objects, p);
      if pages[p].uobject != NOBODY {
        ghost var o, i := PlaceOf(pages, objects, p);
        FreeOffset(pages, objects, p, newobj, newoff, i);
        Remove(p, i);
      } else {
        FreeOffsetAlready(pages, objects, p, newobj, newoff);
      }
      if newobj != NOBODY {
        ghost var outside := pages[p].(offset := newoff);
        AllOutside(pages, objects, p, outside);
        AnonSteps(pages, objects, filepages, execpages, anonpages, p, pages[p].(uobject := newobj, offset := newoff));
        assert pages[p := pages[p].(uobject := newobj, offset := newoff)][p := outside] == pages[p := outside];
        pages := pages[p := pages[p].(uobject := newobj, offset := newoff)];
        Insert(newobj, p);
      }
    }

    /** The owner part of uvm_pagefree for an unloaned page. */
    method Free(p: nat)
      requires Valid() && p < |pages|
      modifies this
      ensures Valid() && pages == old(pages)[p := old(pages)[p].(uobject := NOBODY, tabled := false, anon := false)]
      ensures !old(pages)[p].tabled ==> objects == old(objects)
      ensures old(pages)[p].tabled ==> LeftItsObject(objects, old(objects), p, old(pages)[p].uobject, old(pages)[p].offset)
      ensures old(pages)[p].tabled ==> var o := old(pages)[p].uobject; 0 <= o < |old(objects)| && var ob := old(objects)[o];
        objects == old(objects)[o := Object(ob.kind, ob.tree - {old(pages)[p].offset}, Without(ob.memq, p), ob.npages - 1,
                                            (ob.kind.Vnode? || ob.kind.Text?) && ob.npages > 1)]
    {
      hide AllCoherent, Counted, Dropped;
      Unowned(pages, objects, p);
      if pages[p].uobject != NOBODY {
        ghost var o, i := PlaceOf(pages, objects, p);
        Remove(p, i);
      } else if pages[p].anon {
        var pg := pages[p].(anon := false);
        AllOutside(pages, objects, p, pg);
        AnonSteps(pages, objects, filepages, execpages, anonpages, p, pg);
        pages := pages[p := pg];
        anonpages := anonpages - 1;
      }
    }
  }

  function Of(o: int): Page -> bool { (pg: Page) => InObject(pg, o) }

  /** uo_npages is the number of pages tabled in the object, and a vnode is held iff there is such a page. */
  lemma NpagesIsCount(pages: seq<Page>, ob: Object, o: int)
    requires Coherent(pages, ob, o)
    ensures ob.npages == Count(pages, Of(o))
    ensures ob.held <==> (ob.kind.Vnode? || ob.kind.Text?) && exists p: nat :: p < |pages| && InObject(pages[p], o)
  {
    hide Distinct;
    LengthIsCount(ob.memq, pages, Of(o));
    var h := Head(ob.memq);
  }

  /** Object o, which had p, has lost it and nothing else. */
  ghost predicate LeftItsObject(objects: seq<Object>, objects0: seq<Object>, p: nat, o: int, off: int) {
    0 <= o < |objects0| && exists i :: 0 <= i < |objects0[o].memq| && objects0[o].memq[i] == p
                                       && objects == objects0[o := Dropped(objects0[o], off, i)]
  }

  /** A page is on the list of no object but its own, and removal does not change other lists. */
  lemma NotListed(pages: seq<Page>, objects: seq<Object>, p: nat)
    requires AllCoherent(pages, objects) && p < |pages|
    ensures forall o: nat :: o < |objects| && o != pages[p].uobject ==> Without(objects[o].memq, p) == objects[o].memq
  {
    forall o: nat | o < |objects| && o != pages[p].uobject ensures Without(objects[o].memq, p) == objects[o].memq {
      assert Coherent(pages, objects[o], o);
      WithoutAbsent(objects[o].memq, p);
    }
  }

  lemma NotEmpty(q: seq<nat>, p: nat)
    requires p in q
    ensures |q| > 0
  {}

  lemma Unowned(pages: seq<Page>, objects: seq<Object>, p: nat)
    requires AllCoherent(pages, objects) && p < |pages|
    ensures pages[p].tabled <==> pages[p].uobject != NOBODY
    ensures pages[p].tabled ==> !pages[p].anon
  {
    assert OwnerOk(pages[p], |objects|);
  }

  lemma AnonSteps(pages: seq<Page>, objects: seq<Object>, f: int, e: int, a: int, p: nat, pg: Page)
    requires Counted(pages, objects, f, e, a) && p < |pages|
    ensures Counted(pages[p := pg], objects, f, e, a + (if pg.anon then 1 else 0) - if pages[p].anon then 1 else 0)
  {
    hide Usage, Anons;
    AnonsUpdate(pages, p, pg);
  }

  /** Where p's own place was the one wanted, removing it makes the offset free. */
  lemma FreeOffset(pages: seq<Page>, objects: seq<Object>, p: nat, newobj: int, newoff: int, i: nat)
    requires AllCoherent(pages, objects) && p < |pages| && pages[p].tabled && 0 <= pages[p].uobject < |objects|
    requires i < |objects[pages[p].uobject].memq|
    requires newobj == NOBODY || (0 <= newobj < |objects| && (newoff !in objects[newobj].tree || objects[newobj].tree[newoff] == p))
    ensures var o := pages[p].uobject; newobj != NOBODY ==> newoff !in objects[o := Dropped(objects[o], pages[p].offset, i)][newobj].tree
  {
    if newobj != NOBODY {
      assert Coherent(pages, objects[newobj], newobj);
      if newoff in objects[newobj].tree {
        assert TreeEntry(pages, objects[newobj], newobj, newoff);
      }
    }
  }

  lemma TreeOwned(pages: seq<Page>, objects: seq<Object>, o: nat, off: int)
    requires AllCoherent(pages, objects) && o < |objects|
    ensures off in objects[o].tree ==> objects[o].tree[off] < |pages| && pages[objects[o].tree[off]].tabled
  {
    assert Coherent(pages, objects[o], o);
    assert off in objects[o].tree ==> TreeEntry(pages, objects[o], o, off);
  }

  lemma FreeOffsetAlready(pages: seq<Page>, objects: seq<Object>, p: nat, newobj: int, newoff: int)
    requires AllCoherent(pages, objects) && p < |pages| && !pages[p].tabled
    requires newobj == NOBODY || (0 <= newobj < |objects| && (newoff !in objects[newobj].tree || objects[newobj].tree[newoff] == p))
    ensures newobj != NOBODY ==> newoff !in objects[newobj].tree
  {
    if newobj != NOBODY { TreeOwned(pages, objects, newobj, newoff); }
  }

  /** Inserting after a page and then removing that page puts the new one in its place. */
  lemma ReplacedList(q: seq<nat>, i: nat, p: nat)
    requires Distinct(q) && i < |q| && p !in q
    ensures Without(InsertAfter(q, q[i], p), q[i]) == q[i := p]
  {
    hide Distinct, Without, InsertAfter;
    InsertAfterAt(q, i, p);
    var r := q[..i + 1] + [p] + q[i + 1..];
    InsertedList(q, i + 1, p);
    assert r[i] == q[i];
    WithoutAt(r, i);
    assert r[..i] + r[i + 1..] == q[i := p];
  }

  lemma ReplaceKeeps(pages: seq<Page>, objects: seq<Object>, f: int, e: int, a: int, oldpg: nat, newpg: nat, o: nat, i: nat)
    requires AllCoherent(pages, objects) && Counted(pages, objects, f, e, a) && oldpg < |pages| && newpg < |pages|
    requires InObject(pages[oldpg], o) && o < |objects| && !pages[newpg].tabled && !pages[newpg].anon && !pages[oldpg].anon
    requires i < |objects[o].memq| && objects[o].memq[i] == oldpg && oldpg != newpg
    ensures newpg !in objects[o].memq
    ensures var pages2 := pages[oldpg := pages[oldpg].(tabled := false, uobject := NOBODY)][newpg := Page(o, pages[oldpg].offset, true, false)];
            var objects2 := objects[o := objects[o].(tree := objects[o].tree[pages[oldpg].offset := newpg], memq := objects[o].memq[i := newpg])];
            AllCoherent(pages2, objects2) && Counted(pages2, objects2, f, e, a)
  {
    hide Counted, Distinct;
    var off, ob := pages[oldpg].offset, objects[o];
    assert Coherent(pages, ob, o);
    var pg := pages[oldpg].(tabled := false, uobject := NOBODY);
    AllRemove(pages, objects, oldpg, o, pg, i);
    var pages1, objects1 := pages[oldpg := pg], objects[o := Dropped(ob, off, i)];
    AllInsert(pages1, objects1, newpg, o, off, i);
    CountedStep(pages, objects, f, e, a, oldpg, pg, o, Dropped(ob, off, i));
    var q := ob.memq[..i] + ob.memq[i + 1..];
    assert q[..i] + [newpg] + q[i..] == ob.memq[i := newpg];
    assert (ob.tree - {off})[off := newpg] == ob.tree[off := newpg];
    var ob2 := Added(Dropped(ob, off, i), newpg, off, i);
    assert ob2 == ob.(tree := ob.tree[off := newpg], memq := ob.memq[i := newpg]);
    assert objects1[o := ob2] == objects[o := ob2];
    CountedStep(pages, objects, f, e, a, oldpg, pg, o, ob2);
    CountedStep(pages1, objects[o := ob2], f, e, a, newpg, Page(o, off, true, false), o, ob2);
    assert objects[o := ob2][o := ob2] == objects[o := ob2];
  }

  function Listed(ob: Object, at: int, p: nat): Object {
    ob.(memq := InsertAfter(ob.memq, at, p), npages := ob.npages + 1, held := ob.held || (IsVnode(ob.kind) && ob.npages == 0))
  }

  function Unlisted(ob: Object, p: nat): Object {
    ob.(memq := Without(ob.memq, p), npages := ob.npages - 1, held := ob.held && !(IsVnode(ob.kind) && ob.npages == 1))
  }

  lemma {:induction false} InsertThenWithout(q: seq<nat>, at: int, p: nat)
    requires p !in q
    ensures Without(InsertAfter(q, at, p), p) == q
  {
    hide Without;
    WithoutHead(p, []);
    assert [p] + [] == [p];
    if q != [] {
      InsertThenWithout(q[1..], at, p);
      if q[0] == at {
        assert InsertAfter(q, at, p) == [q[0]] + ([p] + q[1..]);
        WithoutHead(p, q[1..]);
        WithoutNext(q[0], [p] + q[1..], p);
      } else {
        WithoutNext(q[0], InsertAfter(q[1..], at, p), p);
      }
    }
  }

  lemma WithoutHead(p: nat, q: seq<nat>)
    ensures Without([p] + q, p) == q
  {}

  lemma WithoutNext(x: nat, q: seq<nat>, p: nat)
    requires x != p
    ensures Without([x] + q, p) == [x] + Without(q, p)
  {
    assert ([x] + q)[1..] == q;
  }

  /** Taking a page off the list undoes putting it there, wherever it went in: the list, the count and the hold on
      the vnode are as before. */
  lemma ListedUndone(pages: seq<Page>, ob: Object, o: int, at: int, p: nat)
    requires Coherent(pages, ob, o) && p !in ob.memq
    ensures Unlisted(Listed(ob, at, p), p) == ob
  {
    hide Distinct, Without, InsertAfter;
    InsertThenWithout(ob.memq, at, p);
  }

  /** Putting a page back behind its old predecessor undoes taking it off. */
  lemma UnlistedUndone(pages: seq<Page>, ob: Object, o: int, i: nat)
    requires Coherent(pages, ob, o) && 0 < i < |ob.memq|
    ensures Listed(Unlisted(ob, ob.memq[i]), ob.memq[i - 1], ob.memq[i]) == ob
  {
    hide Without, InsertAfter;
    var q := ob.memq;
    WithoutAt(q, i);
    var r := q[..i] + q[i + 1..];
    assert r[i - 1] == q[i - 1] && Distinct(r);
    InsertAfterAt(r, i - 1, q[i]);
    assert r[..i] + [q[i]] + r[i..] == q;
  }

  lemma TailFacts(pages: seq<Page>, objects: seq<Object>, o: nat, p: nat)
    requires AllCoherent(pages, objects) && o < |objects|
    ensures InsertAfter(objects[o].memq, NOBODY, p) == objects[o].memq + [p]
    ensures objects[o].held <==> IsVnode(objects[o].kind) && objects[o].npages > 0
    ensures objects[o].npages >= 0
  {
    assert Coherent(pages, objects[o], o);
    InsertAtTail(objects[o].memq, NOBODY, p);
  }

  lemma {:induction false} NothingUsed(objects: seq<Object>, kind: Kind)
    requires forall o: nat :: o < |objects| ==> objects[o].npages == 0
    ensures Usage(objects, kind) == 0
  {
    if objects != [] { NothingUsed(objects[..|objects| - 1], kind); }
  }

  lemma {:induction false} NoAnons(pages: seq<Page>)
    requires forall p: nat :: p < |pages| ==> !pages[p].anon
    ensures Anons(pages) == 0
  {
    if pages != [] { NoAnons(pages[..|pages| - 1]); }
  }

  lemma NothingCounted(pages: seq<Page>, objects: seq<Object>)
    requires forall p: nat :: p < |pages| ==> !pages[p].anon
    requires forall o: nat :: o < |objects| ==> objects[o].npages == 0
    ensures Counted(pages, objects, 0, 0, 0)
  {
    NothingUsed(objects, Vnode);
    NothingUsed(objects, Text);
    NothingUsed(objects, Aobj);
    NoAnons(pages);
  }
}
