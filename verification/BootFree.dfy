/** Boot meets the allocator: freeing the pages uvm_page_init frees, in its order, from the empty allocator. */
module BootFree {
  import opened FreeIndex
  import opened FreePages
  import opened PageSteps
  import opened PageRuns
  import PhysSegs
  import PhysMem

  /** uvm_pagefree of each page in turn, on the boot CPU. */
  function FreeAll(freed: seq<nat>): seq<Step> {
    if freed == [] then [] else [FreeStart(freed[0]), Free(0, freed[0])] + FreeAll(freed[1..])
  }

  /** Pages nobody has filed yet and nobody is working on. */
  ghost predicate Untouched(s: State, freed: seq<nat>) {
    && |s.cpus| >= 1 && s.leaving == map[] && (forall c :: 0 <= c < |s.idle| ==> s.idle[c].NoWork?)
    && (forall k :: 0 <= k < |freed| ==> freed[k] < |s.pages|)
    && (forall k :: 0 <= k < |freed| ==> !IsFree(s.pages[freed[k]]) && PgZero !in s.pages[freed[k]].flags)
  }

  lemma FreeOne(s: State, freed: seq<nat>) returns (t: State)
    requires Inv(s) && Sized(s) && Untouched(s, freed) && freed != [] && forall k :: 0 < k < |freed| ==> freed[k] != freed[0]
    ensures Guard(s, FreeStart(freed[0])) && Enabled(s, FreeStart(freed[0]))
    ensures var s1 := Apply(s, FreeStart(freed[0]));
      && Inv(s1) && Sized(s1) && Guard(s1, Free(0, freed[0])) && Enabled(s1, Free(0, freed[0]))
      && t == Apply(s1, Free(0, freed[0]))
    ensures Inv(t) && Sized(t) && Untouched(t, freed[1..]) && t.free == s.free + 1 && |t.pages| == |s.pages|
    ensures forall p: nat :: p < |s.pages| ==> (IsFree(t.pages[p]) <==> IsFree(s.pages[p]) || p == freed[0])
    ensures forall p: nat :: p < |s.pages| ==> t.pages[p].frame == s.pages[p].frame
  {
    hide Inv, BucketOf, Push;
    StepKeeps(s, FreeStart(freed[0]));
    var s1 := Apply(s, FreeStart(freed[0]));
    StepKeeps(s1, Free(0, freed[0]));
    t := Apply(s1, Free(0, freed[0]));
  }

  lemma {:induction false} FreeAllRuns(s: State, freed: seq<nat>)
    requires Inv(s) && Sized(s) && Untouched(s, freed) && forall j, k :: 0 <= j < k < |freed| ==> freed[j] != freed[k]
    ensures Permits(s, FreeAll(freed)) && Runs(s, FreeAll(freed))
    ensures var t := After(s, FreeAll(freed));
      && Inv(t) && t.free == s.free + |freed| && |t.pages| == |s.pages|
      && (forall p: nat :: p < |s.pages| ==> (IsFree(t.pages[p]) <==> IsFree(s.pages[p]) || p in freed))
      && (forall p: nat :: p < |s.pages| ==> t.pages[p].frame == s.pages[p].frame)
    decreases |freed|
  {
    hide Inv, Apply, Guard, InBounds, Sized, Untouched, Enabled;
    if freed != [] {
      var t := FreeOne(s, freed);
      FreeAllRuns(t, freed[1..]);
      TwoSteps(s, FreeStart(freed[0]), Free(0, freed[0]), FreeAll(freed[1..]));
      assert freed == [freed[0]] + freed[1..];
    }
  }

  lemma TwoSteps(s: State, a: Step, b: Step, run: seq<Step>)
    requires Sized(s) && Guard(s, a) && Enabled(s, a)
    requires var s1 := Apply(s, a); Sized(s1) && Guard(s1, b) && Enabled(s1, b) && Permits(Apply(s1, b), run) && Runs(Apply(s1, b), run)
    ensures Permits(s, [a, b] + run) && Runs(s, [a, b] + run)
    ensures After(s, [a, b] + run) == After(Apply(Apply(s, a), b), run)
  {
    hide Apply, Guard, InBounds;
    assert ([a, b] + run)[1..] == [b] + run;
    assert ([b] + run)[1..] == run;
  }

  /** From the empty allocator, with the page structures uvm_page_init laid out, freeing its pages in its order is a
      permitted run; afterwards exactly the available frames are free, and uvmexp.free is their number. */
  lemma BootFreesAvailable(s: State, t: seq<PhysSegs.PhysSeg>, phys: seq<nat>, freed: seq<nat>)
    requires Boot(s) && |s.pages| == |phys| && forall k :: 0 <= k < |phys| ==> s.pages[k].frame == phys[k] && s.pages[k].flags == {}
    requires PhysMem.FreedPages(t, |t|, phys, freed)
    ensures Permits(s, FreeAll(freed)) && Runs(s, FreeAll(freed))
    ensures var u := After(s, FreeAll(freed));
      && Inv(u) && u.free == PhysSegs.AvailSize(t) && |u.pages| == |phys|
      && (forall p: nat :: p < |phys| ==> (IsFree(u.pages[p]) <==> p in freed))
      && (forall p: nat :: p < |phys| && IsFree(u.pages[p]) ==> PhysSegs.Available(t, u.pages[p].frame))
      && (forall i: nat, f: nat :: i < |t| && PhysSegs.In(t[i], f) && PhysSegs.InAvail(t[i], f) ==>
            PhysSegs.PageIndex(t, i, f) in freed && IsFree(u.pages[PhysSegs.PageIndex(t, i, f)]))
  {
    hide PhysSegs.PageIndex, Inv, Permits, Runs, After, FreeAll, PhysSegs.AvailSize, PhysSegs.Size, PhysSegs.Available;
    BootInv(s);
    FreedFacts(t, phys, freed);
    FreeAllRuns(s, freed);
  }

  lemma FreedFacts(t: seq<PhysSegs.PhysSeg>, phys: seq<nat>, freed: seq<nat>)
    requires PhysMem.FreedPages(t, |t|, phys, freed)
    ensures |freed| == PhysSegs.AvailSize(t) && forall k :: 0 <= k < |freed| ==> freed[k] < |phys| && PhysSegs.Available(t, phys[freed[k]])
    ensures forall j, k :: 0 <= j < k < |freed| ==> freed[j] != freed[k]
    ensures forall x :: x in freed ==> x < |phys|
    ensures forall i: nat, f: nat :: i < |t| && PhysSegs.In(t[i], f) && PhysSegs.InAvail(t[i], f) ==> PhysSegs.PageIndex(t, i, f) in freed
  {
    hide PhysSegs.PageIndex, PhysSegs.AvailSize, PhysSegs.Size, PhysSegs.Available;
    assert t[..|t|] == t;
    forall k | 0 <= k < |freed| ensures freed[k] < |phys| && PhysSegs.Available(t, phys[freed[k]]) {
      assert freed[k] in freed;
    }
  }
}
