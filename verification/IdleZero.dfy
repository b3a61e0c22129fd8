/** What the other CPUs can do to one CPU's UNKNOWN queues while it zeroes a page outside the lock:
    take pages off them, never add any. */
module IdleZero {
  import opened FreeIndex
  import opened FreePages
  import opened PageSteps
  import opened BitMask
  import opened ColorWalk

  /** A step that CPU `cpu` does not take itself; what is freed on it while it is zeroing counts as its own. */
  predicate Foreign(step: Step, cpu: nat) {
    match step
    case Alloc(c, _, _, _) => c != cpu
    case FreeStart(_) => true
    case Free(c, _) => c != cpu
    case IdleTake(c, _, _) => c != cpu
    case IdleDone(c) => c != cpu
    case IdleAbort(c, _) => c != cpu
    case Note(c, _, _) => c != cpu
    case Touch(_, _, _) => true
    case Attach => true
  }

  /** Everything is foreign but what the CPU does under the lock itself. */
  lemma ForeignIff(step: Step, cpu: nat)
    ensures Foreign(step, cpu) <==> step.FreeStart? || step.Touch? || step.Attach? || step.cpu != cpu
  {}

  ghost predicate EmptyUnknown(s: State, cpu: nat, fl: nat, color: nat)
    requires cpu < |s.cpus|
  {
    var b := Bucket(fl, color, Unknown);
    b in s.cpus[cpu].pageFree && s.cpus[cpu].pageFree[b] == []
  }

  /** From s to t, nothing was added to the UNKNOWN queues of `cpu`. */
  ghost predicate Shrinks(s: State, t: State, cpu: nat) {
    && cpu < |s.cpus| && cpu < |t.cpus|
    && t.ncolors == s.ncolors && t.nfreelist == s.nfreelist
    && t.cpus[cpu].unknown <= s.cpus[cpu].unknown
    && (forall fl, color :: EmptyUnknown(s, cpu, fl, color) ==> EmptyUnknown(t, cpu, fl, color))
  }

  lemma ShrinksTrans(s: State, t: State, u: State, cpu: nat)
    requires Shrinks(s, t, cpu) && Shrinks(t, u, cpu)
    ensures Shrinks(s, u, cpu)
  {
    hide EmptyUnknown;
  }

  lemma TakeShrinks(s: State, p: nat, after: VmPage, cpu: nat, t: State)
    requires CanTake(s, p) && cpu < |s.cpus| && t == Take(s, p, after).(memory := t.memory, idle := t.idle)
    ensures Shrinks(s, t, cpu)
    ensures s.pages[p].offset == cpu && QueueOf(s.pages[p]) == Unknown ==>
              t.cpus[cpu].unknown == s.cpus[cpu].unknown - 1
  {}

  lemma PutElsewhere(s: State, p: nat, after: VmPage, b: Bucket, cpu: nat, t: State)
    requires CanPut(s, p, after, b) && cpu < |s.cpus| && (after.offset != cpu || b.queue == Zeros)
    requires t == Put(s, p, after, b).(memory := t.memory, idle := t.idle, leaving := t.leaving)
    ensures Shrinks(s, t, cpu)
  {}

  /** No step of another CPU adds to this CPU's UNKNOWN queues. */
  lemma ForeignShrinks(s: State, step: Step, cpu: nat)
    requires Inv(s) && Enabled(s, step) && Foreign(step, cpu) && cpu < |s.cpus|
    ensures Shrinks(s, Apply(s, step), cpu)
  {
    hide Inv, Put, Take, Shrinks, BucketOf, EmptyBuckets, Owned;
    var t := Apply(s, step);
    match step
    case Alloc(_, p, wz, off) => TakeShrinks(s, p, HandedOut(s.pages[p], wz, off), cpu, t);
    case Free(c, p) =>
      PutElsewhere(s, p, Released(s.pages[p], c), s.leaving[p], cpu, t);
    case IdleTake(c, fl, b) =>
      var p := s.cpus[c].pageFree[Bucket(fl, b, Unknown)][0];
      TakeShrinks(s, p, s.pages[p].(pqflags := {}), cpu, t);
    case IdleDone(c) =>
      var w := s.idle[c];
      PutElsewhere(s, w.page, ZeroedBack(s.pages[w.page]), Bucket(w.freeList, w.bucket, Zeros), cpu, t);
    case IdleAbort(c, _) =>
      var w := s.idle[c];
      ReturnFacts(s, c);
      PutElsewhere(s, w.page, AbortedBack(s.pages[w.page]), Bucket(w.freeList, w.bucket, Unknown), cpu, t);
    case Note(c, _, _) => SameQueuesShrink(s, t, cpu);
    case FreeStart(_) => SameQueuesShrink(s, t, cpu);
    case Touch(_, _, _) => SameQueuesShrink(s, t, cpu);
    case Attach => SameQueuesShrink(s, t, cpu);
  }

  /** Nor does it disturb the page this CPU holds, or its idle-zero switch and round-robin colour. */
  lemma ForeignLeavesWork(s: State, step: Step, cpu: nat)
    requires Enabled(s, step) && Foreign(step, cpu) && cpu < |s.cpus|
    ensures var t := Apply(s, step); cpu < |t.idle| && t.idle[cpu] == s.idle[cpu]
    ensures var t := Apply(s, step); cpu < |t.cpus| && t.cpus[cpu].idleZero == s.cpus[cpu].idleZero && t.cpus[cpu].nextColor == s.cpus[cpu].nextColor
  {
    hide BucketOf, Owned, EmptyBuckets, Unlink, Push;
  }

  lemma SameQueuesShrink(s: State, t: State, cpu: nat)
    requires cpu < |s.cpus| && cpu < |t.cpus|
    requires t.cpus[cpu].pageFree == s.cpus[cpu].pageFree && t.cpus[cpu].unknown == s.cpus[cpu].unknown
    requires t.ncolors == s.ncolors && t.nfreelist == s.nfreelist
    ensures Shrinks(s, t, cpu)
  {}

  lemma ReturnFacts(s: State, c: nat)
    requires Inv(s) && c < |s.cpus| && c < |s.idle| && s.idle[c].Zeroing?
    ensures s.idle[c].page < |s.pages| && s.pages[s.idle[c].page].offset == c
  {
    hide Coherent, ZeroOk, BucketOf;
    NotNoColors(s);
    assert WorkOk(s, c);
  }

  lemma NotNoColors(s: State)
    requires Coherent(s)
    ensures s.ncolors >= 1
  {}

  /** The colours before step d of the walk, and the first fl lists at step d, have been emptied. */
  ghost predicate Emptied(s: State, cpu: nat, first: nat, d: nat, fl: nat)
    requires cpu < |s.cpus| && first < s.ncolors && d <= s.ncolors
  {
    && (forall k: nat, f: nat :: k < d && f < s.nfreelist ==> EmptyUnknown(s, cpu, f, Walk(first, k, s.ncolors)))
    && (forall f: nat :: f < fl ==> EmptyUnknown(s, cpu, f, Walk(first, d, s.ncolors)))
  }

  lemma EmptiedKept(s: State, t: State, cpu: nat, first: nat, d: nat, fl: nat)
    requires Shrinks(s, t, cpu) && first < s.ncolors && d <= s.ncolors && Emptied(s, cpu, first, d, fl)
    ensures Emptied(t, cpu, first, d, fl)
  {
    hide EmptyUnknown, Walk;
  }

  lemma EmptiedMore(s: State, cpu: nat, first: nat, d: nat, fl: nat)
    requires cpu < |s.cpus| && first < s.ncolors && d < s.ncolors && Emptied(s, cpu, first, d, fl)
    requires EmptyUnknown(s, cpu, fl, Walk(first, d, s.ncolors))
    ensures Emptied(s, cpu, first, d, fl + 1)
    ensures fl + 1 == s.nfreelist ==> Emptied(s, cpu, first, d + 1, 0)
  {
    hide EmptyUnknown, Walk;
  }

  lemma NothingEmptied(s: State, cpu: nat, first: nat)
    requires Inv(s) && cpu < |s.cpus| && first == s.cpus[cpu].nextColor
    ensures first < s.ncolors && Emptied(s, cpu, first, 0, 0) && Walk(first, 0, s.ncolors) == first && s.nfreelist >= 1
  {
    assert CpuOk(s.cpus[cpu], CpuMap(s.pages, s.ncolors, cpu), s.nfreelist, s.ncolors);
    hide Indexes, FiledAs, GlobalOk, IdleOk, ZeroOk, EmptyUnknown;
  }

  /** Once the whole walk is done this CPU has no unknown pages left, whatever the others did meanwhile. */
  lemma WalkEmpties(s: State, cpu: nat, first: nat)
    requires Inv(s) && cpu < |s.cpus| && first < s.ncolors && Emptied(s, cpu, first, s.ncolors, 0)
    ensures s.cpus[cpu].unknown == 0
  {
    hide Inv;
    forall fl: nat, color: nat | fl < s.nfreelist && color < s.ncolors
      ensures var b := Bucket(fl, color, Unknown);
              b in s.cpus[cpu].pageFree && s.cpus[cpu].pageFree[b] == []
    {
      WalkOnce(first, color, Dist(first, color, s.ncolors), s.ncolors);
      assert EmptyUnknown(s, cpu, fl, Walk(first, Dist(first, color, s.ncolors), s.ncolors));
    }
    AllEmptyNoneLeft(s, cpu);
  }

  lemma UnknownNotNegative(s: State, cpu: nat)
    requires Inv(s) && cpu < |s.cpus|
    ensures s.cpus[cpu].unknown >= 0
  {
    assert CpuOk(s.cpus[cpu], CpuMap(s.pages, s.ncolors, cpu), s.nfreelist, s.ncolors);
    hide Indexes, Shape, GlobalOk;
  }

  ghost predicate NoUnknown(q: Buckets, nf: nat, n: nat) {
    forall fl: nat, color: nat :: fl < nf && color < n ==>
      Bucket(fl, color, Unknown) in q && q[Bucket(fl, color, Unknown)] == []
  }

  /** Taking the head of one of its own UNKNOWN queues leaves the CPU one unknown page fewer. */
  lemma OwnTake(s: State, cpu: nat, fl: nat, b: nat)
    requires Inv(s) && Enabled(s, IdleTake(cpu, fl, b))
    ensures var t := Apply(s, IdleTake(cpu, fl, b));
            Shrinks(s, t, cpu) && t.cpus[cpu].unknown == s.cpus[cpu].unknown - 1 && t.idle[cpu].Zeroing?
  {
    hide GlobalOk, CpuOk, IdleOk, ZeroOk, Shrinks, Take;
    HeadIsFree(s, cpu, Bucket(fl, b, Unknown));
    var p := s.cpus[cpu].pageFree[Bucket(fl, b, Unknown)][0];
    TakeShrinks(s, p, s.pages[p].(pqflags := {}), cpu, Apply(s, IdleTake(cpu, fl, b)));
  }

  lemma OwnReturn(s: State, cpu: nat)
    requires Inv(s) && Enabled(s, IdleDone(cpu))
    ensures var t := Apply(s, IdleDone(cpu));
            Shrinks(s, t, cpu) && cpu < |t.idle| && t.idle[cpu].NoWork?
  {
    hide Inv, Shrinks, Put;
    var w := s.idle[cpu];
    PutElsewhere(s, w.page, ZeroedBack(s.pages[w.page]), Bucket(w.freeList, w.bucket, Zeros), cpu,
                 Apply(s, IdleDone(cpu)));
  }

  lemma ShrinkCounts(s: State, t: State, cpu: nat)
    requires Shrinks(s, t, cpu)
    ensures cpu < |s.cpus| && cpu < |t.cpus| && t.cpus[cpu].unknown <= s.cpus[cpu].unknown
    ensures t.ncolors == s.ncolors && t.nfreelist == s.nfreelist
  {}

  lemma ShrinksRefl(s: State, cpu: nat)
    requires cpu < |s.cpus|
    ensures Shrinks(s, s, cpu)
  {}

  lemma QueueThere(s: State, cpu: nat, fl: nat, color: nat)
    requires Inv(s) && cpu < |s.cpus| && fl < s.nfreelist && color < s.ncolors
    ensures Bucket(fl, color, Unknown) in s.cpus[cpu].pageFree
    ensures s.cpus[cpu].pageFree[Bucket(fl, color, Unknown)] == [] <==> EmptyUnknown(s, cpu, fl, color)
    ensures MaskOk(s.ncolors) && Sized(s)
  {
    assert CpuOk(s.cpus[cpu], CpuMap(s.pages, s.ncolors, cpu), s.nfreelist, s.ncolors);
    hide Indexes, FiledAs, GlobalOk, IdleOk, ZeroOk;
  }

  /** If every UNKNOWN queue of a CPU is empty, it has no unknown pages at all. */
  lemma AllEmptyNoneLeft(s: State, cpu: nat)
    requires Inv(s) && cpu < |s.cpus| && NoUnknown(s.cpus[cpu].pageFree, s.nfreelist, s.ncolors)
    ensures s.cpus[cpu].unknown == 0
  {
    hide NoUnknown, Indexes, IdleOk, ZeroOk, GlobalOk;
    NoUnknowns(s.cpus[cpu], CpuMap(s.pages, s.ncolors, cpu), s.nfreelist, s.ncolors);
  }

  lemma NoUnknowns(u: UvmCpu, f: map<nat, Bucket>, nf: nat, n: nat)
    requires CpuOk(u, f, nf, n) && NoUnknown(u.pageFree, nf, n)
    ensures u.unknown == 0
  {
    forall x | x in f ensures f[x].queue == Zeros {
      var b := f[x];
      assert b in u.pageFree && x in u.pageFree[b];
      assert b != Bucket(b.flist, b.color, Unknown);
    }
    assert FiledAs(f, Unknown) == {};
  }
}
