/**
 * What the tracker of panwrap/panwrap-mmap.c stands for: the pending allocations and the live
 * mappings, newest first, and what each operation does to them.
 */
module TrackerModel {
  import opened Word64

  /** MALI_MEM_SAME_VA */
  const SAME_VA: bv32 := 0x2000

  /** struct panwrap_allocated_memory */
  datatype Allocation = Allocation(gpuVa: u64, flags: bv32)

  /** struct panwrap_mapped_memory */
  datatype Mapping = Mapping(length: u64, addr: u64, gpuVa: u64, prot: bv32, flags: bv32)

  datatype State = State(allocations: seq<Allocation>, mmaps: seq<Mapping>)

  const Empty := State([], [])

  predicate IsSameVa(flags: bv32) {
    flags & SAME_VA != 0
  }

  /** The tests of the four lookups; both "containing" tests include the end address. */
  datatype Query =
    | ByAddr(a: u64)
    | AddrContaining(a: u64)
    | ByGpuVa(a: u64)
    | GpuContaining(a: u64)

  predicate Matches(q: Query, m: Mapping) {
    match q
    case ByAddr(a) => m.addr == a
    case AddrContaining(a) => m.addr <= a <= Add(m.addr, m.length)
    case ByGpuVa(a) => m.gpuVa == a
    case GpuContaining(a) => m.gpuVa <= a <= Add(m.gpuVa, m.length)
  }

  /** The position of the first match from the front, or the length if there is none. */
  function Find(q: Query, s: seq<Mapping>): (k: nat)
    ensures k <= |s|
    ensures forall i :: 0 <= i < k ==> !Matches(q, s[i])
    ensures k < |s| ==> Matches(q, s[k])
  {
    if s == [] || Matches(q, s[0]) then 0 else 1 + Find(q, s[1..])
  }

  function FindPending(gpuVa: u64, s: seq<Allocation>): (k: nat)
    ensures k <= |s|
    ensures forall i :: 0 <= i < k ==> s[i].gpuVa != gpuVa
    ensures k < |s| ==> s[k].gpuVa == gpuVa
  {
    if s == [] || s[0].gpuVa == gpuVa then 0 else 1 + FindPending(gpuVa, s[1..])
  }

  function Remove<T>(s: seq<T>, k: nat): (r: seq<T>)
    requires k < |s|
    ensures |r| == |s| - 1
    ensures forall i :: 0 <= i < |r| ==> r[i] == s[if i < k then i else i + 1]
    ensures multiset(s) == multiset(r) + multiset{s[k]}
  {
    assert s == s[..k] + [s[k]] + s[k + 1..];
    s[..k] + s[k + 1..]
  }

  function NewMapping(a: Allocation, addr: u64, length: u64, prot: bv32): Mapping {
    Mapping(length, addr, if IsSameVa(a.flags) then addr else a.gpuVa, prot, a.flags)
  }

  function TrackAllocation(t: State, a: Allocation): State {
    t.(allocations := [a] + t.allocations)
  }

  function TrackMmap(t: State, gpuVa: u64, addr: u64, length: u64, prot: bv32): State {
    var k := FindPending(gpuVa, t.allocations);
    if k == |t.allocations| then t
    else State(Remove(t.allocations, k), [NewMapping(t.allocations[k], addr, length, prot)] + t.mmaps)
  }

  function TrackMunmap(t: State, addr: u64): State {
    var k := Find(ByAddr(addr), t.mmaps);
    if k == |t.mmaps| then t else t.(mmaps := Remove(t.mmaps, k))
  }

  /** One call into the tracker. */
  datatype Event =
    | Allocated(a: Allocation)
    | Mapped(gpuVa: u64, addr: u64, length: u64, prot: bv32)
    | Unmapped(addr: u64)

  function Apply(t: State, e: Event): State {
    match e
    case Allocated(a) => TrackAllocation(t, a)
    case Mapped(g, addr, n, p) => TrackMmap(t, g, addr, n, p)
    case Unmapped(addr) => TrackMunmap(t, addr)
  }

  function Run(events: seq<Event>): State {
    if events == [] then Empty else Apply(Run(events[..|events| - 1]), events[|events| - 1])
  }

  /** What became of everything a trace of calls ever tracked. */
  datatype Tally = Tally(tracked: multiset<Allocation>, consumed: multiset<Allocation>,
                         mapped: multiset<Mapping>, unmapped: multiset<Mapping>)

  /** The books kept beside the tracker: what one call took in and gave out. */
  function Enter(b: Tally, t: State, e: Event): Tally {
    match e
    case Allocated(a) => b.(tracked := b.tracked + multiset{a})
    case Mapped(g, addr, n, p) =>
      var k := FindPending(g, t.allocations);
      if k == |t.allocations| then b else
      b.(consumed := b.consumed + multiset{t.allocations[k]},
         mapped := b.mapped + multiset{NewMapping(t.allocations[k], addr, n, p)})
    case Unmapped(addr) =>
      var k := Find(ByAddr(addr), t.mmaps);
      if k == |t.mmaps| then b else b.(unmapped := b.unmapped + multiset{t.mmaps[k]})
  }

  function Book(events: seq<Event>): Tally {
    if events == [] then Tally(multiset{}, multiset{}, multiset{}, multiset{}) else
    var before := events[..|events| - 1];
    Enter(Book(before), Run(before), events[|events| - 1])
  }

  /**
   * Nothing is lost or invented on any trace: every allocation tracked is pending or was consumed
   * by a successful mmap, and every mapping made is live or was unmapped; mmaps pair up with
   * consumed allocations one to one.
   */
  lemma {:induction false} Conservation(events: seq<Event>)
    ensures var t, b := Run(events), Book(events);
            && b.tracked == multiset(t.allocations) + b.consumed
            && b.mapped == multiset(t.mmaps) + b.unmapped
            && |b.tracked| == |t.allocations| + |b.mapped|
            && |b.mapped| == |t.mmaps| + |b.unmapped|
  {
    BooksBalance(events);
    var t, b := Run(events), Book(events);
    assert |multiset(t.allocations)| == |t.allocations| && |multiset(t.mmaps)| == |t.mmaps|;
  }

  ghost predicate BooksAgree(t: State, b: Tally) {
    && b.tracked == multiset(t.allocations) + b.consumed
    && b.mapped == multiset(t.mmaps) + b.unmapped
    && |b.consumed| == |b.mapped|
  }

  /** Adding at the front of a list adds to its side of a balance. */
  lemma PushFront<T>(total: multiset<T>, s: seq<T>, gone: multiset<T>, x: T)
    requires total == multiset(s) + gone
    ensures total + multiset{x} == multiset([x] + s) + gone
  {
    assert multiset([x] + s) == multiset(s) + multiset{x};
  }

  /** Removing from a list moves an element across a balance. */
  lemma TakeOut<T>(total: multiset<T>, s: seq<T>, gone: multiset<T>, k: nat)
    requires total == multiset(s) + gone && k < |s|
    ensures total == multiset(Remove(s, k)) + (gone + multiset{s[k]})
  {
  }

  lemma EntryBalances(t: State, b: Tally, e: Event)
    requires BooksAgree(t, b)
    ensures BooksAgree(Apply(t, e), Enter(b, t, e))
  {
    match e
    case Allocated(a) => PushFront(b.tracked, t.allocations, b.consumed, a);
    case Mapped(g, addr, n, p) =>
      var k := FindPending(g, t.allocations);
      if k < |t.allocations| {
        PushFront(b.mapped, t.mmaps, b.unmapped, NewMapping(t.allocations[k], addr, n, p));
        TakeOut(b.tracked, t.allocations, b.consumed, k);
      }
    case Unmapped(addr) =>
      var k := Find(ByAddr(addr), t.mmaps);
      if k < |t.mmaps| { TakeOut(b.mapped, t.mmaps, b.unmapped, k); }
  }

  lemma {:induction false} BooksBalance(events: seq<Event>)
    ensures BooksAgree(Run(events), Book(events))
  {
    if events != [] {
      var before := events[..|events| - 1];
      BooksBalance(before);
      EntryBalances(Run(before), Book(before), events[|events| - 1]);
    }
  }

  /** Every SAME_VA mapping has its CPU address as its GPU address. */
  ghost predicate SameVaAgree(t: State) {
    forall i :: 0 <= i < |t.mmaps| && IsSameVa(t.mmaps[i].flags) ==> t.mmaps[i].gpuVa == t.mmaps[i].addr
  }

  lemma ApplyKeepsSameVa(t: State, e: Event)
    requires SameVaAgree(t)
    ensures SameVaAgree(Apply(t, e))
  {
    var u := Apply(t, e);
    if e.Mapped? && |u.mmaps| > |t.mmaps| {
      assert forall i :: 1 <= i < |u.mmaps| ==> u.mmaps[i] == t.mmaps[i - 1];
    }
  }

  /** ... throughout its lifetime, on every trace. */
  lemma {:induction false} SameVaForLife(events: seq<Event>)
    ensures SameVaAgree(Run(events))
  {
    if events != [] {
      SameVaForLife(events[..|events| - 1]);
      ApplyKeepsSameVa(Run(events[..|events| - 1]), events[|events| - 1]);
    }
  }

  /** What an mmap makes of an allocation, field by field. */
  ghost predicate MadeFrom(m: Mapping, a: Allocation, gpuVa: u64, addr: u64, length: u64, prot: bv32) {
    && a.gpuVa == gpuVa && m.length == length && m.addr == addr && m.prot == prot && m.flags == a.flags
    && m.gpuVa == if a.flags & 0x2000 == 0 then gpuVa else addr
  }

  /**
   * From `t` to `u` the most recently tracked of the allocations pending at the GPU address is
   * consumed and one mapping comes in front, with the allocation's flags, at the allocation's GPU
   * address or, for SAME_VA, at its own; when none is pending neither list changes.
   */
  ghost predicate TakesNewest(t: State, u: State, gpuVa: u64, addr: u64, length: u64, prot: bv32) {
    if exists i :: 0 <= i < |t.allocations| && t.allocations[i].gpuVa == gpuVa
    then exists k :: && 0 <= k < |t.allocations| && t.allocations[k].gpuVa == gpuVa
                     && (forall i :: 0 <= i < k ==> t.allocations[i].gpuVa != gpuVa)
                     && u.allocations == t.allocations[..k] + t.allocations[k + 1..]
                     && u.mmaps != [] && u.mmaps[1..] == t.mmaps
                     && MadeFrom(u.mmaps[0], t.allocations[k], gpuVa, addr, length, prot)
    else u == t
  }

  /** What track_mmap does, field by field. */
  lemma MmapConsumesNewest(t: State, gpuVa: u64, addr: u64, length: u64, prot: bv32)
    ensures TakesNewest(t, TrackMmap(t, gpuVa, addr, length, prot), gpuVa, addr, length, prot)
  {
    var k := FindPending(gpuVa, t.allocations);
    if k < |t.allocations| {
      assert t.allocations[k].gpuVa == gpuVa;
      var u := TrackMmap(t, gpuVa, addr, length, prot);
      assert u.allocations == t.allocations[..k] + t.allocations[k + 1..] && u.mmaps[1..] == t.mmaps;
    }
  }

  /** The mapping comes from the mmap at event `j` and the allocation tracked at event `i` before it. */
  ghost predicate ComesFrom(m: Mapping, events: seq<Event>, i: nat, j: nat) {
    && i < j < |events| && events[i].Allocated? && events[j].Mapped?
    && MadeFrom(m, events[i].a, events[j].gpuVa, events[j].addr, events[j].length, events[j].prot)
  }

  lemma {:induction false} PendingWasTracked(events: seq<Event>, a: Allocation)
    requires a in Run(events).allocations
    ensures exists i :: 0 <= i < |events| && events[i] == Allocated(a)
    decreases |events|
  {
    if events != [] {
      var n := |events| - 1;
      if events[n] != Allocated(a) {
        PendingWasTracked(events[..n], a);
        var i :| 0 <= i < n && events[..n][i] == Allocated(a);
        assert events[i] == Allocated(a);
      }
    }
  }

  /**
   * Every mapping, on every trace: it was made by an mmap at the GPU address of an allocation
   * tracked before; length, CPU address and protection are the mmap's, the flags are the
   * allocation's, and the GPU address is the one asked for unless the allocation is SAME_VA.
   */
  lemma {:induction false} Provenance(events: seq<Event>, m: Mapping)
    requires m in Run(events).mmaps
    ensures exists i, j :: ComesFrom(m, events, i, j)
    decreases |events|
  {
    if events != [] {
      var n := |events| - 1;
      var before, e := events[..n], events[n];
      if m in Run(before).mmaps {
        Provenance(before, m);
        var i, j :| ComesFrom(m, before, i, j);
        assert ComesFrom(m, events, i, j);
      } else {
        var k := FindPending(e.gpuVa, Run(before).allocations);
        var a := Run(before).allocations[k];
        PendingWasTracked(before, a);
        var i :| 0 <= i < n && before[i] == Allocated(a);
        assert ComesFrom(m, events, i, n);
      }
    }
  }

  /** A freshly tracked allocation, once mapped and unmapped again, leaves no trace. */
  lemma MapThenUnmap(t: State, a: Allocation, addr: u64, length: u64, prot: bv32)
    ensures var u := TrackMmap(TrackAllocation(t, a), a.gpuVa, addr, length, prot);
            && u.allocations == t.allocations && u.mmaps != [] && u.mmaps[1..] == t.mmaps
            && MadeFrom(u.mmaps[0], a, a.gpuVa, addr, length, prot)
            && TrackMunmap(u, addr) == t
  {
    var u := TrackMmap(TrackAllocation(t, a), a.gpuVa, addr, length, prot);
    assert FindPending(a.gpuVa, [a] + t.allocations) == 0;
    assert u.allocations == t.allocations;
    assert Find(ByAddr(addr), u.mmaps) == 0;
    assert Remove(u.mmaps, 0) == t.mmaps;
  }

  /** From `t` to `u` the newest mapping that starts at the address is gone, and nothing else. */
  ghost predicate DropsNewest(t: State, u: State, addr: u64) {
    if exists i :: 0 <= i < |t.mmaps| && t.mmaps[i].addr == addr
    then exists k :: && 0 <= k < |t.mmaps| && t.mmaps[k].addr == addr
                     && (forall i :: 0 <= i < k ==> t.mmaps[i].addr != addr)
                     && u == State(t.allocations, t.mmaps[..k] + t.mmaps[k + 1..])
    else u == t
  }

  /** What track_munmap does, without its search. */
  lemma MunmapDropsNewest(t: State, addr: u64)
    ensures DropsNewest(t, TrackMunmap(t, addr), addr)
  {
    var k := Find(ByAddr(addr), t.mmaps);
    if k < |t.mmaps| {
      assert t.mmaps[k].addr == addr;
      assert TrackMunmap(t, addr).mmaps == t.mmaps[..k] + t.mmaps[k + 1..];
    }
  }
}
