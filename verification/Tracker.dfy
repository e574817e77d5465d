/**
 * The tracker as the source runs it: two intrusive lists, changed in place. The ghost fields
 * record which nodes the lists are made of and which abstract state they stand for.
 */
module Tracker {
  import opened Wrappers
  import opened Word64
  import opened IntrusiveList
  import opened TrackerModel

  /** The values stored in `nodes`, in order. */
  ghost predicate Holds<T(!new)>(nodes: seq<Link<T>>, values: seq<T>)
    reads nodes
  {
    && |nodes| == |values|
    && forall i :: 0 <= i < |nodes| ==> nodes[i].value == Some(values[i])
  }

  /** Where a walk of list_for_each_entry stands after `k` entries. */
  ghost predicate WalkAt<T>(head: Link<T>, s: seq<Link<T>>, pos: Link<T>, k: nat) {
    k <= |s| && pos == if k < |s| then s[k] else head
  }

  lemma WalkFirst<T>(head: Link<T>, s: seq<Link<T>>)
    requires IsRing([head] + s)
    ensures WalkAt(head, s, head.next, 0)
  {
    Neighbours([head] + s, 0);
  }

  lemma WalkNext<T>(head: Link<T>, s: seq<Link<T>>, pos: Link<T>, k: nat)
    requires IsRing([head] + s) && WalkAt(head, s, pos, k)
    ensures pos == head <==> k == |s|
    ensures k < |s| ==> WalkAt(head, s, pos.next, k + 1)
  {
    HeadApart(head, s);
    if k < |s| { Neighbours([head] + s, k + 1); }
  }

  lemma FindIs(q: Query, s: seq<Mapping>, k: nat)
    requires k <= |s| && (forall i :: 0 <= i < k ==> !Matches(q, s[i])) && (k < |s| ==> Matches(q, s[k]))
    ensures Find(q, s) == k
  {
  }

  lemma FindPendingIs(g: u64, s: seq<Allocation>, k: nat)
    requires k <= |s| && (forall i :: 0 <= i < k ==> s[i].gpuVa != g) && (k < |s| ==> s[k].gpuVa == g)
    ensures FindPending(g, s) == k
  {
  }

  /** The list at `head` consists of `nodes`, which store `values`. */
  ghost predicate Represents<T(!new)>(head: Link<T>, nodes: seq<Link<T>>, values: seq<T>)
    reads head, nodes
  {
    IsRing([head] + nodes) && Holds(nodes, values)
  }

  /** malloc, field stores and list_add. */
  method AddNew<T(!new)>(head: Link<T>, v: T, ghost nodes: seq<Link<T>>, ghost values: seq<T>)
    returns (mem: Link<T>)
    requires Represents(head, nodes, values)
    modifies head`next, head`prev, nodes`next, nodes`prev
    ensures fresh(mem) && Represents(head, [mem] + nodes, [v] + values)
  {
    mem := new Link(Some(v));
    Neighbours([head] + nodes, 0);
    ListAdd(mem, head, nodes);
    assert [head] + ([mem] + nodes) == [head, mem] + nodes;
  }

  /** list_del on the entry at position `k`. */
  method DeleteAt<T(!new)>(head: Link<T>, mem: Link<T>, ghost k: nat, ghost nodes: seq<Link<T>>, ghost values: seq<T>)
    requires Represents(head, nodes, values) && k < |nodes| && nodes[k] == mem
    modifies head`next, head`prev, nodes`next, nodes`prev
    ensures Represents(head, Remove(nodes, k), Remove(values, k)) && Loose(mem)
  {
    Neighbours([head] + nodes, k + 1);
    ListDel(mem, [head] + nodes, k + 1, [head] + Remove(nodes, k));
  }

  class Lists {
    const allocations: Link<Allocation>
    const mmaps: Link<Mapping>

    ghost var pending: seq<Link<Allocation>>
    ghost var mapped: seq<Link<Mapping>>
    ghost var model: State

    ghost predicate Valid()
      reads this, allocations, pending, mmaps, mapped
    {
      && Represents(allocations, pending, model.allocations)
      && Represents(mmaps, mapped, model.mmaps)
    }

    /** The entry a lookup is specified to return: the first match, or null. */
    ghost function Result(q: Query): (r: Link?<Mapping>)
      requires Valid()
      reads this, allocations, pending, mmaps, mapped
    {
      var k := Find(q, model.mmaps);
      if k < |mapped| then mapped[k] else null
    }

    /** The two static LIST_HEADs. */
    constructor ()
      ensures Valid() && model == Empty
      ensures fresh(allocations) && fresh(mmaps) && pending == [] && mapped == []
    {
      allocations := new Link(None);
      mmaps := new Link(None);
      pending, mapped, model := [], [], Empty;
      new;
      assert [allocations] + pending == [allocations] && [mmaps] + mapped == [mmaps];
    }

    /** panwrap_find_mapped_mem */
    method FindMappedMem(addr: u64) returns (r: Link?<Mapping>)
      requires Valid()
      ensures r == Result(ByAddr(addr))
      ensures r == null ==> forall m :: m in model.mmaps ==> m.addr != addr
      ensures r != null ==>
                exists k :: && 0 <= k < |mapped| && r == mapped[k] && r.value == Some(model.mmaps[k])
                            && model.mmaps[k].addr == addr
                            && forall m :: m in model.mmaps[..k] ==> m.addr != addr
    {
      var pos := mmaps.next;
      ghost var k := 0;
      WalkFirst(mmaps, mapped);
      while pos != mmaps
        invariant WalkAt(mmaps, mapped, pos, k)
        invariant forall i :: 0 <= i < k ==> !Matches(ByAddr(addr), model.mmaps[i])
        decreases |mapped| - k
      {
        WalkNext(mmaps, mapped, pos, k);
        var m := pos.value.value;
        if m.addr == addr {
          FindIs(ByAddr(addr), model.mmaps, k);
          return pos;
        }
        pos := pos.next;
        k := k + 1;
      }
      WalkNext(mmaps, mapped, pos, k);
      FindIs(ByAddr(addr), model.mmaps, k);
      r := null;
    }

    /** panwrap_find_mapped_mem_containing */
    method FindMappedMemContaining(addr: u64) returns (r: Link?<Mapping>)
      requires Valid()
      ensures r == Result(AddrContaining(addr))
      ensures r == null ==> forall m :: m in model.mmaps ==> !(m.addr <= addr <= Add(m.addr, m.length))
      ensures r != null ==>
                exists k :: && 0 <= k < |mapped| && r == mapped[k] && r.value == Some(model.mmaps[k])
                            && model.mmaps[k].addr <= addr <= Add(model.mmaps[k].addr, model.mmaps[k].length)
                            && forall m :: m in model.mmaps[..k] ==> !(m.addr <= addr <= Add(m.addr, m.length))
    {
      var pos := mmaps.next;
      ghost var k := 0;
      WalkFirst(mmaps, mapped);
      while pos != mmaps
        invariant WalkAt(mmaps, mapped, pos, k)
        invariant forall i :: 0 <= i < k ==> !Matches(AddrContaining(addr), model.mmaps[i])
        decreases |mapped| - k
      {
        WalkNext(mmaps, mapped, pos, k);
        var m := pos.value.value;
        if addr >= m.addr && addr <= Add(m.addr, m.length) {
          FindIs(AddrContaining(addr), model.mmaps, k);
          return pos;
        }
        pos := pos.next;
        k := k + 1;
      }
      WalkNext(mmaps, mapped, pos, k);
      FindIs(AddrContaining(addr), model.mmaps, k);
      r := null;
    }

    /** panwrap_find_mapped_gpu_mem */
    method FindMappedGpuMem(addr: u64) returns (r: Link?<Mapping>)
      requires Valid()
      ensures r == Result(ByGpuVa(addr))
      ensures r == null ==> forall m :: m in model.mmaps ==> m.gpuVa != addr
      ensures r != null ==>
                exists k :: && 0 <= k < |mapped| && r == mapped[k] && r.value == Some(model.mmaps[k])
                            && model.mmaps[k].gpuVa == addr
                            && forall m :: m in model.mmaps[..k] ==> m.gpuVa != addr
    {
      var pos := mmaps.next;
      ghost var k := 0;
      WalkFirst(mmaps, mapped);
      while pos != mmaps
        invariant WalkAt(mmaps, mapped, pos, k)
        invariant forall i :: 0 <= i < k ==> !Matches(ByGpuVa(addr), model.mmaps[i])
        decreases |mapped| - k
      {
        WalkNext(mmaps, mapped, pos, k);
        var m := pos.value.value;
        if m.gpuVa == addr {
          FindIs(ByGpuVa(addr), model.mmaps, k);
          return pos;
        }
        pos := pos.next;
        k := k + 1;
      }
      WalkNext(mmaps, mapped, pos, k);
      FindIs(ByGpuVa(addr), model.mmaps, k);
      r := null;
    }

    /** panwrap_find_mapped_gpu_mem_containing */
    method FindMappedGpuMemContaining(addr: u64) returns (r: Link?<Mapping>)
      requires Valid()
      ensures r == Result(GpuContaining(addr))
      ensures r == null ==> forall m :: m in model.mmaps ==> !(m.gpuVa <= addr <= Add(m.gpuVa, m.length))
      ensures r != null ==>
                exists k :: && 0 <= k < |mapped| && r == mapped[k] && r.value == Some(model.mmaps[k])
                            && model.mmaps[k].gpuVa <= addr <= Add(model.mmaps[k].gpuVa, model.mmaps[k].length)
                            && forall m :: m in model.mmaps[..k] ==> !(m.gpuVa <= addr <= Add(m.gpuVa, m.length))
    {
      var pos := mmaps.next;
      ghost var k := 0;
      WalkFirst(mmaps, mapped);
      while pos != mmaps
        invariant WalkAt(mmaps, mapped, pos, k)
        invariant forall i :: 0 <= i < k ==> !Matches(GpuContaining(addr), model.mmaps[i])
        decreases |mapped| - k
      {
        WalkNext(mmaps, mapped, pos, k);
        var m := pos.value.value;
        if addr >= m.gpuVa && addr <= Add(m.gpuVa, m.length) {
          FindIs(GpuContaining(addr), model.mmaps, k);
          return pos;
        }
        pos := pos.next;
        k := k + 1;
      }
      WalkNext(mmaps, mapped, pos, k);
      FindIs(GpuContaining(addr), model.mmaps, k);
      r := null;
    }

    /** panwrap_track_allocation */
    method TrackAllocation(gpuVa: u64, flags: bv32)
      requires Valid()
      modifies this`pending, this`model, allocations`next, allocations`prev, pending`next, pending`prev
      ensures Valid() && model == TrackerModel.TrackAllocation(old(model), Allocation(gpuVa, flags))
      ensures pending != [] && fresh(pending[0]) && pending == [pending[0]] + old(pending)
    {
      var mem := AddNew(allocations, Allocation(gpuVa, flags), pending, model.allocations);
      pending := [mem] + pending;
      model := TrackerModel.TrackAllocation(model, Allocation(gpuVa, flags));
    }

    /** The malloc and list_add half of panwrap_track_mmap. */
    method PushMapping(m: Mapping)
      requires Valid()
      modifies this`mapped, this`model, mmaps`next, mmaps`prev, mapped`next, mapped`prev
      ensures Valid() && model == old(model).(mmaps := [m] + old(model.mmaps))
      ensures mapped != [] && fresh(mapped[0]) && mapped == [mapped[0]] + old(mapped)
    {
      var mem := AddNew(mmaps, m, mapped, model.mmaps);
      mapped := [mem] + mapped;
      model := model.(mmaps := [m] + model.mmaps);
    }

    /** list_del on the pending allocation at position `k`. */
    method DropPending(mem: Link<Allocation>, ghost k: nat)
      requires Valid() && k < |pending| && pending[k] == mem
      modifies this`pending, this`model, allocations`next, allocations`prev, pending`next, pending`prev
      ensures Valid() && model == old(model).(allocations := Remove(old(model.allocations), k))
      ensures pending == Remove(old(pending), k) && Loose(mem)
    {
      assert |pending| == |model.allocations|;
      hide Represents, Loose;
      DeleteAt(allocations, mem, k, pending, model.allocations);
      pending := Remove(pending, k);
      model := model.(allocations := Remove(model.allocations, k));
    }

    /** list_del on the mapping at position `k`. */
    method DropMapping(mem: Link<Mapping>, ghost k: nat)
      requires Valid() && k < |mapped| && mapped[k] == mem
      modifies this`mapped, this`model, mmaps`next, mmaps`prev, mapped`next, mapped`prev
      ensures Valid() && model == old(model).(mmaps := Remove(old(model.mmaps), k))
      ensures mapped == Remove(old(mapped), k) && Loose(mem)
    {
      DeleteAt(mmaps, mem, k, mapped, model.mmaps);
      mapped := Remove(mapped, k);
      model := model.(mmaps := Remove(model.mmaps, k));
    }

    /** The search loop of panwrap_track_mmap. */
    method FindPendingAllocation(gpuVa: u64) returns (mem: Link?<Allocation>)
      requires Valid()
      ensures var k := FindPending(gpuVa, model.allocations);
              if k < |pending| then mem == pending[k] else mem == null
    {
      var pos := allocations.next;
      ghost var k := 0;
      mem := null;
      WalkFirst(allocations, pending);
      while pos != allocations
        invariant WalkAt(allocations, pending, pos, k)
        invariant forall i :: 0 <= i < k ==> model.allocations[i].gpuVa != gpuVa
        decreases |pending| - k
      {
        WalkNext(allocations, pending, pos, k);
        if pos.value.value.gpuVa == gpuVa {
          FindPendingIs(gpuVa, model.allocations, k);
          return pos;
        }
        pos := pos.next;
        k := k + 1;
      }
      WalkNext(allocations, pending, pos, k);
      FindPendingIs(gpuVa, model.allocations, k);
    }

    /** panwrap_track_mmap */
    method TrackMmap(gpuVa: u64, addr: u64, length: u64, prot: bv32)
      requires Valid()
      modifies this`pending, this`mapped, this`model,
               allocations`next, allocations`prev, pending`next, pending`prev,
               mmaps`next, mmaps`prev, mapped`next, mapped`prev
      ensures Valid() && model == TrackerModel.TrackMmap(old(model), gpuVa, addr, length, prot)
      ensures mapped == old(mapped) || (mapped != [] && fresh(mapped[0]) && mapped == [mapped[0]] + old(mapped))
      ensures forall i :: 0 <= i < |pending| ==> pending[i] in old(pending)
    {
      var mem := FindPendingAllocation(gpuVa);
      ghost var k := FindPending(gpuVa, model.allocations);
      if mem == null {
        return;
      }
      var a := mem.value.value;
      PushMapping(Mapping(length, addr, if IsSameVa(a.flags) then addr else gpuVa, prot, a.flags));
      DropPending(mem, k);
    }

    /** panwrap_track_munmap, and the same steps inside the munmap wrapper. */
    method TrackMunmap(addr: u64)
      requires Valid()
      modifies this`mapped, this`model, mmaps`next, mmaps`prev, mapped`next, mapped`prev
      ensures Valid() && model == TrackerModel.TrackMunmap(old(model), addr)
      ensures forall i :: 0 <= i < |mapped| ==> mapped[i] in old(mapped)
    {
      var mem := FindMappedMem(addr);
      if mem == null {
        return;
      }
      DropMapping(mem, Find(ByAddr(addr), model.mmaps));
    }

    /** Any one call. */
    method Handle(e: Event)
      requires Valid()
      modifies this`pending, this`mapped, this`model,
               allocations`next, allocations`prev, pending`next, pending`prev,
               mmaps`next, mmaps`prev, mapped`next, mapped`prev
      ensures Valid() && model == Apply(old(model), e)
      ensures forall i :: 0 <= i < |pending| ==> pending[i] in old(pending) || fresh(pending[i])
      ensures forall i :: 0 <= i < |mapped| ==> mapped[i] in old(mapped) || fresh(mapped[i])
    {
      match e
      case Allocated(a) => TrackAllocation(a.gpuVa, a.flags);
      case Mapped(g, addr, length, prot) => TrackMmap(g, addr, length, prot);
      case Unmapped(addr) => TrackMunmap(addr);
    }
  }

  /** Any trace of calls, run on the linked lists, ends in the state of the same abstract run. */
  method Replay(events: seq<Event>) returns (lists: Lists)
    ensures lists.Valid() && lists.model == Run(events)
  {
    lists := new Lists();
    for n := 0 to |events|
      invariant fresh(lists) && fresh(lists.allocations) && fresh(lists.mmaps)
      invariant forall i :: 0 <= i < |lists.pending| ==> fresh(lists.pending[i])
      invariant forall i :: 0 <= i < |lists.mapped| ==> fresh(lists.mapped[i])
      invariant lists.Valid() && lists.model == Run(events[..n])
    {
      assert events[..n + 1][..n] == events[..n];
      lists.Handle(events[n]);
    }
    assert events[..|events|] == events;
  }
}
