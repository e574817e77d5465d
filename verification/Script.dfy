/**
 * What a decode function does while the mutex is held, as a sequence of observable actions. A
 * failing Access and a Fault (a division by zero) end the process.
 */
module Script {
  import opened Wrappers
  import opened Word64
  import opened TrackerModel
  import opened Deref

  datatype Action =
    | Log
    | Indent
    | Dedent
    | Access(mem: Option<Mapping>, va: u64, size: u64)
    | Track(a: Allocation)
    | Fault

  /** The deepest panwrap_indent ever gets, far below the range of the source's `short`. */
  const MAX_INDENT: int := 8

  /** The indent after one action, or -1 if it would leave 0 .. MAX_INDENT. */
  function Move(depth: int, a: Action): int {
    match a
    case Indent => if depth < MAX_INDENT then depth + 1 else -1
    case Dedent => if depth > 0 then depth - 1 else -1
    case _ => depth
  }

  /** The indent after a script, or -1 if it ever leaves 0 .. MAX_INDENT. */
  function Walk(script: seq<Action>, depth: int): int {
    if script == [] then depth
    else if Move(depth, script[0]) < 0 then -1
    else Walk(script[1..], Move(depth, script[0]))
  }

  lemma {:induction false} WalkAppend(a: seq<Action>, b: seq<Action>, depth: nat)
    ensures Walk(a + b, depth) == if Walk(a, depth) < 0 then -1 else Walk(b, Walk(a, depth))
  {
    if a == [] {
      assert a + b == b;
    } else {
      assert (a + b)[1..] == a[1..] + b;
      if Move(depth, a[0]) >= 0 { WalkAppend(a[1..], b, Move(depth, a[0])); }
    }
  }

  /** Entered and left at the same indent, and in bounds all the way. */
  predicate Balanced(script: seq<Action>, depth: nat) {
    Walk(script, depth) == depth
  }

  function Closing(n: nat): (c: seq<Action>)
    ensures |c| == n
  {
    if n == 0 then [] else [Dedent] + Closing(n - 1)
  }

  /** Any script that ends no shallower than it began is the front of a balanced one. */
  lemma {:induction false} ClosingBalances(script: seq<Action>, depth: nat, end: nat)
    requires Walk(script, depth) == end >= depth
    ensures Balanced(script + Closing(end - depth), depth)
  {
    WalkAppend(script, Closing(end - depth), depth);
    ClosingWalks(end, end - depth);
  }

  lemma {:induction false} ClosingWalks(from: nat, n: nat)
    requires n <= from
    ensures Walk(Closing(n), from) == from - n
  {
    if n > 0 {
      assert Closing(n)[1..] == Closing(n - 1);
      ClosingWalks(from - 1, n - 1);
    }
  }

  /** The process survives the action. */
  predicate Survives(a: Action, mmaps: seq<Mapping>) {
    match a
    case Access(mem, va, size) => DerefGpu(mmaps, mem, va, size).Some?
    case Fault => false
    case _ => true
  }

  predicate AllSurvive(script: seq<Action>, mmaps: seq<Mapping>) {
    forall i :: 0 <= i < |script| ==> Survives(script[i], mmaps)
  }

  /**
   * An access checked against an explicit mapping names a tracked one and starts in or above it,
   * and there the wrapping bounds check decides containment.
   */
  predicate CheckDecides(a: Action, mmaps: seq<Mapping>) {
    a.Access? && a.mem.Some? ==>
      var Access(mem, va, size) := a;
      && mem.value in mmaps && mem.value.gpuVa <= va
      && (Passes(mem.value, va, size) <==> Contained(mem.value, va, size))
  }

  predicate ChecksDecide(script: seq<Action>, mmaps: seq<Mapping>) {
    forall i :: 0 <= i < |script| ==> CheckDecides(script[i], mmaps)
  }

  /** The dereferences of a script, in order. */
  function Accesses(script: seq<Action>): seq<Action> {
    if script == [] then [] else
    var n := |script| - 1;
    Accesses(script[..n]) + if script[n].Access? then [script[n]] else []
  }

  lemma AccessesGrow(script: seq<Action>, a: Action)
    ensures Accesses(script + [a]) == Accesses(script) + if a.Access? then [a] else []
  {
    assert (script + [a])[..|script|] == script;
  }

  /** The allocations a script tracks, newest first. */
  function Tracked(script: seq<Action>): seq<Allocation> {
    if script == [] then [] else Tracked(script[1..]) + if script[0].Track? then [script[0].a] else []
  }

  lemma {:induction false} TrackedGrows(script: seq<Action>, a: Action)
    ensures Tracked(script + [a]) == (if a.Track? then [a.a] else []) + Tracked(script)
    decreases |script|
  {
    if script == [] {
      assert [a][1..] == [] && [] + [a] == [a];
    } else {
      assert (script + [a])[1..] == script[1..] + [a];
      TrackedGrows(script[1..], a);
    }
  }

  /** Only the last action, if any, ends the process. */
  predicate OnlyLastFails(script: seq<Action>, mmaps: seq<Mapping>) {
    !AllSurvive(script, mmaps) ==>
      var n := |script| - 1; n >= 0 && AllSurvive(script[..n], mmaps) && !Survives(script[n], mmaps)
  }

  /**
   * What the decode functions share: the tracked mappings, the global panwrap_indent, and the
   * trace of what was done. Once an action has ended the process nothing more is done.
   */
  class Recorder {
    const mmaps: seq<Mapping>
    const base: nat
    var indent: int
    var ended: bool
    var trace: seq<Action>

    ghost predicate Valid()
      reads this
    {
      && base <= indent <= MAX_INDENT
      && Walk(trace, base) == indent
      && ChecksDecide(trace, mmaps)
      && (ended <==> !AllSurvive(trace, mmaps))
      && OnlyLastFails(trace, mmaps)
    }

    constructor (depth: nat, mmaps: seq<Mapping>)
      requires depth <= MAX_INDENT
      ensures Valid() && indent == base == depth && trace == [] && !ended && this.mmaps == mmaps
    {
      base, indent, ended, trace := depth, depth, false, [];
      this.mmaps := mmaps;
    }

    method Note(a: Action)
      requires Valid() && !ended && base <= Move(indent, a)
      requires CheckDecides(a, mmaps)
      modifies this
      ensures Valid() && indent == Move(old(indent), a) && trace == old(trace) + [a]
      ensures ended <==> !Survives(a, mmaps)
      ensures Accesses(trace) == old(Accesses(trace)) + if a.Access? then [a] else []
      ensures Tracked(trace) == (if a.Track? then [a.a] else []) + old(Tracked(trace))
    {
      WalkAppend(trace, [a], base);
      SurvivalGrows(trace, a, mmaps);
      AccessesGrow(trace, a);
      TrackedGrows(trace, a);
      assert (trace + [a])[..|trace|] == trace;
      indent := Move(indent, a);
      trace := trace + [a];
      match a
      case Access(mem, va, size) => ended := DerefGpu(mmaps, mem, va, size).None?;
      case Fault => ended := true;
      case _ =>
    }

    method Log()
      requires Valid() && !ended
      modifies this
      ensures Valid() && !ended && indent == old(indent) && trace == old(trace) + [Action.Log]
      ensures Accesses(trace) == old(Accesses(trace)) && Tracked(trace) == old(Tracked(trace))
    {
      Note(Action.Log);
    }

    method Indent()
      requires Valid() && !ended && indent < MAX_INDENT
      modifies this
      ensures Valid() && !ended && indent == old(indent) + 1 && trace == old(trace) + [Action.Indent]
      ensures Accesses(trace) == old(Accesses(trace)) && Tracked(trace) == old(Tracked(trace))
    {
      Note(Action.Indent);
    }

    method Dedent()
      requires Valid() && !ended && indent > base
      modifies this
      ensures Valid() && !ended && indent == old(indent) - 1 && trace == old(trace) + [Action.Dedent]
      ensures Accesses(trace) == old(Accesses(trace)) && Tracked(trace) == old(Tracked(trace))
    {
      Note(Action.Dedent);
    }

    /** panwrap_deref_gpu_mem; None means the process is aborted. */
    method DerefMem(mem: Option<Mapping>, va: u64, size: u64) returns (p: Option<u64>)
      requires Valid() && !ended
      requires mem.Some? ==> mem.value in mmaps && Fits(mem.value) && CheckIsSound(mem.value, va, size)
      modifies this
      ensures Valid() && indent == old(indent) && trace == old(trace) + [Access(mem, va, size)]
      ensures p == DerefGpu(mmaps, mem, va, size) && (ended <==> p.None?)
      ensures Accesses(trace) == old(Accesses(trace)) + [Access(mem, va, size)] && Tracked(trace) == old(Tracked(trace))
    {
      if mem.Some? { CheckExact(mem.value, va, size); }
      Note(Access(mem, va, size));
      p := DerefGpu(mmaps, mem, va, size);
    }
  }

  lemma SurvivalGrows(script: seq<Action>, a: Action, mmaps: seq<Mapping>)
    ensures AllSurvive(script + [a], mmaps) <==> AllSurvive(script, mmaps) && Survives(a, mmaps)
    ensures ChecksDecide(script + [a], mmaps) <==> ChecksDecide(script, mmaps) && CheckDecides(a, mmaps)
  {
    assert (script + [a])[..|script|] == script && (script + [a])[|script|] == a;
    assert forall i :: 0 <= i < |script| ==> (script + [a])[i] == script[i];
  }
}
