/**
 * The overridden libc calls of panwrap/panwrap-syscall.c, run by any number of threads.
 *
 * A thread first makes the unlocked tests of mali_fd, one shared read at a time, and then runs
 * the straight-line code its call comes to, one operation at a time; between any two steps any
 * other thread may step and time may pass. The kernel is an adversary within the limits that
 * Allowed states: a mapping it hands out overlaps no live one, and an unmapping removes no
 * tracked mapping but the one named by its start address.
 */
module Interception {
  import opened Wrappers
  import opened Word64
  import T = TrackerModel
  import opened Script
  import C = ClockModel
  import D = Deref

  type Tid = nat
  type CallId = nat

  /** What open's path test distinguishes: "/dev/mali0", another path with "/dev/" in it, the rest. */
  datatype Path = MaliDevice | OtherDevice | NoDevice

  /**
   * A call of an overridden function. `pre` and `post` are what the decode functions will do
   * before and after the request; `hasArg` is false for requests without an argument.
   */
  datatype Call =
    | Open(path: Path)
    | Close(fd: int)
    | Ioctl(fd: int, hasArg: bool, pre: seq<Action>, post: seq<Action>)
    | Mmap(fd: int, offset: u64, length: u64, prot: bv32)
    | Munmap(addr: u64)

  datatype Op =
    | Lock
    | Unlock
    | FreezeTime
    | UnfreezeTime
    | Do(a: Action)
    | KernelOpen
    | SetFd(path: Path)
    | ClearFd(fd: int)
    | KernelClose
    | KernelIoctl
    | KernelMmap(length: u64)
    | KernelMmapUntraced(length: u64)
    | TrackMapping(offset: u64, length: u64, prot: bv32)
    | KernelMunmap(addr: u64)
    | Untrack(addr: u64)

  /** Where a call stands with respect to its one critical section. */
  datatype Stage = Before | Inside | After

  /** The result a call still has to process: an fd, a mapping to track, an address to forget. */
  datatype Pending = Nothing | HasFd(fd: int) | HasMapping(addr: u64, length: u64) | Unmapped(addr: u64)

  datatype Thread =
    | Testing(id: CallId, call: Call, looks: nat)
    | Running(id: CallId, call: Call, code: seq<Op>, stage: Stage, pending: Pending)

  /** One line of the log: the call that wrote it, the critical section, the indent and the timestamp. */
  datatype Line = Line(call: CallId, section: nat, indent: int, stamp: int)

  /**
   * The shared state. `live` are the kernel's mappings, by start address. The last four fields
   * only keep history: the exact time spent frozen, the calls that took the mutex in order, the
   * number of calls begun, and the log.
   */
  datatype State = State(
    maliFd: int,
    holder: Option<Tid>,
    threads: map<Tid, Thread>,
    live: map<u64, u64>,
    tracker: T.State,
    clock: C.Clock,
    indent: int,
    now: int,
    aborted: bool,
    spent: int,
    sections: seq<CallId>,
    calls: nat,
    log: seq<Line>)

  function Initial(now: int): State {
    State(0, None, map[], map[], T.Empty, C.Started(now), 0, now, false, 0, [], 0, [])
  }

  function Acts(script: seq<Action>): (ops: seq<Op>)
    ensures |ops| == |script|
  {
    if script == [] then [] else [Do(script[0])] + Acts(script[1..])
  }

  /** The code of a call that is not traced. */
  function Untraced(call: Call): seq<Op> {
    match call
    case Close(_) => [KernelClose]
    case Ioctl(_, _, _, _) => [KernelIoctl]
    case Mmap(_, _, length, _) => [KernelMmapUntraced(length)]
    case _ => []
  }

  function IoctlTail(post: seq<Action>): seq<Op> {
    [UnfreezeTime, KernelIoctl, FreezeTime, Do(Log)] + (Acts(post) + [Do(Dedent), UnfreezeTime, Unlock])
  }

  /** The code of a traced call. */
  function Traced(call: Call): seq<Op> {
    match call
    case Open(path) => [KernelOpen, Lock, SetFd(path), Unlock]
    case Close(fd) => [Lock, ClearFd(fd), Unlock, KernelClose]
    case Ioctl(_, hasArg, pre, post) =>
      if hasArg
      then [Lock, FreezeTime, Do(Log), Do(Indent)] + (Acts(pre) + IoctlTail(post))
      else [Lock, FreezeTime, Do(Log), UnfreezeTime, KernelIoctl, FreezeTime,
            Do(Indent), Do(Log), Do(Dedent), UnfreezeTime, Unlock]
    case Mmap(_, offset, length, prot) =>
      [Lock, KernelMmap(length), FreezeTime, TrackMapping(offset, length, prot), UnfreezeTime, Unlock]
    case Munmap(addr) => [Lock, KernelMunmap(addr), FreezeTime, Untrack(addr), UnfreezeTime, Unlock]
  }

  /** What one unlocked test decides: go on testing, run untraced, run traced. */
  datatype Verdict = TestAgain | RunUntraced | RunTraced

  /** The tests in front of the critical sections; each looks at mali_fd once. */
  function Test(call: Call, looks: nat, maliFd: int): Verdict {
    match call
    case Open(_) => RunTraced
    case Munmap(_) => RunTraced
    case Close(fd) =>
      if looks == 0 then (if fd <= 0 || maliFd == 0 then RunUntraced else TestAgain)
      else if fd != maliFd then RunUntraced else RunTraced
    case Ioctl(fd, _, _, _) => if fd != 0 && fd != maliFd then RunUntraced else RunTraced
    case Mmap(fd, _, _, _) =>
      if looks == 0 then (if maliFd == 0 then RunUntraced else TestAgain)
      else if fd != maliFd then RunUntraced else RunTraced
  }

  /** The kernel's part in a step: the fd opened, the address mapped, the mappings removed. */
  datatype Kernel = Kernel(fd: int, addr: u64, gone: set<u64>)

  datatype Step =
    | Begin(tid: Tid, call: Call)
    | TestFd(tid: Tid)
    | Exec(tid: Tid, k: Kernel)
    | Return(tid: Tid)
    | Tick(dt: nat)

  predicate RangesApart(a: int, n: int, b: int, m: int) {
    a + n <= b || b + m <= a
  }

  /** mmap succeeds, inside the address space and clear of everything live. */
  ghost predicate MapsFresh(live: map<u64, u64>, addr: u64, length: u64) {
    && length > 0 && addr + length < TWO64
    && forall b :: b in live ==> RangesApart(addr, length, b, live[b])
  }

  /** munmap of `addr` hits no tracked mapping except the one that starts there. */
  ghost predicate UnmapsOnly(live: map<u64, u64>, mmaps: seq<T.Mapping>, addr: u64, gone: set<u64>) {
    && gone <= live.Keys
    && forall i :: 0 <= i < |mmaps| && mmaps[i].addr in gone ==> mmaps[i].addr == addr
  }

  /** The decode functions are called at indent 1 and keep the indent balanced. */
  predicate WellFormed(call: Call) {
    call.Ioctl? ==> Balanced(call.pre, 1) && Balanced(call.post, 1)
  }

  predicate AtOp(s: State, tid: Tid) {
    tid in s.threads && s.threads[tid].Running? && s.threads[tid].code != []
  }

  ghost predicate Allowed(s: State, step: Step) {
    !s.aborted &&
    match step
    case Begin(tid, call) => tid !in s.threads && WellFormed(call)
    case TestFd(tid) => tid in s.threads && s.threads[tid].Testing?
    case Return(tid) => tid in s.threads && s.threads[tid].Running? && s.threads[tid].code == []
    case Tick(_) => true
    case Exec(tid, k) =>
      && AtOp(s, tid)
      && match s.threads[tid].code[0]
         case Lock => s.holder == None
         case KernelMmap(length) => MapsFresh(s.live, k.addr, length)
         case KernelMmapUntraced(length) => MapsFresh(s.live, k.addr, length)
         case KernelMunmap(addr) => UnmapsOnly(s.live, s.tracker.mmaps, addr, k.gone)
         case _ => true
  }

  /** panwrap_log: a line with the current indent and timestamp. */
  function LogLine(s: State, id: CallId): State {
    s.(log := s.log + [Line(id, |s.sections|, s.indent, C.Stamp(s.clock, s.now))])
  }

  /** Several lines in a row, at the same indent and time. */
  function LogLines(s: State, id: CallId, n: nat): State {
    s.(log := s.log + seq(n, _ => Line(id, |s.sections|, s.indent, C.Stamp(s.clock, s.now))))
  }

  /** An action of a decode function; a failing dereference or a fault ends the process. */
  function Perform(s: State, id: CallId, a: Action): State {
    match a
    case Log => LogLine(s, id)
    case Indent => s.(indent := s.indent + 1)
    case Dedent => s.(indent := s.indent - 1)
    case Access(mem, va, size) => if D.DerefGpu(s.tracker.mmaps, mem, va, size).None? then s.(aborted := true) else s
    case Fault => s.(aborted := true)
    case Track(alloc) => LogLine(s, id).(tracker := T.TrackAllocation(s.tracker, alloc))
  }

  /** The effect of an operation on everything but its own thread. */
  function Effect(s: State, t: Thread, tid: Tid, k: Kernel): State
    requires t.Running? && t.code != []
  {
    match t.code[0]
    case Lock => s.(holder := Some(tid), sections := s.sections + [t.id])
    case Unlock => s.(holder := None)
    case FreezeTime => s.(clock := C.Freeze(s.clock, s.now))
    case UnfreezeTime => s.(clock := C.Unfreeze(s.clock, s.now))
    case Do(a) => Perform(s, t.id, a)
    case KernelOpen => s
    case SetFd(path) =>
      if !t.pending.HasFd? || t.pending.fd == -1 then s else
      (match path
       case MaliDevice => LogLine(s, t.id).(maliFd := t.pending.fd)
       case OtherDevice => LogLine(s, t.id)
       case NoDevice => s)
    case ClearFd(fd) => if s.maliFd != 0 && fd == s.maliFd then LogLine(s, t.id).(maliFd := 0) else s
    case KernelClose => s
    case KernelIoctl => s
    case KernelMmap(length) => s.(live := s.live[k.addr := length])
    case KernelMmapUntraced(length) => s.(live := s.live[k.addr := length])
    case TrackMapping(offset, length, prot) =>
      if !t.pending.HasMapping? then s
      else
        var lines := if T.FindPending(offset, s.tracker.allocations) < |s.tracker.allocations| then 1 else 3;
        LogLines(s, t.id, lines).(tracker := T.TrackMmap(s.tracker, offset, t.pending.addr, length, prot))
    case KernelMunmap(addr) => s.(live := s.live - k.gone)
    case Untrack(addr) =>
      if T.Find(T.ByAddr(addr), s.tracker.mmaps) == |s.tracker.mmaps| then s
      else LogLine(s, t.id).(tracker := T.TrackMunmap(s.tracker, addr))
  }

  /** The thread itself after its operation. */
  function Advance(t: Thread, k: Kernel): Thread
    requires t.Running? && t.code != []
  {
    var u := t.(code := t.code[1..]);
    match t.code[0]
    case Lock => u.(stage := Inside)
    case Unlock => u.(stage := After)
    case KernelOpen => u.(pending := HasFd(k.fd))
    case SetFd(_) => u.(pending := Nothing)
    case KernelMmap(length) => u.(pending := HasMapping(k.addr, length))
    case TrackMapping(_, _, _) => u.(pending := Nothing)
    case KernelMunmap(addr) => u.(pending := Unmapped(addr))
    case Untrack(_) => u.(pending := Nothing)
    case _ => u
  }

  function Next(s: State, step: Step): State {
    match step
    case Begin(tid, call) => s.(threads := s.threads[tid := Testing(s.calls, call, 0)], calls := s.calls + 1)
    case TestFd(tid) =>
      if tid !in s.threads || !s.threads[tid].Testing? then s else
      var t := s.threads[tid];
      var u := match Test(t.call, t.looks, s.maliFd)
               case TestAgain => t.(looks := t.looks + 1)
               case RunUntraced => Running(t.id, t.call, Untraced(t.call), Before, Nothing)
               case RunTraced => Running(t.id, t.call, Traced(t.call), Before, Nothing);
      s.(threads := s.threads[tid := u])
    case Exec(tid, k) =>
      if !AtOp(s, tid) then s else
      var t := s.threads[tid];
      Effect(s, t, tid, k).(threads := s.threads[tid := Advance(t, k)])
    case Return(tid) => s.(threads := s.threads - {tid})
    case Tick(dt) => s.(now := s.now + dt, spent := s.spent + if s.clock.frozen then dt else 0)
  }

  ghost predicate StepTo(s: State, u: State) {
    exists step :: Allowed(s, step) && u == Next(s, step)
  }

  ghost predicate StepAt(run: seq<State>, i: nat)
    requires i + 1 < |run|
  {
    StepTo(run[i], run[i + 1])
  }

  /** A run: from a start at some time, each state is reached from the one before by a step of some thread or of time. */
  ghost predicate IsRun(run: seq<State>) {
    && run != [] && (exists now :: run[0] == Initial(now))
    && forall i :: 0 <= i < |run| - 1 ==> StepAt(run, i)
  }

  ghost predicate Reachable(s: State) {
    exists run :: IsRun(run) && run[|run| - 1] == s
  }

  // What every code keeps to, whatever the threads around it do.

  /** The kind of result a call still has to process, without the kernel's part in it. */
  datatype Kind = NoResult | FdResult | MapResult(length: u64) | UnmapResult(addr: u64)

  function KindOf(p: Pending): Kind {
    match p
    case Nothing => NoResult
    case HasFd(_) => FdResult
    case HasMapping(_, length) => MapResult(length)
    case Unmapped(addr) => UnmapResult(addr)
  }

  /** What a thread knows about the state it runs in; outside the mutex time is not frozen by it and its indent is 0. */
  datatype Ctx = Ctx(stage: Stage, frozen: bool, depth: int, kind: Kind)

  predicate Fits(op: Op, c: Ctx) {
    match op
    case Lock => c.stage == Before && (c.kind.NoResult? || c.kind.FdResult?)
    case Unlock => c.stage == Inside && !c.frozen && c.depth == 0 && c.kind.NoResult?
    case FreezeTime => c.stage == Inside && !c.frozen
    case UnfreezeTime => c.stage == Inside && c.frozen
    case Do(a) => c.stage == Inside && c.frozen && c.kind.NoResult? && Move(c.depth, a) >= 0
    case KernelOpen => c.stage == Before && c.kind.NoResult?
    case SetFd(_) => c.stage == Inside && c.kind.FdResult?
    case ClearFd(_) => c.stage == Inside && c.kind.NoResult?
    case KernelClose => c.stage != Inside && c.kind.NoResult?
    case KernelIoctl => !c.frozen && c.kind.NoResult?
    case KernelMmap(_) => c.stage == Inside && !c.frozen && c.kind.NoResult?
    case KernelMmapUntraced(_) => c.stage == Before && c.kind.NoResult?
    case TrackMapping(_, length, _) => c.stage == Inside && c.frozen && c.kind == MapResult(length)
    case KernelMunmap(_) => c.stage == Inside && !c.frozen && c.kind.NoResult?
    case Untrack(addr) => c.stage == Inside && c.frozen && c.kind == UnmapResult(addr)
  }

  function Then(op: Op, c: Ctx): Ctx {
    match op
    case Lock => c.(stage := Inside)
    case Unlock => c.(stage := After)
    case FreezeTime => c.(frozen := true)
    case UnfreezeTime => c.(frozen := false)
    case Do(a) => c.(depth := Move(c.depth, a))
    case KernelOpen => c.(kind := FdResult)
    case KernelMmap(length) => c.(kind := MapResult(length))
    case KernelMunmap(addr) => c.(kind := UnmapResult(addr))
    case SetFd(_) => c.(kind := NoResult)
    case TrackMapping(_, _, _) => c.(kind := NoResult)
    case Untrack(_) => c.(kind := NoResult)
    case _ => c
  }

  /** Every operation fits where it comes, and the code ends outside the mutex with nothing left to process. */
  predicate Disciplined(code: seq<Op>, c: Ctx) {
    if code == [] then c.stage != Inside && c.kind.NoResult?
    else Fits(code[0], c) && Disciplined(code[1..], Then(code[0], c))
  }

  const Fresh := Ctx(Before, false, 0, NoResult)

  /** Decoding inside the mutex takes the indent along its script. */
  lemma {:induction false} ActsDisciplined(script: seq<Action>, rest: seq<Op>, c: Ctx)
    requires c.stage == Inside && c.frozen && c.kind.NoResult? && c.depth >= 0
    requires Walk(script, c.depth) >= 0 && Disciplined(rest, c.(depth := Walk(script, c.depth)))
    ensures Disciplined(Acts(script) + rest, c)
    decreases |script|
  {
    if script == [] {
      assert Acts(script) + rest == rest;
    } else {
      var a := script[0];
      ActsDisciplined(script[1..], rest, c.(depth := Move(c.depth, a)));
      assert (Acts(script) + rest)[1..] == Acts(script[1..]) + rest;
    }
  }

  /** Discipline, from the contexts between the operations. */
  lemma {:induction false} ByContexts(code: seq<Op>, cs: seq<Ctx>, rest: seq<Op>)
    requires |cs| == |code| + 1 && Disciplined(rest, cs[|code|])
    requires forall i :: 0 <= i < |code| ==> Fits(code[i], cs[i]) && cs[i + 1] == Then(code[i], cs[i])
    ensures Disciplined(code + rest, cs[0])
    decreases |code|
  {
    if code == [] {
      assert code + rest == rest;
    } else {
      ByContexts(code[1..], cs[1..], rest);
      assert (code + rest)[1..] == code[1..] + rest;
    }
  }

  /** The context inside the critical section. */
  function In(frozen: bool, depth: int, kind: Kind): Ctx {
    Ctx(Inside, frozen, depth, kind)
  }

  const Done := Ctx(After, false, 0, NoResult)

  /** ByContexts for a whole code that ends after its critical section. */
  lemma ByAllContexts(code: seq<Op>, cs: seq<Ctx>)
    requires |cs| == |code| + 1 && cs[|code|] == Done
    requires forall i :: 0 <= i < |code| ==> Fits(code[i], cs[i]) && cs[i + 1] == Then(code[i], cs[i])
    ensures Disciplined(code, cs[0])
  {
    ByContexts(code, cs, []);
    assert code + [] == code;
  }

  /** The code of every call is disciplined. */
  lemma CodeDisciplined(call: Call)
    requires WellFormed(call)
    ensures Disciplined(Untraced(call), Fresh)
    ensures Disciplined(Traced(call), Fresh)
  {
    UntracedDisciplined(call);
    hide Disciplined;
    match call
    case Open(path) => OpenCloseDisciplined(path, 0);
    case Close(fd) => OpenCloseDisciplined(NoDevice, fd);
    case Ioctl(fd, hasArg, pre, post) =>
      if hasArg { IoctlDisciplined(pre, post); } else { NoArgDisciplined(); }
    case Mmap(fd, offset, length, prot) => MmapDisciplined(offset, length, prot);
    case Munmap(addr) => MunmapDisciplined(addr);
  }

  lemma UntracedDisciplined(call: Call)
    ensures Disciplined(Untraced(call), Fresh)
  {
  }

  lemma OpenCloseDisciplined(path: Path, fd: int)
    ensures Disciplined([KernelOpen, Lock, SetFd(path), Unlock], Fresh)
    ensures Disciplined([Lock, ClearFd(fd), Unlock, KernelClose], Fresh)
  {
    hide Disciplined;
    ByAllContexts([KernelOpen, Lock, SetFd(path), Unlock],
                  [Fresh, Fresh.(kind := FdResult), In(false, 0, FdResult), In(false, 0, NoResult), Done]);
    ByAllContexts([Lock, ClearFd(fd), Unlock, KernelClose],
                  [Fresh, In(false, 0, NoResult), In(false, 0, NoResult), Done, Done]);
  }

  lemma MmapDisciplined(offset: u64, length: u64, prot: bv32)
    ensures Disciplined([Lock, KernelMmap(length), FreezeTime, TrackMapping(offset, length, prot), UnfreezeTime, Unlock], Fresh)
  {
    hide Disciplined;
    ByAllContexts([Lock, KernelMmap(length), FreezeTime, TrackMapping(offset, length, prot), UnfreezeTime, Unlock],
                  [Fresh, In(false, 0, NoResult), In(false, 0, MapResult(length)), In(true, 0, MapResult(length)),
                   In(true, 0, NoResult), In(false, 0, NoResult), Done]);
  }

  lemma MunmapDisciplined(addr: u64)
    ensures Disciplined([Lock, KernelMunmap(addr), FreezeTime, Untrack(addr), UnfreezeTime, Unlock], Fresh)
  {
    hide Disciplined;
    ByAllContexts([Lock, KernelMunmap(addr), FreezeTime, Untrack(addr), UnfreezeTime, Unlock],
                  [Fresh, In(false, 0, NoResult), In(false, 0, UnmapResult(addr)), In(true, 0, UnmapResult(addr)),
                   In(true, 0, NoResult), In(false, 0, NoResult), Done]);
  }

  lemma NoArgDisciplined()
    ensures Disciplined([Lock, FreezeTime, Do(Log), UnfreezeTime, KernelIoctl, FreezeTime,
                         Do(Indent), Do(Log), Do(Dedent), UnfreezeTime, Unlock], Fresh)
  {
    hide Disciplined;
    var open, frozen, inner := In(false, 0, NoResult), In(true, 0, NoResult), In(true, 1, NoResult);
    ByAllContexts([Lock, FreezeTime, Do(Log), UnfreezeTime, KernelIoctl, FreezeTime,
                   Do(Indent), Do(Log), Do(Dedent), UnfreezeTime, Unlock],
                  [Fresh, open, frozen, frozen, open, open, frozen, inner, inner, frozen, open, Done]);
  }

  lemma IoctlDisciplined(pre: seq<Action>, post: seq<Action>)
    requires Balanced(pre, 1) && Balanced(post, 1)
    ensures Disciplined([Lock, FreezeTime, Do(Log), Do(Indent)] + (Acts(pre) + IoctlTail(post)), Fresh)
  {
    hide Disciplined, Acts, Walk;
    var open, frozen, inner := In(false, 0, NoResult), In(true, 0, NoResult), In(true, 1, NoResult);
    TailDisciplined(post);
    ActsDisciplined(pre, IoctlTail(post), inner);
    ByContexts([Lock, FreezeTime, Do(Log), Do(Indent)], [Fresh, open, frozen, frozen, inner], Acts(pre) + IoctlTail(post));
  }

  lemma TailDisciplined(post: seq<Action>)
    requires Balanced(post, 1)
    ensures Disciplined(IoctlTail(post), In(true, 1, NoResult))
  {
    hide Disciplined, Acts, Walk;
    var open, frozen, inner := In(false, 0, NoResult), In(true, 0, NoResult), In(true, 1, NoResult);
    var end := [Do(Dedent), UnfreezeTime, Unlock];
    ByAllContexts(end, [inner, frozen, open, Done]);
    ActsDisciplined(post, end, inner);
    ByContexts([UnfreezeTime, KernelIoctl, FreezeTime, Do(Log)],
               [inner, In(false, 1, NoResult), In(false, 1, NoResult), inner, inner], Acts(post) + end);
  }
}
