/**
 * What becomes of the intercepted calls over whole histories of steps: which of them are traced,
 * what each critical section does to the tracker and to mali_fd, and what the application gets.
 */
module InterceptionHistory {
  import opened Wrappers
  import opened Word64
  import opened Script
  import T = TrackerModel
  import D = Deref
  import C = ClockModel
  import opened Interception
  import opened InterceptionSafety

  /** Step `i` is allowed where it is taken and leads to the next state. */
  ghost predicate Takes(run: seq<State>, steps: seq<Step>, i: nat)
    requires i < |steps| && i + 1 < |run|
  {
    Allowed(run[i], steps[i]) && run[i + 1] == Next(run[i], steps[i])
  }

  /** A run together with the steps it takes. */
  ghost predicate IsHistory(run: seq<State>, steps: seq<Step>) {
    && |run| == |steps| + 1 && (exists now :: run[0] == Initial(now))
    && forall i :: 0 <= i < |steps| ==> Takes(run, steps, i)
  }

  lemma HistoryIsRun(run: seq<State>, steps: seq<Step>)
    requires IsHistory(run, steps)
    ensures IsRun(run)
  {
    hide Allowed, Next, Initial;
    forall i | 0 <= i < |run| - 1 ensures StepAt(run, i) {
      assert Takes(run, steps, i);
    }
  }

  /** Every run is one of some history. */
  lemma {:induction false} RunHasHistory(run: seq<State>)
    requires IsRun(run)
    ensures exists steps :: IsHistory(run, steps)
    decreases |run|
  {
    hide Allowed, Next, Initial;
    var n := |run| - 1;
    if n == 0 {
      assert IsHistory(run, []);
    } else {
      var before := run[..n];
      forall i | 0 <= i < n - 1 ensures StepAt(before, i) {
        assert StepAt(run, i);
      }
      RunHasHistory(before);
      var steps :| IsHistory(before, steps);
      assert StepAt(run, n - 1);
      var step :| Allowed(run[n - 1], step) && run[n] == Next(run[n - 1], step);
      forall i | 0 <= i < n ensures Takes(run, steps + [step], i) {
        if i < n - 1 { assert Takes(before, steps, i); }
      }
      assert IsHistory(run, steps + [step]);
    }
  }

  lemma StateOf(run: seq<State>, steps: seq<Step>, i: nat)
    requires IsHistory(run, steps) && i < |steps|
    ensures Inv(run[i]) && Allowed(run[i], steps[i]) && run[i + 1] == Next(run[i], steps[i])
  {
    hide Inv, Allowed, Next;
    HistoryIsRun(run, steps);
    RunKeepsInv(run, i);
    assert Takes(run, steps, i);
  }

  // A thread runs the code of its call.

  predicate IsSuffix<T(==)>(s: seq<T>, whole: seq<T>) {
    |s| <= |whole| && whole[|whole| - |s|..] == s
  }

  /** What a thread has left to do is the end of the code of its call, traced or not. */
  predicate CodeFits(t: Thread) {
    t.Running? ==>
      || IsSuffix(t.code, Traced(t.call))
      || (t.stage == Before && IsSuffix(t.code, Untraced(t.call)))
  }

  ghost predicate CodesFit(s: State) {
    forall t :: t in s.threads ==> CodeFits(s.threads[t])
  }

  lemma SuffixTail<T>(s: seq<T>, whole: seq<T>)
    requires IsSuffix(s, whole) && s != []
    ensures IsSuffix(s[1..], whole) && whole[|whole| - |s|] == s[0]
  {
  }

  lemma UntracedOps(call: Call, code: seq<Op>)
    requires IsSuffix(code, Untraced(call)) && code != []
    ensures code[0].KernelClose? || code[0].KernelIoctl? || code[0].KernelMmapUntraced?
    ensures code == Untraced(call) && |code| == 1
  {
  }

  lemma AdvanceFits(t: Thread, k: Kernel)
    requires CodeFits(t) && t.Running? && t.code != []
    ensures CodeFits(Advance(t, k))
  {
    hide IsSuffix, Traced, Untraced;
    if IsSuffix(t.code, Traced(t.call)) {
      SuffixTail(t.code, Traced(t.call));
    } else {
      SuffixTail(t.code, Untraced(t.call));
      UntracedOps(t.call, t.code);
    }
  }

  lemma WholeFits(call: Call)
    ensures IsSuffix(Traced(call), Traced(call)) && IsSuffix(Untraced(call), Untraced(call))
  {
    hide Traced, Untraced;
  }

  lemma StepKeepsCodes(s: State, step: Step)
    requires CodesFit(s) && Allowed(s, step)
    ensures CodesFit(Next(s, step))
  {
    hide IsSuffix, Traced, Untraced, Test, MapsFresh, UnmapsOnly;
    var u := Next(s, step);
    match step
    case Exec(tid, k) =>
      hide Effect;
      AdvanceFits(s.threads[tid], k);
    case TestFd(tid) =>
      WholeFits(s.threads[tid].call);
    case _ =>
  }

  lemma {:induction false} CodesFitAlways(run: seq<State>, steps: seq<Step>, n: nat)
    requires IsHistory(run, steps) && n < |run|
    ensures CodesFit(run[n])
    decreases n
  {
    hide CodesFit, Allowed, Next;
    if n == 0 {
      NoCodesYet(run[0]);
    } else {
      CodesFitAlways(run, steps, n - 1);
      assert Takes(run, steps, n - 1);
      StepKeepsCodes(run[n - 1], steps[n - 1]);
    }
  }

  lemma NoCodesYet(s: State)
    requires exists now :: s == Initial(now)
    ensures CodesFit(s)
  {
  }

  // Critical sections.

  /** The state `run[j]` is the first after `run[i]` in which the mutex is free. */
  ghost predicate NextFree(run: seq<State>, i: nat, j: nat) {
    i < j < |run| && run[j].holder == None && forall m :: i < m < j ==> run[m].holder != None
  }

  /** The thread takes step `i` of the history, with the operation `op` of the call. */
  ghost predicate Does(run: seq<State>, steps: seq<Step>, i: nat, tid: Tid, call: Call, op: Op) {
    && i < |steps| && i < |run| && steps[i].Exec? && steps[i].tid == tid && AtOp(run[i], tid)
    && run[i].threads[tid].call == call && run[i].threads[tid].code[0] == op
  }

  /** While a thread is inside the mutex, no step of another one changes what the mutex guards. */
  lemma OthersWait(s: State, step: Step, tid: Tid)
    requires InvMutex(s) && Allowed(s, step) && s.holder == Some(tid) && !(step.Exec? && step.tid == tid)
    ensures var u := Next(s, step);
            && u.holder == Some(tid) && tid in u.threads && u.threads[tid] == s.threads[tid]
            && u.tracker == s.tracker && u.maliFd == s.maliFd
  {
    hide Traced, Untraced, Test, MapsFresh, UnmapsOnly, Effect;
    assert ThreadOk(s, s.threads[tid]);
    if step.Exec? { OutsideTouchesNothing(s, step.tid, step.k); }
  }

  /** The two states agree in what the mutex guards and in the thread itself. */
  predicate Agree(s: State, u: State, tid: Tid) {
    && s.tracker == u.tracker && s.maliFd == u.maliFd
    && tid in s.threads && tid in u.threads && s.threads[tid] == u.threads[tid]
  }

  /** What an operation does to the tracker and to mali_fd, given these and its own thread alone. */
  lemma GuardedEffect(s: State, t: Thread, tid: Tid, k: Kernel)
    requires t.Running? && t.code != []
    ensures var u := Effect(s, t, tid, k);
            match t.code[0]
            case Do(a) => u.maliFd == s.maliFd && u.tracker == if a.Track? then T.TrackAllocation(s.tracker, a.a) else s.tracker
            case TrackMapping(offset, length, prot) =>
              && u.maliFd == s.maliFd
              && u.tracker == if t.pending.HasMapping? then T.TrackMmap(s.tracker, offset, t.pending.addr, length, prot) else s.tracker
            case Untrack(addr) => u.maliFd == s.maliFd && u.tracker == T.TrackMunmap(s.tracker, addr)
            case SetFd(path) =>
              && u.tracker == s.tracker
              && u.maliFd == if t.pending.HasFd? && t.pending.fd != -1 && path.MaliDevice? then t.pending.fd else s.maliFd
            case ClearFd(fd) => u.tracker == s.tracker && u.maliFd == if fd == s.maliFd then 0 else s.maliFd
            case _ => u.tracker == s.tracker && u.maliFd == s.maliFd
  {
    hide T.TrackMmap, C.Stamp, C.Freeze, C.Unfreeze, D.DerefGpu, T.TrackAllocation;
  }

  lemma SameStepAgrees(s: State, u: State, tid: Tid, k: Kernel)
    requires Agree(s, u, tid) && AtOp(s, tid)
    ensures Agree(Next(s, Exec(tid, k)), Next(u, Exec(tid, k)), tid)
  {
    hide Effect, Advance;
    GuardedEffect(s, s.threads[tid], tid, k);
    GuardedEffect(u, s.threads[tid], tid, k);
    hide T.TrackMmap, T.TrackMunmap, T.TrackAllocation;
  }

  /** The thread runs alone from `s`, with these answers of the kernel. */
  function Alone(s: State, tid: Tid, ks: seq<Kernel>): State {
    if ks == [] then s else Next(Alone(s, tid, ks[..|ks| - 1]), Exec(tid, ks[|ks| - 1]))
  }

  /** The kernel's answers to the thread's own steps from state `i` to state `j`. */
  ghost function Answers(run: seq<State>, steps: seq<Step>, i: nat, j: nat, tid: Tid): seq<Kernel>
    requires i <= j <= |steps|
    decreases j
  {
    if i == j then [] else
    Answers(run, steps, i, j - 1, tid)
    + if steps[j - 1].Exec? && steps[j - 1].tid == tid then [steps[j - 1].k] else []
  }

  /** What the thread has left to do. */
  function CodeOf(s: State, tid: Tid): seq<Op> {
    if tid in s.threads && s.threads[tid].Running? then s.threads[tid].code else []
  }

  /** Throughout these states the mutex is taken. */
  ghost predicate Taken(run: seq<State>, i: nat, j: nat) {
    i <= j < |run| && forall m :: i <= m < j ==> run[m].holder != None
  }

  /**
   * Critical sections are atomic: as long as the mutex stays with a thread, tracker, mali_fd and
   * the thread itself are what they would be if no other thread had taken a step and no time had
   * passed in between.
   */
  lemma {:induction false} SectionsAreAtomic(run: seq<State>, steps: seq<Step>, i: nat, j: nat, tid: Tid)
    requires IsHistory(run, steps) && Taken(run, i, j) && run[i].holder == Some(tid)
    ensures Agree(run[j], Alone(run[i], tid, Answers(run, steps, i, j, tid)), tid)
    ensures run[j].holder == Some(tid) || run[j].holder == None
    ensures var n := |Answers(run, steps, i, j, tid)|;
            n <= |CodeOf(run[i], tid)| && CodeOf(run[j], tid) == CodeOf(run[i], tid)[n..]
    decreases j
  {
    hide Inv, Next, Allowed, Agree;
    if j == i {
      HolderRuns(run, steps, i, tid);
    } else {
      SectionsAreAtomic(run, steps, i, j - 1, tid);
      StateOf(run, steps, j - 1);
      OneMoreStep(run[j - 1], steps[j - 1], tid, Alone(run[i], tid, Answers(run, steps, i, j - 1, tid)));
      var ks, step := Answers(run, steps, i, j - 1, tid), steps[j - 1];
      if step.Exec? && step.tid == tid {
        assert (ks + [step.k])[..|ks|] == ks;
        TailOfTail(CodeOf(run[i], tid), |ks|);
      } else {
        assert ks + [] == ks;
      }
    }
  }

  lemma TailOfTail<T>(s: seq<T>, n: nat)
    requires n < |s|
    ensures s[n..] != [] && s[n..][1..] == s[n + 1..]
  {
  }

  lemma HolderRuns(run: seq<State>, steps: seq<Step>, i: nat, tid: Tid)
    requires IsHistory(run, steps) && i < |run| && run[i].holder == Some(tid)
    ensures Agree(run[i], run[i], tid)
  {
    hide Next, Allowed, InvTracker, InvClock, InvCalls, InvLog;
    HistoryIsRun(run, steps);
    RunKeepsInv(run, i);
  }

  lemma OneMoreStep(s: State, step: Step, tid: Tid, alone: State)
    requires Inv(s) && Allowed(s, step) && s.holder == Some(tid) && Agree(s, alone, tid)
    ensures var u := Next(s, step);
            && (u.holder == Some(tid) || u.holder == None)
            && if step.Exec? && step.tid == tid
               then Agree(u, Next(alone, step), tid) && CodeOf(s, tid) != [] && CodeOf(u, tid) == CodeOf(s, tid)[1..]
               else Agree(u, alone, tid) && u.holder == Some(tid) && CodeOf(u, tid) == CodeOf(s, tid)
  {
    hide InvTracker, InvClock, InvCalls, InvLog, InvMutex, MapsFresh, UnmapsOnly, T.TrackMmap, T.TrackMunmap, T.Find, Perform;
    assert InvMutex(s);
    if step.Exec? && step.tid == tid {
      SameStepAgrees(s, alone, tid, step.k);
      OwnStep(s, tid, step.k);
    } else {
      OthersWait(s, step, tid);
    }
  }

  lemma OwnStep(s: State, tid: Tid, k: Kernel)
    requires AtOp(s, tid) && s.holder == Some(tid)
    ensures var u, t := Next(s, Exec(tid, k)), s.threads[tid];
            && CodeOf(u, tid) == t.code[1..]
            && u.holder == if t.code[0].Unlock? then None else Some(tid)
  {
    hide T.TrackMmap, T.TrackMunmap, T.Find, Perform;
    if s.threads[tid].code[0].Do? { PerformKeeps(s, s.threads[tid].id, s.threads[tid].code[0].a); }
  }

  // What each section comes to.

  lemma {:induction false} FirstAnswer(run: seq<State>, steps: seq<Step>, i: nat, j: nat, tid: Tid)
    requires i < j <= |steps| && steps[i].Exec? && steps[i].tid == tid
    ensures var ks := Answers(run, steps, i, j, tid); ks != [] && ks[0] == steps[i].k
    decreases j
  {
    if j > i + 1 { FirstAnswer(run, steps, i, j - 1, tid); }
  }

  /** The last operation of a section is the unlock. */
  lemma SectionEnds(run: seq<State>, steps: seq<Step>, i: nat, j: nat, tid: Tid)
    requires IsHistory(run, steps) && NextFree(run, i, j) && run[i].holder == Some(tid)
    ensures var code, n := CodeOf(run[i], tid), |Answers(run, steps, i, j, tid)|;
            && 0 < n <= |code| && code[n - 1] == Unlock && run[j].holder == None
            && Agree(run[j], Alone(run[i], tid, Answers(run, steps, i, j, tid)), tid)
  {
    hide Inv, Next, Allowed, Agree, InvMutex, Alone;
    SectionsAreAtomic(run, steps, i, j, tid);
    SectionsAreAtomic(run, steps, i, j - 1, tid);
    StateOf(run, steps, j - 1);
    UnlockFrees(run[j - 1], steps[j - 1], tid);
    var ks, step := Answers(run, steps, i, j - 1, tid), steps[j - 1];
    TailOfTail(CodeOf(run[i], tid), |ks|);
    assert Answers(run, steps, i, j, tid) == ks + [step.k];
  }

  lemma UnlockFrees(s: State, step: Step, tid: Tid)
    requires Inv(s) && Allowed(s, step) && s.holder == Some(tid) && Next(s, step).holder == None
    ensures step.Exec? && step.tid == tid && CodeOf(s, tid) != [] && CodeOf(s, tid)[0] == Unlock
  {
    hide InvTracker, InvClock, InvCalls, InvLog, InvMutex, MapsFresh, UnmapsOnly, T.TrackMmap, T.TrackMunmap, T.Find, Perform, Next;
    assert InvMutex(s);
    if step.Exec? && step.tid == tid {
      OwnStep(s, tid, step.k);
    } else {
      OthersWait(s, step, tid);
    }
  }

  /** The operations that change the tracker or mali_fd. */
  predicate IsQuiet(op: Op) {
    !op.Do? && !op.TrackMapping? && !op.Untrack? && !op.SetFd? && !op.ClearFd?
  }

  predicate IsRunning(s: State, tid: Tid) {
    tid in s.threads && s.threads[tid].Running?
  }

  function PendingOf(s: State, tid: Tid): Pending {
    if IsRunning(s, tid) then s.threads[tid].pending else Nothing
  }

  lemma AloneStep(s: State, tid: Tid, ks: seq<Kernel>, n: nat)
    requires n < |ks|
    ensures Alone(s, tid, ks[..n + 1]) == Next(Alone(s, tid, ks[..n]), Exec(tid, ks[n]))
  {
    hide Next;
    assert ks[..n + 1][..n] == ks[..n];
  }

  lemma AloneEnds(s: State, tid: Tid, ks: seq<Kernel>)
    ensures Alone(s, tid, ks[..0]) == s && ks[..|ks|] == ks
  {
  }

  lemma GuardedStep(s: State, tid: Tid, k: Kernel)
    requires AtOp(s, tid)
    ensures var u, t := Next(s, Exec(tid, k)), s.threads[tid];
            && tid in u.threads && u.threads[tid] == Advance(t, k)
            && u.tracker == Effect(s, t, tid, k).tracker && u.maliFd == Effect(s, t, tid, k).maliFd
  {
    hide Effect, Advance;
  }

  /** Alone, a thread goes through its code operation by operation. */
  lemma {:induction false} AloneCode(s: State, tid: Tid, ks: seq<Kernel>, n: nat)
    requires IsRunning(s, tid) && n <= |ks| <= |CodeOf(s, tid)|
    ensures IsRunning(Alone(s, tid, ks[..n]), tid) && CodeOf(Alone(s, tid, ks[..n]), tid) == CodeOf(s, tid)[n..]
    decreases n
  {
    hide Effect, Next, Alone;
    AloneEnds(s, tid, ks);
    if n > 0 {
      AloneCode(s, tid, ks, n - 1);
      AloneStep(s, tid, ks, n - 1);
      TailOfTail(CodeOf(s, tid), n - 1);
      GuardedStep(Alone(s, tid, ks[..n - 1]), tid, ks[n - 1]);
    }
  }

  /** Operation `n`: what it does to tracker and mali_fd, and to the result still to be processed. */
  lemma StepAlone(s: State, tid: Tid, ks: seq<Kernel>, n: nat, op: Op)
    requires IsRunning(s, tid) && n < |ks| <= |CodeOf(s, tid)| && CodeOf(s, tid)[n] == op
    ensures var v, u := Alone(s, tid, ks[..n]), Alone(s, tid, ks[..n + 1]);
            && (op.FreezeTime? ==> PendingOf(u, tid) == PendingOf(v, tid))
            && (op.KernelMmap? ==> PendingOf(u, tid) == HasMapping(ks[n].addr, op.length))
            && (IsQuiet(op) ==> u.tracker == v.tracker && u.maliFd == v.maliFd)
            && (op.TrackMapping? && PendingOf(v, tid).HasMapping? ==>
                  && u.tracker == T.TrackMmap(v.tracker, op.offset, PendingOf(v, tid).addr, op.length, op.prot)
                  && u.maliFd == v.maliFd)
            && (op.Untrack? ==> u.tracker == T.TrackMunmap(v.tracker, op.addr) && u.maliFd == v.maliFd)
            && (op.SetFd? ==>
                  && u.tracker == v.tracker
                  && u.maliFd == if PendingOf(v, tid).HasFd? && PendingOf(v, tid).fd != -1 && op.path.MaliDevice?
                                 then PendingOf(v, tid).fd else v.maliFd)
            && (op.ClearFd? ==> u.tracker == v.tracker && u.maliFd == if op.fd == v.maliFd then 0 else v.maliFd)
            && (op.Do? ==>
                  && u.maliFd == v.maliFd
                  && u.tracker == if op.a.Track? then T.TrackAllocation(v.tracker, op.a.a) else v.tracker)
  {
    hide Effect, Next, Alone, T.TrackMmap, T.TrackMunmap, T.TrackAllocation;
    var v := Alone(s, tid, ks[..n]);
    AloneCode(s, tid, ks, n);
    AloneStep(s, tid, ks, n);
    TailOfTail(CodeOf(s, tid), n);
    GuardedStep(v, tid, ks[n]);
    GuardedEffect(v, v.threads[tid], tid, ks[n]);
  }

  /** The code of a traced mmap from the kernel's part on. */
  function MmapRest(call: Call): (ops: seq<Op>)
    requires call.Mmap?
    ensures |ops| == 5
  {
    [KernelMmap(call.length), FreezeTime, TrackMapping(call.offset, call.length, call.prot), UnfreezeTime, Unlock]
  }

  lemma MmapCode(t: Thread)
    requires CodeFits(t) && t.Running? && t.call.Mmap? && t.code != [] && t.code[0].KernelMmap?
    ensures t.code == MmapRest(t.call)
  {
  }

  lemma MmapAlone(s: State, tid: Tid, ks: seq<Kernel>, call: Call)
    requires call.Mmap? && IsRunning(s, tid) && CodeOf(s, tid) == MmapRest(call) && |ks| == 5
    ensures var u := Alone(s, tid, ks);
            && u.tracker == T.TrackMmap(s.tracker, call.offset, ks[0].addr, call.length, call.prot) && u.maliFd == s.maliFd
  {
    hide T.TrackMmap, Alone, PendingOf, IsRunning, CodeOf;
    var rest := MmapRest(call);
    AloneEnds(s, tid, ks);
    StepAlone(s, tid, ks, 0, rest[0]);
    StepAlone(s, tid, ks, 1, rest[1]);
    StepAlone(s, tid, ks, 2, rest[2]);
    StepAlone(s, tid, ks, 3, rest[3]);
    StepAlone(s, tid, ks, 4, rest[4]);
  }

  /** A thread about to do something only done inside the mutex holds it. */
  lemma HoldsMutex(s: State, tid: Tid)
    requires Inv(s) && AtOp(s, tid)
    requires var op := s.threads[tid].code[0];
             op.KernelMmap? || op.KernelMunmap? || op.TrackMapping? || op.Untrack? || op.SetFd? || op.ClearFd? || op.Do?
    ensures s.holder == Some(tid) && IsRunning(s, tid)
  {
    hide InvTracker, InvClock, InvCalls, InvLog, Disciplined;
    NextFits(s, tid);
  }

  /**
   * A traced mmap, in any interleaving: when the kernel has mapped `length` bytes at an address,
   * and an allocation is pending at the offset, then as soon as the mutex is free the newest such
   * allocation is gone and the mapping made of it is tracked, in front of the others. If none is
   * pending the tracker is as it was.
   */
  lemma MmapIsTracked(run: seq<State>, steps: seq<Step>, i: nat, j: nat, tid: Tid, call: Call)
    requires IsHistory(run, steps) && NextFree(run, i, j)
    requires call.Mmap? && Does(run, steps, i, tid, call, KernelMmap(call.length))
    ensures T.TakesNewest(run[i].tracker, run[j].tracker, call.offset, steps[i].k.addr, call.length, call.prot)
    ensures run[j].maliFd == run[i].maliFd
  {
    hide Inv, Next, Allowed, Alone, T.TrackMmap, T.TakesNewest;
    StateOf(run, steps, i);
    CodesFitAlways(run, steps, i);
    MmapCode(run[i].threads[tid]);
    HoldsMutex(run[i], tid);
    SectionEnds(run, steps, i, j, tid);
    FirstAnswer(run, steps, i, j, tid);
    var ks := Answers(run, steps, i, j, tid);
    MmapAlone(run[i], tid, ks, call);
    T.MmapConsumesNewest(run[i].tracker, call.offset, ks[0].addr, call.length, call.prot);
  }

  /** The code of munmap from the kernel's part on. */
  function MunmapRest(call: Call): (ops: seq<Op>)
    requires call.Munmap?
    ensures |ops| == 5
  {
    [KernelMunmap(call.addr), FreezeTime, Untrack(call.addr), UnfreezeTime, Unlock]
  }

  lemma MunmapCode(t: Thread)
    requires CodeFits(t) && t.Running? && t.call.Munmap? && t.code != [] && t.code[0].KernelMunmap?
    ensures t.code == MunmapRest(t.call)
  {
  }

  lemma MunmapAlone(s: State, tid: Tid, ks: seq<Kernel>, call: Call)
    requires call.Munmap? && IsRunning(s, tid) && CodeOf(s, tid) == MunmapRest(call) && |ks| == 5
    ensures Alone(s, tid, ks).tracker == T.TrackMunmap(s.tracker, call.addr) && Alone(s, tid, ks).maliFd == s.maliFd
  {
    hide T.TrackMunmap, Alone, PendingOf, IsRunning, CodeOf;
    var rest := MunmapRest(call);
    AloneEnds(s, tid, ks);
    StepAlone(s, tid, ks, 0, rest[0]);
    StepAlone(s, tid, ks, 1, rest[1]);
    StepAlone(s, tid, ks, 2, rest[2]);
    StepAlone(s, tid, ks, 3, rest[3]);
    StepAlone(s, tid, ks, 4, rest[4]);
  }

  /**
   * A munmap, in any interleaving: as soon as the mutex is free exactly the mapping that starts at
   * its address is no longer tracked, if there was one, and none is left that starts there.
   */
  lemma MunmapIsUntracked(run: seq<State>, steps: seq<Step>, i: nat, j: nat, tid: Tid, call: Call)
    requires IsHistory(run, steps) && NextFree(run, i, j)
    requires call.Munmap? && Does(run, steps, i, tid, call, KernelMunmap(call.addr))
    ensures T.DropsNewest(run[i].tracker, run[j].tracker, call.addr)
    ensures forall m :: m in run[j].tracker.mmaps ==> m.addr != call.addr
    ensures run[j].maliFd == run[i].maliFd
  {
    hide Inv, Next, Allowed, Alone, T.TrackMunmap;
    StateOf(run, steps, i);
    CodesFitAlways(run, steps, i);
    MunmapCode(run[i].threads[tid]);
    HoldsMutex(run[i], tid);
    SectionEnds(run, steps, i, j, tid);
    MunmapAlone(run[i], tid, Answers(run, steps, i, j, tid), call);
    T.MunmapDropsNewest(run[i].tracker, call.addr);
    StartsDifferIn(run[i]);
  }

  lemma StartsDifferIn(s: State)
    requires Inv(s)
    ensures StartsDiffer(s.tracker.mmaps)
  {
    hide InvMutex, InvClock, InvCalls, InvLog;
  }

  /** Taking the mutex changes nothing it guards; the section runs from the next operation on. */
  lemma SectionStarts(run: seq<State>, steps: seq<Step>, i: nat, j: nat, tid: Tid, call: Call)
    requires IsHistory(run, steps) && NextFree(run, i, j) && Does(run, steps, i, tid, call, Lock)
    ensures var s, u := run[i], run[i + 1];
            && u.tracker == s.tracker && u.maliFd == s.maliFd && u.holder == Some(tid) && IsRunning(u, tid)
            && CodeOf(u, tid) == CodeOf(s, tid)[1..] && PendingOf(u, tid) == PendingOf(s, tid)
            && NextFree(run, i + 1, j)
  {
    hide Inv;
    StateOf(run, steps, i);
    LockStep(run[i], tid, steps[i].k);
  }

  lemma LockStep(s: State, tid: Tid, k: Kernel)
    requires AtOp(s, tid) && s.threads[tid].code[0].Lock?
    ensures var u, t := Next(s, Exec(tid, k)), s.threads[tid];
            && u.tracker == s.tracker && u.maliFd == s.maliFd && u.holder == Some(tid)
            && tid in u.threads && u.threads[tid] == Advance(t, k)
  {
  }

  function CloseRest(fd: int): (ops: seq<Op>)
    ensures |ops| == 4
  {
    [Lock, ClearFd(fd), Unlock, KernelClose]
  }

  lemma CloseCode(t: Thread)
    requires CodeFits(t) && t.Running? && t.call.Close? && t.code != [] && t.code[0].Lock?
    ensures t.code == CloseRest(t.call.fd)
  {
  }

  /** A traced close, in any interleaving: if its fd was the device, there is no device any more. */
  lemma CloseForgetsDevice(run: seq<State>, steps: seq<Step>, i: nat, j: nat, tid: Tid, call: Call)
    requires IsHistory(run, steps) && NextFree(run, i, j) && call.Close? && Does(run, steps, i, tid, call, Lock)
    ensures run[j].maliFd == if call.fd == run[i].maliFd then 0 else run[i].maliFd
    ensures run[j].tracker == run[i].tracker
  {
    hide Inv, Next, Allowed, Alone, IsRunning, Traced, Untraced, IsSuffix;
    CodesFitAlways(run, steps, i);
    CloseCode(run[i].threads[tid]);
    SectionStarts(run, steps, i, j, tid, call);
    SectionEnds(run, steps, i + 1, j, tid);
    CloseAlone(run[i + 1], tid, Answers(run, steps, i + 1, j, tid), call.fd);
  }

  lemma CloseAlone(s: State, tid: Tid, ks: seq<Kernel>, fd: int)
    requires IsRunning(s, tid) && CodeOf(s, tid) == CloseRest(fd)[1..]
    requires 0 < |ks| <= 3 && CloseRest(fd)[|ks|] == Unlock
    ensures var u := Alone(s, tid, ks); u.tracker == s.tracker && u.maliFd == if fd == s.maliFd then 0 else s.maliFd
  {
    hide Alone, IsRunning, CodeOf, PendingOf;
    var rest := CloseRest(fd);
    AloneEnds(s, tid, ks);
    StepAlone(s, tid, ks, 0, rest[1]);
    StepAlone(s, tid, ks, 1, rest[2]);
  }

  function OpenRest(path: Path): (ops: seq<Op>)
    ensures |ops| == 3
  {
    [Lock, SetFd(path), Unlock]
  }

  lemma OpenCode(t: Thread)
    requires CodeFits(t) && t.Running? && t.call.Open? && t.code != [] && t.code[0].Lock?
    ensures t.code == OpenRest(t.call.path)
  {
  }

  /** An open that the kernel answered with `fd`: the device is remembered if it is /dev/mali0 and there was no error. */
  lemma OpenRemembersDevice(run: seq<State>, steps: seq<Step>, i: nat, j: nat, tid: Tid, call: Call, fd: int)
    requires IsHistory(run, steps) && NextFree(run, i, j) && call.Open? && Does(run, steps, i, tid, call, Lock)
    requires run[i].threads[tid].pending == HasFd(fd)
    ensures run[j].maliFd == if call.path == MaliDevice && fd != -1 then fd else run[i].maliFd
    ensures run[j].tracker == run[i].tracker
  {
    hide Inv, Next, Allowed, Alone, IsRunning, Traced, Untraced, IsSuffix;
    CodesFitAlways(run, steps, i);
    OpenCode(run[i].threads[tid]);
    assert PendingOf(run[i], tid) == HasFd(fd) by { IsRunningNow(run[i], tid); }
    SectionStarts(run, steps, i, j, tid, call);
    SectionEnds(run, steps, i + 1, j, tid);
    OpenAlone(run[i + 1], tid, Answers(run, steps, i + 1, j, tid), call.path, fd);
  }

  lemma OpenAlone(s: State, tid: Tid, ks: seq<Kernel>, path: Path, fd: int)
    requires IsRunning(s, tid) && CodeOf(s, tid) == OpenRest(path)[1..] && PendingOf(s, tid) == HasFd(fd)
    requires 0 < |ks| <= 2 && OpenRest(path)[|ks|] == Unlock
    ensures var u := Alone(s, tid, ks);
            u.tracker == s.tracker && u.maliFd == if path == MaliDevice && fd != -1 then fd else s.maliFd
  {
    hide Alone, IsRunning, CodeOf, PendingOf;
    var rest := OpenRest(path);
    AloneEnds(s, tid, ks);
    StepAlone(s, tid, ks, 0, rest[1]);
    StepAlone(s, tid, ks, 1, rest[2]);
  }

  lemma IsRunningNow(s: State, tid: Tid)
    requires AtOp(s, tid)
    ensures IsRunning(s, tid)
  {
  }

  function TrackedBy(ops: seq<Op>): seq<T.Allocation> {
    if ops == [] then []
    else TrackedBy(ops[1..]) + if ops[0].Do? && ops[0].a.Track? then [ops[0].a.a] else []
  }

  lemma {:induction false} TrackedByAppend(a: seq<Op>, b: seq<Op>)
    ensures TrackedBy(a + b) == TrackedBy(b) + TrackedBy(a)
  {
    if a == [] {
      assert a + b == b;
    } else {
      assert (a + b)[1..] == a[1..] + b;
      TrackedByAppend(a[1..], b);
    }
  }

  lemma {:induction false} TrackedByActs(script: seq<Action>)
    ensures TrackedBy(Acts(script)) == Tracked(script)
  {
    if script != [] {
      TrackedByActs(script[1..]);
      assert Acts(script)[1..] == Acts(script[1..]);
    }
  }

  lemma {:induction false} ActsAreDos(script: seq<Action>)
    ensures forall i :: 0 <= i < |script| ==> Acts(script)[i] == Do(script[i])
  {
    if script != [] { ActsAreDos(script[1..]); }
  }

  /** Decode actions and quiet operations. */
  predicate IsDecodeOp(op: Op) {
    op.Do? || IsQuiet(op)
  }

  ghost predicate Decodes(ops: seq<Op>) {
    forall i :: 0 <= i < |ops| ==> IsDecodeOp(ops[i])
  }

  /** Decoding only, with the mutex neither taken nor given back. */
  ghost predicate Inner(ops: seq<Op>) {
    forall i :: 0 <= i < |ops| ==> IsDecodeOp(ops[i]) && ops[i] != Lock && ops[i] != Unlock
  }

  /** What a traced ioctl does inside the mutex. */
  function IoctlInner(call: Call): seq<Op>
    requires call.Ioctl?
  {
    if call.hasArg
    then [FreezeTime, Do(Log), Do(Indent)] + Acts(call.pre) + [UnfreezeTime, KernelIoctl, FreezeTime, Do(Log)]
         + Acts(call.post) + [Do(Dedent), UnfreezeTime]
    else [FreezeTime, Do(Log), UnfreezeTime, KernelIoctl, FreezeTime, Do(Indent), Do(Log), Do(Dedent), UnfreezeTime]
  }

  lemma InnerAppend(a: seq<Op>, b: seq<Op>)
    requires Inner(a) && Inner(b)
    ensures Inner(a + b)
  {
    hide IsDecodeOp;
  }

  lemma InnerActs(script: seq<Action>)
    ensures Inner(Acts(script))
  {
    ActsAreDos(script);
  }

  lemma IoctlIsInner(call: Call)
    requires call.Ioctl?
    ensures Inner(IoctlInner(call))
  {
    hide Acts;
    if call.hasArg {
      var head, mid, end := [FreezeTime, Do(Log), Do(Indent)], [UnfreezeTime, KernelIoctl, FreezeTime, Do(Log)],
                            [Do(Dedent), UnfreezeTime];
      var pre, post := Acts(call.pre), Acts(call.post);
      InnerActs(call.pre);
      InnerActs(call.post);
      assert Inner(head) && Inner(mid) && Inner(end);
      hide Inner;
      InnerAppend(head, pre);
      InnerAppend(head + pre, mid);
      InnerAppend(head + pre + mid, post);
      InnerAppend(head + pre + mid + post, end);
    }
  }

  lemma IoctlShape(call: Call)
    requires call.Ioctl?
    ensures Traced(call) == [Lock] + IoctlInner(call) + [Unlock]
  {
    hide Acts;
    if call.hasArg {
      var pre, post := Acts(call.pre), Acts(call.post);
      assert [Lock, FreezeTime, Do(Log), Do(Indent)] + (pre + ([UnfreezeTime, KernelIoctl, FreezeTime, Do(Log)]
                                                               + (post + [Do(Dedent), UnfreezeTime, Unlock])))
             == [Lock] + IoctlInner(call) + [Unlock];
    }
  }

  lemma LockIsFirst(inner: seq<Op>, n: nat)
    requires Inner(inner) && n < |inner| + 2 && ([Lock] + inner + [Unlock])[n] == Lock
    ensures n == 0
  {
  }

  /** The mutex is taken at the start of a traced ioctl and given back at its end, nowhere else. */
  lemma IoctlCode(t: Thread)
    requires CodeFits(t) && t.Running? && t.call.Ioctl? && t.code != [] && t.code[0].Lock?
    ensures t.code == [Lock] + IoctlInner(t.call) + [Unlock]
  {
    hide Traced, Acts, IoctlInner, Inner;
    var inner := IoctlInner(t.call);
    IoctlShape(t.call);
    IoctlIsInner(t.call);
    if IsSuffix(t.code, Untraced(t.call)) { UntracedOps(t.call, t.code); }
    var n := |Traced(t.call)| - |t.code|;
    LockIsFirst(inner, n);
  }

  lemma IoctlTracked(call: Call)
    requires call.Ioctl?
    ensures TrackedBy(IoctlInner(call)) == if call.hasArg then Tracked(call.post) + Tracked(call.pre) else []
  {
    hide Acts, TrackedBy;
    if call.hasArg {
      var head, mid, end := [FreezeTime, Do(Log), Do(Indent)], [UnfreezeTime, KernelIoctl, FreezeTime, Do(Log)],
                            [Do(Dedent), UnfreezeTime];
      var pre, post := Acts(call.pre), Acts(call.post);
      TrackedByAppend(head + pre + mid + post, end);
      TrackedByAppend(head + pre + mid, post);
      TrackedByAppend(head + pre, mid);
      TrackedByAppend(head, pre);
      TrackedByActs(call.pre);
      TrackedByActs(call.post);
      NothingTracked(head);
      NothingTracked(mid);
      NothingTracked(end);
    } else {
      NothingTracked(IoctlInner(call));
    }
  }

  lemma {:induction false} NothingTracked(ops: seq<Op>)
    requires forall i :: 0 <= i < |ops| ==> !(ops[i].Do? && ops[i].a.Track?)
    ensures TrackedBy(ops) == []
  {
    if ops != [] { NothingTracked(ops[1..]); }
  }

  lemma {:induction false} DecodesAlone(s: State, tid: Tid, ks: seq<Kernel>, n: nat)
    requires IsRunning(s, tid) && n <= |ks| <= |CodeOf(s, tid)| && Decodes(CodeOf(s, tid)[..n])
    ensures var u := Alone(s, tid, ks[..n]);
            && u.maliFd == s.maliFd && u.tracker.mmaps == s.tracker.mmaps
            && u.tracker.allocations == TrackedBy(CodeOf(s, tid)[..n]) + s.tracker.allocations
    decreases n
  {
    hide IsRunning, CodeOf, Alone, PendingOf, T.TrackMmap, T.TrackMunmap;
    AloneEnds(s, tid, ks);
    if n > 0 {
      var code := CodeOf(s, tid);
      var op := code[n - 1];
      assert code[..n][..n - 1] == code[..n - 1] && code[..n][n - 1] == op;
      assert Decodes(code[..n - 1]);
      DecodesAlone(s, tid, ks, n - 1);
      StepAlone(s, tid, ks, n - 1, op);
      assert code[..n] == code[..n - 1] + [op];
      TrackedByAppend(code[..n - 1], [op]);
      TrackedByOne(op);
    }
  }

  lemma TrackedByOne(op: Op)
    ensures TrackedBy([op]) == if op.Do? && op.a.Track? then [op.a.a] else []
  {
    assert [op][1..] == [];
  }

  lemma SliceOfMiddle<T>(a: seq<T>, b: seq<T>, c: seq<T>)
    ensures (a + b + c)[|a|..] == b + c
  {
  }

  lemma UnlockIsLast(inner: seq<Op>, n: nat)
    requires Inner(inner) && 0 < n <= |inner| + 1 && (inner + [Unlock])[n - 1] == Unlock
    ensures n == |inner| + 1 && Decodes((inner + [Unlock])[..n]) && (inner + [Unlock])[..n] == inner + [Unlock]
  {
  }

  lemma IoctlAlone(s: State, tid: Tid, ks: seq<Kernel>, call: Call)
    requires call.Ioctl? && IsRunning(s, tid) && CodeOf(s, tid) == IoctlInner(call) + [Unlock]
    requires 0 < |ks| <= |CodeOf(s, tid)| && CodeOf(s, tid)[|ks| - 1] == Unlock
    ensures var u := Alone(s, tid, ks);
            && u.maliFd == s.maliFd && u.tracker.mmaps == s.tracker.mmaps
            && u.tracker.allocations
               == (if call.hasArg then Tracked(call.post) + Tracked(call.pre) else []) + s.tracker.allocations
  {
    hide Alone, IsRunning, CodeOf, IoctlInner, TrackedBy, Tracked, Inner, Decodes;
    var inner := IoctlInner(call);
    IoctlIsInner(call);
    IoctlTracked(call);
    UnlockIsLast(inner, |ks|);
    AloneEnds(s, tid, ks);
    DecodesAlone(s, tid, ks, |ks|);
    TrackedByAppend(inner, [Unlock]);
    TrackedByOne(Unlock);
  }

  /**
   * A traced ioctl, in any interleaving: as soon as the mutex is free, what its decode functions
   * tracked is pending, newest first and in front of what was pending before; the mappings and
   * the device are as they were.
   */
  lemma IoctlIsTracked(run: seq<State>, steps: seq<Step>, i: nat, j: nat, tid: Tid, call: Call)
    requires IsHistory(run, steps) && NextFree(run, i, j) && call.Ioctl? && Does(run, steps, i, tid, call, Lock)
    ensures run[j].tracker.mmaps == run[i].tracker.mmaps && run[j].maliFd == run[i].maliFd
    ensures run[j].tracker.allocations
            == (if call.hasArg then Tracked(call.post) + Tracked(call.pre) else []) + run[i].tracker.allocations
  {
    hide Inv, Next, Allowed, Alone, IsRunning, IoctlInner, Tracked, Traced, Untraced, IsSuffix;
    CodesFitAlways(run, steps, i);
    IoctlCode(run[i].threads[tid]);
    SliceOfMiddle([Lock], IoctlInner(call), [Unlock]);
    SectionStarts(run, steps, i, j, tid, call);
    SectionEnds(run, steps, i + 1, j, tid);
    IoctlAlone(run[i + 1], tid, Answers(run, steps, i + 1, j, tid), call);
  }

  // From one step to the next, and over whole histories.

  /** The operations that change tracker or mali_fd belong to the calls they should. */
  lemma OpOfCall(t: Thread)
    requires CodeFits(t) && t.Running? && t.code != []
    ensures match t.code[0]
            case Untrack(addr) => t.call == Munmap(addr)
            case TrackMapping(offset, length, prot) =>
              t.call.Mmap? && t.call.offset == offset && t.call.length == length && t.call.prot == prot
            case SetFd(path) => t.call == Open(path)
            case ClearFd(fd) => t.call == Close(fd)
            case Do(_) => t.call.Ioctl?
            case _ => true
  {
    if IsSuffix(t.code, Untraced(t.call)) { UntracedOps(t.call, t.code); }
    if t.call.Ioctl? { IoctlOps(t); }
  }

  lemma IoctlOps(t: Thread)
    requires CodeFits(t) && t.Running? && t.call.Ioctl? && t.code != []
    ensures IsDecodeOp(t.code[0])
  {
    hide Traced, Acts, IoctlInner, Inner;
    IoctlShape(t.call);
    IoctlIsInner(t.call);
    if IsSuffix(t.code, Untraced(t.call)) {
      UntracedOps(t.call, t.code);
    } else {
      InnerAt(IoctlInner(t.call), |Traced(t.call)| - |t.code|);
    }
  }

  lemma InnerAt(inner: seq<Op>, n: nat)
    requires Inner(inner) && n < |inner| + 2
    ensures IsDecodeOp(([Lock] + inner + [Unlock])[n])
  {
  }

  /** At step `i` a munmap of `addr` takes a mapping out of the tracker. */
  ghost predicate Unmaps(run: seq<State>, steps: seq<Step>, i: nat, addr: u64) {
    exists tid :: Does(run, steps, i, tid, Munmap(addr), Untrack(addr))
  }

  /** At step `i` an mmap at `offset` looks for a pending allocation. */
  ghost predicate Maps(run: seq<State>, steps: seq<Step>, i: nat, offset: u64) {
    exists tid, fd, length, prot :: Does(run, steps, i, tid, Mmap(fd, offset, length, prot), TrackMapping(offset, length, prot))
  }

  lemma RemoveKeeps<T>(s: seq<T>, k: nat, x: T)
    requires k < |s| && x in s && x != s[k]
    ensures x in T.Remove(s, k)
  {
    var i :| 0 <= i < |s| && s[i] == x;
    assert T.Remove(s, k)[if i < k then i else i - 1] == x;
  }

  lemma TrackedStays(t: T.State, m: T.Mapping, a: T.Allocation, offset: u64, addr: u64, length: u64, prot: bv32)
    ensures m in t.mmaps ==> m in T.TrackMmap(t, offset, addr, length, prot).mmaps
    ensures m in t.mmaps && m.addr != addr ==> m in T.TrackMunmap(t, addr).mmaps
    ensures a in t.allocations && a.gpuVa != offset ==> a in T.TrackMmap(t, offset, addr, length, prot).allocations
    ensures a in t.allocations ==> a in T.TrackMunmap(t, addr).allocations
  {
    var k, n := T.Find(T.ByAddr(addr), t.mmaps), T.FindPending(offset, t.allocations);
    if k < |t.mmaps| && m in t.mmaps && m.addr != addr { RemoveKeeps(t.mmaps, k, m); }
    if n < |t.allocations| && a in t.allocations && a.gpuVa != offset { RemoveKeeps(t.allocations, n, a); }
  }

  /** What one step can take away. */
  lemma StepTakes(run: seq<State>, steps: seq<Step>, i: nat, m: T.Mapping, a: T.Allocation)
    requires IsHistory(run, steps) && i < |steps|
    ensures m in run[i].tracker.mmaps && m !in run[i + 1].tracker.mmaps ==> Unmaps(run, steps, i, m.addr)
    ensures a in run[i].tracker.allocations && a !in run[i + 1].tracker.allocations ==> Maps(run, steps, i, a.gpuVa)
  {
    hide Inv, T.TrackMmap, T.TrackMunmap, Effect, IsSuffix, Traced, Untraced, MapsFresh, UnmapsOnly, Advance, CodeFits;
    StateOf(run, steps, i);
    CodesFitAlways(run, steps, i);
    var s, step := run[i], steps[i];
    if step.Exec? {
      var t := s.threads[step.tid];
      GuardedStep(s, step.tid, step.k);
      GuardedEffect(s, t, step.tid, step.k);
      OpOfCall(t);
      assert Does(run, steps, i, step.tid, t.call, t.code[0]);
      match t.code[0]
      case TrackMapping(offset, length, prot) =>
        if t.pending.HasMapping? { TrackedStays(s.tracker, m, a, offset, t.pending.addr, length, prot); }
      case Untrack(addr) =>
        TrackedStays(s.tracker, m, a, 0, addr, 0, 0);
      case _ =>
    }
  }

  /** A tracked mapping stays tracked until a munmap of its address. */
  lemma {:induction false} MappingStays(run: seq<State>, steps: seq<Step>, i: nat, j: nat, m: T.Mapping)
    requires IsHistory(run, steps) && i <= j < |run| && m in run[i].tracker.mmaps
    requires forall q :: i <= q < j ==> !Unmaps(run, steps, q, m.addr)
    ensures m in run[j].tracker.mmaps
    decreases j
  {
    hide Next, Allowed, Unmaps;
    if i < j {
      MappingStays(run, steps, i, j - 1, m);
      StepTakes(run, steps, j - 1, m, T.Allocation(0, 0));
    }
  }

  /** A pending allocation stays pending until an mmap at its GPU address. */
  lemma {:induction false} AllocationStays(run: seq<State>, steps: seq<Step>, i: nat, j: nat, a: T.Allocation)
    requires IsHistory(run, steps) && i <= j < |run| && a in run[i].tracker.allocations
    requires forall q :: i <= q < j ==> !Maps(run, steps, q, a.gpuVa)
    ensures a in run[j].tracker.allocations
    decreases j
  {
    hide Next, Allowed, Maps;
    if i < j {
      AllocationStays(run, steps, i, j - 1, a);
      StepTakes(run, steps, j - 1, T.Mapping(0, 0, 0, 0, 0), a);
    }
  }

  /** At step `i` the kernel gives `result` to a thread of the call. */
  predicate Answered(run: seq<State>, steps: seq<Step>, i: nat, tid: Tid, t: Thread, result: Pending) {
    && i < |steps| && i < |run| && steps[i].Exec? && steps[i].tid == tid && AtOp(run[i], tid)
    && run[i].threads[tid].id == t.id && run[i].threads[tid].call == t.call
    && match run[i].threads[tid].code[0]
       case KernelOpen => result == HasFd(steps[i].k.fd)
       case KernelMmap(length) => result == HasMapping(steps[i].k.addr, length)
       case KernelMunmap(addr) => result == Unmapped(addr)
       case _ => false
  }

  /** The result a thread has yet to process is the one the kernel gave to its own call. */
  lemma {:induction false} ResultsAreTheKernels(run: seq<State>, steps: seq<Step>, j: nat, tid: Tid)
    requires IsHistory(run, steps) && j < |run| && PendingOf(run[j], tid) != Nothing
    ensures exists i :: 0 <= i < j && Answered(run, steps, i, tid, run[j].threads[tid], PendingOf(run[j], tid))
    decreases j
  {
    hide Inv, Effect, Allowed, Traced, Untraced, Test;
    if j > 0 {
      StateOf(run, steps, j - 1);
      var s, u := run[j - 1], run[j];
      PendingMoves(s, steps[j - 1], tid);
      if PendingOf(s, tid) == PendingOf(u, tid) && SameCall(s, u, tid) {
        ResultsAreTheKernels(run, steps, j - 1, tid);
        var i :| 0 <= i < j - 1 && Answered(run, steps, i, tid, s.threads[tid], PendingOf(s, tid));
        assert Answered(run, steps, i, tid, u.threads[tid], PendingOf(u, tid));
      } else {
        assert Answered(run, steps, j - 1, tid, u.threads[tid], PendingOf(u, tid));
      }
    }
  }

  predicate SameCall(s: State, u: State, tid: Tid) {
    && tid in s.threads && tid in u.threads
    && s.threads[tid].id == u.threads[tid].id && s.threads[tid].call == u.threads[tid].call
  }

  lemma PendingMoves(s: State, step: Step, tid: Tid)
    requires Allowed(s, step) && PendingOf(Next(s, step), tid) != Nothing
    ensures var u := Next(s, step);
            || (PendingOf(s, tid) == PendingOf(u, tid) && SameCall(s, u, tid))
            || (&& step.Exec? && step.tid == tid && AtOp(s, tid) && SameCall(s, u, tid)
                && match s.threads[tid].code[0]
                   case KernelOpen => PendingOf(u, tid) == HasFd(step.k.fd)
                   case KernelMmap(length) => PendingOf(u, tid) == HasMapping(step.k.addr, length)
                   case KernelMunmap(addr) => PendingOf(u, tid) == Unmapped(addr)
                   case _ => false)
  {
    hide Effect, Traced, Untraced, Test, MapsFresh, UnmapsOnly;
    if step.Exec? { GuardedStep(s, step.tid, step.k); }
  }

  /** At step `i` a decode function tracks the allocation. */
  ghost predicate TracksAt(run: seq<State>, steps: seq<Step>, i: nat, a: T.Allocation) {
    exists tid, call :: Does(run, steps, i, tid, call, Do(Track(a)))
  }

  /** At step `i` the kernel maps for an mmap of these arguments, at the address. */
  ghost predicate MapsAt(run: seq<State>, steps: seq<Step>, i: nat, offset: u64, addr: u64, length: u64, prot: bv32) {
    exists tid, fd :: Does(run, steps, i, tid, Mmap(fd, offset, length, prot), KernelMmap(length)) && steps[i].k.addr == addr
  }

  lemma TrackerAdds(t: T.State, m: T.Mapping, offset: u64, addr: u64, length: u64, prot: bv32)
    requires m !in t.mmaps && m in T.TrackMmap(t, offset, addr, length, prot).mmaps
    ensures exists a :: a in t.allocations && T.MadeFrom(m, a, offset, addr, length, prot)
  {
    T.MmapConsumesNewest(t, offset, addr, length, prot);
    var u := T.TrackMmap(t, offset, addr, length, prot);
    var k :| 0 <= k < |t.allocations| && u.mmaps[1..] == t.mmaps
             && T.MadeFrom(u.mmaps[0], t.allocations[k], offset, addr, length, prot);
    assert u.mmaps == [u.mmaps[0]] + t.mmaps;
  }

  /** What one step can add. */
  lemma StepAdds(s: State, step: Step, m: T.Mapping, a: T.Allocation)
    requires Allowed(s, step) && CodesFit(s)
    ensures var u := Next(s, step);
            && (a in u.tracker.allocations && a !in s.tracker.allocations ==>
                  step.Exec? && AtOp(s, step.tid) && s.threads[step.tid].code[0] == Do(Track(a)))
            && (m in u.tracker.mmaps && m !in s.tracker.mmaps ==>
                  && step.Exec? && AtOp(s, step.tid) && s.threads[step.tid].pending.HasMapping?
                  && s.threads[step.tid].call.Mmap?
                  && var c := s.threads[step.tid].call;
                     exists b :: b in s.tracker.allocations
                                 && T.MadeFrom(m, b, c.offset, s.threads[step.tid].pending.addr, c.length, c.prot))
  {
    hide Effect, IsSuffix, Traced, Untraced, MapsFresh, UnmapsOnly, Advance, CodeFits, Test, T.MadeFrom;
    if step.Exec? {
      var t := s.threads[step.tid];
      GuardedStep(s, step.tid, step.k);
      GuardedEffect(s, t, step.tid, step.k);
      OpOfCall(t);
      var u := Next(s, step);
      if m in u.tracker.mmaps && m !in s.tracker.mmaps && t.code[0].TrackMapping? && t.pending.HasMapping? {
        TrackerAdds(s.tracker, m, t.code[0].offset, t.pending.addr, t.code[0].length, t.code[0].prot);
      }
    }
  }

  /** Every pending allocation was tracked by a decode function before. */
  lemma {:induction false} AllocationsWereTracked(run: seq<State>, steps: seq<Step>, j: nat, a: T.Allocation)
    requires IsHistory(run, steps) && j < |run| && a in run[j].tracker.allocations
    ensures exists h :: 0 <= h < j && TracksAt(run, steps, h, a)
    decreases j
  {
    hide Next, Allowed, Inv, CodesFit;
    if j > 0 {
      StateOf(run, steps, j - 1);
      CodesFitAlways(run, steps, j - 1);
      StepAdds(run[j - 1], steps[j - 1], T.Mapping(0, 0, 0, 0, 0), a);
      if a in run[j - 1].tracker.allocations {
        AllocationsWereTracked(run, steps, j - 1, a);
      } else {
        var tid := steps[j - 1].tid;
        assert Does(run, steps, j - 1, tid, run[j - 1].threads[tid].call, Do(Track(a)));
        assert TracksAt(run, steps, j - 1, a);
      }
    }
  }

  /** The mapping is one the kernel made at step `i`, of the allocation tracked at step `h`. */
  ghost predicate Origin(run: seq<State>, steps: seq<Step>, h: nat, i: nat, m: T.Mapping, a: T.Allocation) {
    && TracksAt(run, steps, h, a) && MapsAt(run, steps, i, a.gpuVa, m.addr, m.length, m.prot)
    && m.flags == a.flags && m.gpuVa == if a.flags & 0x2000 == 0 then a.gpuVa else m.addr
  }

  lemma MappingOrigin(run: seq<State>, steps: seq<Step>, j: nat, tid: Tid, m: T.Mapping, a: T.Allocation)
    requires IsHistory(run, steps) && j < |run| && IsRunning(run[j], tid) && run[j].threads[tid].call.Mmap?
    requires run[j].threads[tid].pending.HasMapping? && a in run[j].tracker.allocations
    requires var t := run[j].threads[tid]; T.MadeFrom(m, a, t.call.offset, t.pending.addr, t.call.length, t.call.prot)
    ensures exists h, i :: 0 <= h < j && 0 <= i < j && Origin(run, steps, h, i, m, a)
  {
    hide Next, Allowed, Inv, CodeFits;
    var t := run[j].threads[tid];
    AllocationsWereTracked(run, steps, j, a);
    var h :| 0 <= h < j && TracksAt(run, steps, h, a);
    ResultsAreTheKernels(run, steps, j, tid);
    var i :| 0 <= i < j && Answered(run, steps, i, tid, t, t.pending);
    CodesFitAlways(run, steps, i);
    MmapCode(run[i].threads[tid]);
    assert Does(run, steps, i, tid, Mmap(t.call.fd, t.call.offset, t.call.length, t.call.prot), KernelMmap(t.call.length));
    assert Origin(run, steps, h, i, m, a);
  }

  /**
   * Nothing is tracked without cause: every tracked mapping was made by the kernel for an mmap
   * that had its length and protection, at its CPU address; a decode function had tracked an
   * allocation with its flags at the offset of that mmap, which is its GPU address unless it is
   * SAME_VA.
   */
  lemma {:induction false} MappingsComeFromMmaps(run: seq<State>, steps: seq<Step>, j: nat, m: T.Mapping)
    requires IsHistory(run, steps) && j < |run| && m in run[j].tracker.mmaps
    ensures exists h, i, a :: 0 <= h < j && 0 <= i < j && Origin(run, steps, h, i, m, a)
    decreases j
  {
    hide Next, Allowed, Inv, CodesFit, T.MadeFrom, Origin;
    if j > 0 {
      StateOf(run, steps, j - 1);
      CodesFitAlways(run, steps, j - 1);
      var s, step := run[j - 1], steps[j - 1];
      StepAdds(s, step, m, T.Allocation(0, 0));
      if m in s.tracker.mmaps {
        MappingsComeFromMmaps(run, steps, j - 1, m);
      } else {
        var t := s.threads[step.tid];
        var a :| a in s.tracker.allocations && T.MadeFrom(m, a, t.call.offset, t.pending.addr, t.call.length, t.call.prot);
        MappingOrigin(run, steps, j - 1, step.tid, m, a);
      }
    }
  }

  // Which device the wrappers take for the GPU.

  /** At step `i` an open of /dev/mali0 that the kernel answered with `fd` is processed. */
  ghost predicate OpensDevice(run: seq<State>, steps: seq<Step>, i: nat, fd: int) {
    exists tid :: Does(run, steps, i, tid, Open(MaliDevice), SetFd(MaliDevice)) && fd != -1
                  && run[i].threads[tid].pending == HasFd(fd)
  }

  /** At step `i` a close of `fd` is processed. */
  ghost predicate ClosesFd(run: seq<State>, steps: seq<Step>, i: nat, fd: int) {
    exists tid :: Does(run, steps, i, tid, Close(fd), ClearFd(fd))
  }

  /** One step changes mali_fd only in these two ways, and then it does. */
  lemma StepSetsFd(run: seq<State>, steps: seq<Step>, i: nat, fd: int)
    requires IsHistory(run, steps) && i < |steps|
    ensures OpensDevice(run, steps, i, fd) ==> run[i + 1].maliFd == fd
    ensures ClosesFd(run, steps, i, fd) && run[i].maliFd == fd ==> run[i + 1].maliFd == 0
    ensures (forall f :: !OpensDevice(run, steps, i, f)) && !ClosesFd(run, steps, i, run[i].maliFd) ==>
              run[i + 1].maliFd == run[i].maliFd
    ensures (forall f :: !OpensDevice(run, steps, i, f)) && run[i].maliFd == 0 ==> run[i + 1].maliFd == 0
  {
    hide Inv, T.TrackMmap, T.TrackMunmap, Effect, IsSuffix, Traced, Untraced, MapsFresh, UnmapsOnly, Advance, CodeFits;
    StateOf(run, steps, i);
    CodesFitAlways(run, steps, i);
    var s, step := run[i], steps[i];
    if step.Exec? {
      var t := s.threads[step.tid];
      GuardedStep(s, step.tid, step.k);
      GuardedEffect(s, t, step.tid, step.k);
      OpOfCall(t);
      assert Does(run, steps, i, step.tid, t.call, t.code[0]);
      if t.code[0] == SetFd(MaliDevice) && t.pending.HasFd? && t.pending.fd != -1 {
        assert OpensDevice(run, steps, i, t.pending.fd);
      }
    }
  }

  /**
   * mali_fd is the fd of the last open of /dev/mali0 that was processed, until a close of that fd
   * is; then it is 0.
   */
  lemma {:induction false} DeviceIsLastOpened(run: seq<State>, steps: seq<Step>, i: nat, j: nat, fd: int)
    requires IsHistory(run, steps) && i < j < |run| && OpensDevice(run, steps, i, fd)
    requires forall q, f :: i < q < j ==> !OpensDevice(run, steps, q, f)
    ensures run[j].maliFd == if exists q :: i < q < j && ClosesFd(run, steps, q, fd) then 0 else fd
    decreases j
  {
    hide Next, Allowed, OpensDevice, ClosesFd;
    StepSetsFd(run, steps, j - 1, fd);
    if j > i + 1 {
      DeviceIsLastOpened(run, steps, i, j - 1, fd);
    }
  }

  /** Before any such open it is 0. */
  lemma {:induction false} NoDeviceAtFirst(run: seq<State>, steps: seq<Step>, j: nat)
    requires IsHistory(run, steps) && j < |run|
    requires forall q, f :: 0 <= q < j ==> !OpensDevice(run, steps, q, f)
    ensures run[j].maliFd == 0
    decreases j
  {
    hide Next, Allowed, OpensDevice, ClosesFd;
    if j > 0 {
      NoDeviceAtFirst(run, steps, j - 1);
      StepSetsFd(run, steps, j - 1, 0);
    }
  }

  // Which calls are traced.

  /** At step `i`, before state `j`, the call of the thread looks at mali_fd. */
  predicate LooksAt(run: seq<State>, steps: seq<Step>, i: int, j: int, tid: Tid, t: Thread) {
    && 0 <= i < j && i < |run| && i < |steps| && steps[i] == TestFd(tid)
    && tid in run[i].threads && run[i].threads[tid].Testing?
    && run[i].threads[tid].id == t.id && run[i].threads[tid].call == t.call
  }

  /** The call takes the mutex, or has taken it. */
  predicate TakesMutex(t: Thread) {
    t.Running? && (t.stage != Before || Lock in t.code)
  }

  /** The call has looked once, and mali_fd was neither 0 nor was there any other reason not to look again. */
  ghost predicate FirstLookPassed(run: seq<State>, steps: seq<Step>, j: int, tid: Tid, t: Thread) {
    exists i :: LooksAt(run, steps, i, j, tid, t) && run[i].maliFd != 0 && (t.call.Close? ==> t.call.fd > 0)
  }

  ghost predicate FirstLookFailed(run: seq<State>, steps: seq<Step>, j: int, tid: Tid, t: Thread) {
    exists i :: LooksAt(run, steps, i, j, tid, t) && (run[i].maliFd == 0 || (t.call.Close? && t.call.fd <= 0))
  }

  /** After a first look that passed, a second one found `equal` whether mali_fd is the fd of the call. */
  ghost predicate SecondLook(run: seq<State>, steps: seq<Step>, j: nat, tid: Tid, t: Thread, fd: int, equal: bool) {
    exists i :: LooksAt(run, steps, i, j, tid, t) && FirstLookPassed(run, steps, i, tid, t) && (equal <==> fd == run[i].maliFd)
  }

  /** How the looks at mali_fd have decided whether the call of a thread takes the mutex. */
  ghost predicate DecidedByLooks(run: seq<State>, steps: seq<Step>, j: nat, tid: Tid, t: Thread) {
    match t.call
    case Open(_) => t.Running? ==> TakesMutex(t)
    case Munmap(_) => t.Running? ==> TakesMutex(t)
    case Ioctl(fd, _, _, _) =>
      t.Running? ==>
        exists i :: LooksAt(run, steps, i, j, tid, t) && (TakesMutex(t) <==> fd == 0 || fd == run[i].maliFd)
    case Close(fd) => DecidedByTwo(run, steps, j, tid, t, fd)
    case Mmap(fd, _, _, _) => DecidedByTwo(run, steps, j, tid, t, fd)
  }

  ghost predicate DecidedByTwo(run: seq<State>, steps: seq<Step>, j: nat, tid: Tid, t: Thread, fd: int) {
    && (t.Testing? && t.looks > 0 ==> FirstLookPassed(run, steps, j, tid, t))
    && (t.Running? && TakesMutex(t) ==> SecondLook(run, steps, j, tid, t, fd, true))
    && (t.Running? && !TakesMutex(t) ==>
          FirstLookFailed(run, steps, j, tid, t) || SecondLook(run, steps, j, tid, t, fd, false))
  }

  /** What is decided stays decided as the thread goes on. */
  lemma StillDecided(run: seq<State>, steps: seq<Step>, j: nat, k: nat, tid: Tid, t: Thread, u: Thread)
    requires DecidedByLooks(run, steps, j, tid, t) && j <= k && t.id == u.id && t.call == u.call
    requires t.Running? == u.Running? && (t.Testing? ==> t.looks == u.looks) && TakesMutex(t) == TakesMutex(u)
    ensures DecidedByLooks(run, steps, k, tid, u)
  {
    hide TakesMutex;
    forall i | LooksAt(run, steps, i, j, tid, t) ensures LooksAt(run, steps, i, k, tid, u) {}
    forall i | FirstLookPassed(run, steps, i, tid, t) ensures FirstLookPassed(run, steps, i, tid, u) {
      var q :| LooksAt(run, steps, q, i, tid, t) && run[q].maliFd != 0 && (t.call.Close? ==> t.call.fd > 0);
      assert LooksAt(run, steps, q, i, tid, u);
    }
    if FirstLookPassed(run, steps, j, tid, t) {
      var q :| LooksAt(run, steps, q, j, tid, t) && run[q].maliFd != 0 && (t.call.Close? ==> t.call.fd > 0);
      assert LooksAt(run, steps, q, k, tid, u);
    }
  }

  lemma TakesMutexMoves(t: Thread, k: Kernel)
    requires CodeFits(t) && t.Running? && t.code != []
    requires t.code[0].Unlock? ==> t.stage != Before
    ensures TakesMutex(Advance(t, k)) == TakesMutex(t)
  {
    hide CodeFits;
    assert t.code == [t.code[0]] + t.code[1..];
  }

  lemma CodeTakesMutex(call: Call)
    ensures Lock in Traced(call) && Lock !in Untraced(call)
  {
    match call
    case Open(path) => assert Traced(call)[1] == Lock;
    case _ => assert Traced(call)[0] == Lock;
  }

  /** A look decides: on from the first to the second, or what code to run. */
  lemma LookDecides(run: seq<State>, steps: seq<Step>, j: nat, tid: Tid)
    requires IsHistory(run, steps) && j < |steps| && steps[j] == TestFd(tid)
    requires tid in run[j].threads && DecidedByLooks(run, steps, j, tid, run[j].threads[tid])
    ensures tid in run[j + 1].threads && DecidedByLooks(run, steps, j + 1, tid, run[j + 1].threads[tid])
  {
    hide Traced, Untraced;
    assert Takes(run, steps, j);
    var t, u := run[j].threads[tid], run[j + 1].threads[tid];
    CodeTakesMutex(t.call);
    assert LooksAt(run, steps, j, j + 1, tid, u);
    if t.looks > 0 && (t.call.Close? || t.call.Mmap?) {
      var q :| LooksAt(run, steps, q, j, tid, t) && run[q].maliFd != 0 && (t.call.Close? ==> t.call.fd > 0);
      assert LooksAt(run, steps, q, j, tid, u);
      assert FirstLookPassed(run, steps, j, tid, u);
    }
  }

  /** A step of another thread, or one within the code of the call, leaves decided what was. */
  lemma StepDecides(run: seq<State>, steps: seq<Step>, j: nat, tid: Tid)
    requires IsHistory(run, steps) && j < |steps| && tid in run[j + 1].threads
    requires tid in run[j].threads ==> DecidedByLooks(run, steps, j, tid, run[j].threads[tid])
    ensures DecidedByLooks(run, steps, j + 1, tid, run[j + 1].threads[tid])
  {
    hide Inv, Effect, Advance, TakesMutex, DecidedByLooks, Traced, Untraced, Test, CodeFits, MapsFresh, UnmapsOnly;
    StateOf(run, steps, j);
    CodesFitAlways(run, steps, j);
    var s, step := run[j], steps[j];
    if step == TestFd(tid) {
      LookDecides(run, steps, j, tid);
    } else if step.Exec? && step.tid == tid {
      GuardedStep(s, tid, step.k);
      UnlockInside(s, tid);
      TakesMutexMoves(s.threads[tid], step.k);
      AdvanceKeepsCall(s.threads[tid], step.k);
      StillDecided(run, steps, j, j + 1, tid, s.threads[tid], run[j + 1].threads[tid]);
    } else if tid in s.threads {
      if step.Exec? { GuardedStep(s, step.tid, step.k); ExecOthers(s, step.tid, step.k, tid); }
      StillDecided(run, steps, j, j + 1, tid, s.threads[tid], run[j + 1].threads[tid]);
    } else {
      JustBegun(run, steps, j + 1, tid, run[j + 1].threads[tid]);
    }
  }

  lemma ExecOthers(s: State, tid: Tid, k: Kernel, other: Tid)
    requires AtOp(s, tid) && other != tid
    ensures other in Next(s, Exec(tid, k)).threads <==> other in s.threads
    ensures other in s.threads ==> Next(s, Exec(tid, k)).threads[other] == s.threads[other]
  {
    hide Effect, Advance;
  }

  lemma AdvanceKeepsCall(t: Thread, k: Kernel)
    requires t.Running? && t.code != []
    ensures var u := Advance(t, k); u.Running? && u.id == t.id && u.call == t.call
  {
  }

  lemma UnlockInside(s: State, tid: Tid)
    requires Inv(s) && AtOp(s, tid)
    ensures s.threads[tid].code[0].Unlock? ==> s.threads[tid].stage != Before
  {
    hide InvTracker, InvClock, InvCalls, InvLog, Disciplined;
    NextFits(s, tid);
  }

  lemma JustBegun(run: seq<State>, steps: seq<Step>, j: nat, tid: Tid, t: Thread)
    requires t.Testing? && t.looks == 0
    ensures DecidedByLooks(run, steps, j, tid, t)
  {
  }

  /**
   * In any interleaving, whether a call is traced was decided by what it itself saw of mali_fd:
   * an ioctl by one look, traced exactly if its fd is 0 or was the device then; a close or an mmap
   * by two, traced only if there was a device at the first and it was the call's fd at the second,
   * and otherwise not because one of the two said so.
   */
  lemma {:induction false} TracedAsSeen(run: seq<State>, steps: seq<Step>, j: nat, tid: Tid)
    requires IsHistory(run, steps) && j < |run| && tid in run[j].threads
    ensures DecidedByLooks(run, steps, j, tid, run[j].threads[tid])
    decreases j
  {
    hide Next, Allowed, DecidedByLooks;
    if j > 0 {
      if tid in run[j - 1].threads { TracedAsSeen(run, steps, j - 1, tid); }
      StepDecides(run, steps, j - 1, tid);
    }
  }

  // What the application gets.

  /** The operations the thread executes from state `b` to state `e`. */
  ghost function OpsOf(run: seq<State>, steps: seq<Step>, b: nat, e: nat, tid: Tid): seq<Op>
    requires b <= e <= |steps| < |run|
    decreases e
  {
    if b == e then [] else
    OpsOf(run, steps, b, e - 1, tid)
    + if steps[e - 1].Exec? && steps[e - 1].tid == tid && AtOp(run[e - 1], tid) then [run[e - 1].threads[tid].code[0]] else []
  }

  /** The code of a call, all of it; open and munmap are always traced. */
  predicate IsWholeCode(call: Call, ops: seq<Op>) {
    ops == Traced(call) || (!call.Open? && !call.Munmap? && ops == Untraced(call))
  }

  /** The thread is in the middle of the call and has executed `done`. */
  predicate HasDone(s: State, tid: Tid, call: Call, done: seq<Op>) {
    && tid in s.threads && s.threads[tid].call == call
    && match s.threads[tid]
       case Testing(_, _, _) => done == []
       case Running(_, _, code, _, _) => IsWholeCode(call, done + code)
  }

  lemma DoneGrows(s: State, step: Step, tid: Tid, call: Call, done: seq<Op>)
    requires Allowed(s, step) && HasDone(s, tid, call, done) && step != Return(tid)
    ensures HasDone(Next(s, step), tid, call,
                    done + if step.Exec? && step.tid == tid && AtOp(s, tid) then [s.threads[tid].code[0]] else [])
  {
    hide Effect, Advance, Traced, Untraced, MapsFresh, UnmapsOnly;
    assert done + [] == done;
    if step.Exec? && step.tid == tid {
      var t := s.threads[tid];
      AdvanceKeepsCall(t, step.k);
      AdvanceTail(t, step.k);
      assert done + [t.code[0]] + t.code[1..] == done + t.code;
    } else if step.Exec? {
      ExecOthers(s, step.tid, step.k, tid);
    } else if step == TestFd(tid) {
      var call := s.threads[tid].call;
      assert [] + Traced(call) == Traced(call) && [] + Untraced(call) == Untraced(call);
    }
  }

  lemma AdvanceTail(t: Thread, k: Kernel)
    requires t.Running? && t.code != []
    ensures Advance(t, k).Running? && Advance(t, k).code == t.code[1..]
  {
  }

  lemma {:induction false} DoneSoFar(run: seq<State>, steps: seq<Step>, b: nat, e: nat, tid: Tid, call: Call)
    requires IsHistory(run, steps) && b < e < |run| && steps[b] == Begin(tid, call)
    requires forall q :: b < q < e ==> steps[q] != Return(tid)
    ensures HasDone(run[e], tid, call, OpsOf(run, steps, b, e, tid))
    decreases e
  {
    hide Allowed, HasDone, Next;
    assert Takes(run, steps, e - 1);
    if e == b + 1 {
      Begun(run[b], tid, call);
      assert OpsOf(run, steps, b, e, tid) == [];
    } else {
      DoneSoFar(run, steps, b, e - 1, tid, call);
      var s, step, done := run[e - 1], steps[e - 1], OpsOf(run, steps, b, e - 1, tid);
      DoneGrows(s, step, tid, call, done);
      assert OpsOf(run, steps, b, e, tid)
             == done + if step.Exec? && step.tid == tid && AtOp(s, tid) then [s.threads[tid].code[0]] else [];
    }
  }

  lemma Begun(s: State, tid: Tid, call: Call)
    ensures HasDone(Next(s, Begin(tid, call)), tid, call, [])
  {
  }

  /** The operations that are requests to the kernel. */
  predicate IsRequest(op: Op) {
    op.KernelOpen? || op.KernelClose? || op.KernelIoctl? || op.KernelMmap? || op.KernelMmapUntraced? || op.KernelMunmap?
  }

  function Requests(ops: seq<Op>): seq<Op> {
    if ops == [] then [] else RequestOf(ops[0]) + Requests(ops[1..])
  }

  function RequestOf(op: Op): seq<Op> {
    if IsRequest(op) then [op] else []
  }

  /** What the decode functions and the wrapper itself do, of which the application sees nothing. */
  function ActionsOf(ops: seq<Op>): seq<Action> {
    if ops == [] then [] else ActionOf(ops[0]) + ActionsOf(ops[1..])
  }

  function ActionOf(op: Op): seq<Action> {
    if op.Do? then [op.a] else []
  }

  /** The operation is the request the application made. */
  predicate IsOwnRequest(call: Call, op: Op) {
    match call
    case Open(_) => op == KernelOpen
    case Close(_) => op == KernelClose
    case Ioctl(_, _, _, _) => op == KernelIoctl
    case Mmap(_, _, length, _) => op == KernelMmap(length) || op == KernelMmapUntraced(length)
    case Munmap(addr) => op == KernelMunmap(addr)
  }

  lemma {:induction false} RequestsAppend(a: seq<Op>, b: seq<Op>)
    ensures Requests(a + b) == Requests(a) + Requests(b)
  {
    hide RequestOf;
    if a == [] {
      assert a + b == b;
    } else {
      assert (a + b)[1..] == a[1..] + b;
      RequestsAppend(a[1..], b);
    }
  }

  lemma {:induction false} ActionsAppend(a: seq<Op>, b: seq<Op>)
    ensures ActionsOf(a + b) == ActionsOf(a) + ActionsOf(b)
  {
    hide ActionOf;
    if a == [] {
      assert a + b == b;
    } else {
      assert (a + b)[1..] == a[1..] + b;
      ActionsAppend(a[1..], b);
    }
  }

  lemma {:induction false} RequestsOfActs(script: seq<Action>)
    ensures Requests(Acts(script)) == [] && ActionsOf(Acts(script)) == script
  {
    if script != [] {
      RequestsOfActs(script[1..]);
      assert Acts(script)[1..] == Acts(script[1..]);
    }
  }

  /** Around the request: what a traced ioctl with an argument does before it and after it. */
  function BeforeRequest(pre: seq<Action>): seq<Op> {
    [Lock, FreezeTime, Do(Log), Do(Indent)] + Acts(pre) + [UnfreezeTime]
  }

  function AfterRequest(post: seq<Action>): seq<Op> {
    [FreezeTime, Do(Log)] + Acts(post) + [Do(Dedent), UnfreezeTime, Unlock]
  }

  lemma TwoActions(a: Op, b: Op)
    ensures ActionsOf([a, b]) == ActionOf(a) + ActionOf(b)
  {
    hide ActionOf;
    assert [a, b] == [a] + [b];
    OneAction(a);
    OneAction(b);
    ActionsAppend([a], [b]);
  }

  lemma OneAction(a: Op)
    ensures ActionsOf([a]) == ActionOf(a)
  {
    assert [a][1..] == [];
  }

  lemma AroundRequest(call: Call)
    requires call.Ioctl? && call.hasArg
    ensures Traced(call) == BeforeRequest(call.pre) + [KernelIoctl] + AfterRequest(call.post)
    ensures Requests(BeforeRequest(call.pre)) == [] && ActionsOf(BeforeRequest(call.pre)) == [Log, Indent] + call.pre
    ensures Requests(AfterRequest(call.post)) == [] && ActionsOf(AfterRequest(call.post)) == [Log] + call.post + [Dedent]
  {
    hide Acts, Requests, ActionsOf;
    var pre, post := Acts(call.pre), Acts(call.post);
    RequestsOfActs(call.pre);
    RequestsOfActs(call.post);
    NoRequestIn(BeforeRequest(call.pre), [Lock, FreezeTime, Do(Log), Do(Indent)], pre, [UnfreezeTime]);
    NoRequestIn(AfterRequest(call.post), [FreezeTime, Do(Log)], post, [Do(Dedent), UnfreezeTime, Unlock]);
    ActionsIn([Lock, FreezeTime] + [Do(Log), Do(Indent)], pre, [UnfreezeTime]);
    ActionsIn([FreezeTime, Do(Log)], post, [Do(Dedent), UnfreezeTime] + [Unlock]);
    ActionsAppend([Lock, FreezeTime], [Do(Log), Do(Indent)]);
    ActionsAppend([Do(Dedent), UnfreezeTime], [Unlock]);
    TwoActions(Lock, FreezeTime);
    TwoActions(Do(Log), Do(Indent));
    TwoActions(FreezeTime, Do(Log));
    TwoActions(Do(Dedent), UnfreezeTime);
    OneAction(Unlock);
    OneAction(UnfreezeTime);
    assert [Lock, FreezeTime] + [Do(Log), Do(Indent)] == [Lock, FreezeTime, Do(Log), Do(Indent)];
    assert [Do(Dedent), UnfreezeTime] + [Unlock] == [Do(Dedent), UnfreezeTime, Unlock];
    assert [Lock, FreezeTime, Do(Log), Do(Indent)] + (pre + ([UnfreezeTime, KernelIoctl, FreezeTime, Do(Log)]
                                                             + (post + [Do(Dedent), UnfreezeTime, Unlock])))
           == BeforeRequest(call.pre) + [KernelIoctl] + AfterRequest(call.post);
  }

  lemma ActionsIn(head: seq<Op>, mid: seq<Op>, end: seq<Op>)
    ensures ActionsOf(head + mid + end) == ActionsOf(head) + ActionsOf(mid) + ActionsOf(end)
  {
    ActionsAppend(head + mid, end);
    ActionsAppend(head, mid);
  }

  lemma NoRequestIn(ops: seq<Op>, head: seq<Op>, mid: seq<Op>, end: seq<Op>)
    requires ops == head + mid + end && Requests(mid) == []
    requires forall i :: 0 <= i < |head| ==> !IsRequest(head[i])
    requires forall i :: 0 <= i < |end| ==> !IsRequest(end[i])
    ensures Requests(ops) == []
  {
    NoRequests(head);
    NoRequests(end);
    RequestsAppend(head + mid, end);
    RequestsAppend(head, mid);
  }

  /** The same without an argument, where there is nothing to decode. */
  lemma AroundBareRequest(call: Call)
    requires call.Ioctl? && !call.hasArg
    ensures var before, after := [Lock, FreezeTime, Do(Log), UnfreezeTime],
                                 [FreezeTime, Do(Indent)] + [Do(Log), Do(Dedent)] + [UnfreezeTime, Unlock];
            && Traced(call) == before + [KernelIoctl] + after
            && ActionsOf(before) == [Log] && ActionsOf(after) == [Indent, Log, Dedent]
  {
    ActionsAppend([Lock, FreezeTime], [Do(Log), UnfreezeTime]);
    TwoActions(Lock, FreezeTime);
    TwoActions(Do(Log), UnfreezeTime);
    ActionsIn([FreezeTime, Do(Indent)], [Do(Log), Do(Dedent)], [UnfreezeTime, Unlock]);
    TwoActions(FreezeTime, Do(Indent));
    TwoActions(Do(Log), Do(Dedent));
    TwoActions(UnfreezeTime, Unlock);
    hide ActionsOf;
    assert [Lock, FreezeTime] + [Do(Log), UnfreezeTime] == [Lock, FreezeTime, Do(Log), UnfreezeTime];
  }

  lemma {:induction false} NoRequests(ops: seq<Op>)
    requires forall i :: 0 <= i < |ops| ==> !IsRequest(ops[i])
    ensures Requests(ops) == []
  {
    if ops != [] { NoRequests(ops[1..]); }
  }

  lemma {:induction false} OnlyRequest(ops: seq<Op>, n: nat)
    requires n < |ops| && IsRequest(ops[n]) && forall i :: 0 <= i < |ops| && i != n ==> !IsRequest(ops[i])
    ensures Requests(ops) == [ops[n]]
  {
    if n == 0 { NoRequests(ops[1..]); } else { OnlyRequest(ops[1..], n - 1); }
  }

  /** All the code of a call makes one request, the call's own. */
  lemma OneRequest(call: Call, ops: seq<Op>)
    requires IsWholeCode(call, ops)
    ensures |Requests(ops)| == 1 && IsOwnRequest(call, Requests(ops)[0])
  {
    hide Requests;
    if ops == Untraced(call) {
      OnlyRequest(ops, 0);
    } else if call.Ioctl? {
      TracedIoctlRequest(call);
    } else {
      OnlyRequest(ops, match call case Open(_) => 0 case Close(_) => 3 case _ => 1);
    }
  }

  lemma TracedIoctlRequest(call: Call)
    requires call.Ioctl?
    ensures Requests(Traced(call)) == [KernelIoctl]
  {
    hide Acts, Requests;
    if call.hasArg {
      AroundRequest(call);
      RequestsAppend(BeforeRequest(call.pre) + [KernelIoctl], AfterRequest(call.post));
      RequestsAppend(BeforeRequest(call.pre), [KernelIoctl]);
      OnlyRequest([KernelIoctl], 0);
    } else {
      OnlyRequest(Traced(call), 4);
    }
  }

  /**
   * What the application gets, in any interleaving: a call that returns has made exactly one
   * request to the kernel, and it is the call's own, traced or not. A call that never takes the
   * mutex does nothing else. A traced ioctl does all of its decoding before the request and all of
   * the decoding of the answer after it, in order; one without an argument only logs.
   */
  lemma CallsAreTransparent(run: seq<State>, steps: seq<Step>, b: nat, e: nat, tid: Tid, call: Call)
    requires IsHistory(run, steps) && b < e < |steps| && steps[b] == Begin(tid, call) && steps[e] == Return(tid)
    requires forall q :: b < q < e ==> steps[q] != Return(tid)
    ensures var ops := OpsOf(run, steps, b, e, tid);
            && |Requests(ops)| == 1 && IsOwnRequest(call, Requests(ops)[0])
            && (Lock !in ops ==> |ops| == 1)
            && (Lock in ops && call.Ioctl? ==>
                  exists before, after ::
                    && ops == before + [KernelIoctl] + after
                    && ActionsOf(before) == (if call.hasArg then [Log, Indent] + call.pre else [Log])
                    && ActionsOf(after) == if call.hasArg then [Log] + call.post + [Dedent] else [Indent, Log, Dedent])
  {
    hide Next, Allowed, Traced, Requests, ActionsOf;
    DoneSoFar(run, steps, b, e, tid, call);
    assert Takes(run, steps, e);
    var ops := OpsOf(run, steps, b, e, tid);
    Returning(run[e], tid);
    assert ops + [] == ops;
    OneRequest(call, ops);
    CodeTakesMutex(call);
    if Lock in ops && call.Ioctl? {
      if call.hasArg {
        AroundRequest(call);
        assert ops == BeforeRequest(call.pre) + [KernelIoctl] + AfterRequest(call.post);
      } else {
        AroundBareRequest(call);
      }
    }
  }

  lemma Returning(s: State, tid: Tid)
    requires Allowed(s, Return(tid))
    ensures tid in s.threads && s.threads[tid].Running? && s.threads[tid].code == []
  {
  }

  /**
   * Where the requests are made: an open or a close asks the kernel outside the mutex, so it never
   * keeps others waiting; a traced ioctl, an mmap or a munmap inside, with time not frozen.
   */
  lemma RequestsAndMutex(run: seq<State>, steps: seq<Step>, i: nat, tid: Tid)
    requires IsHistory(run, steps) && i < |run| && AtOp(run[i], tid)
    ensures var s, t := run[i], run[i].threads[tid];
            && (t.code[0].KernelOpen? || t.code[0].KernelClose? ==> s.holder != Some(tid))
            && (t.code[0].KernelMmap? || t.code[0].KernelMunmap? || (t.code[0].KernelIoctl? && TakesMutex(t)) ==>
                  s.holder == Some(tid) && !s.clock.frozen)
  {
    hide Next, Allowed, InvTracker, InvClock, InvCalls, InvLog, Disciplined, Traced, Untraced;
    HistoryIsRun(run, steps);
    RunKeepsInv(run, i);
    CodesFitAlways(run, steps, i);
    NextFits(run[i], tid);
    var t := run[i].threads[tid];
    if t.code[0].KernelIoctl? && TakesMutex(t) {
      IoctlAsksInside(t);
      if t.stage == After {
        assert ThreadOk(run[i], t);
        NoUnlockAfter(t.code, CtxOf(run[i], t));
      }
    }
  }

  /** In a traced ioctl the request comes after the lock and before the unlock. */
  lemma IoctlAsksInside(t: Thread)
    requires CodeFits(t) && t.Running? && t.code != [] && t.code[0].KernelIoctl?
    ensures Lock !in t.code && (TakesMutex(t) ==> Unlock in t.code)
  {
    hide Traced, Acts, IoctlInner, Inner;
    KernelIoctlIsIoctl(t);
    var inner := IoctlInner(t.call);
    IoctlShape(t.call);
    IoctlIsInner(t.call);
    if IsSuffix(t.code, Traced(t.call)) {
      InnerTail(inner, |Traced(t.call)| - |t.code|);
    } else {
      UntracedOps(t.call, t.code);
    }
  }

  lemma KernelIoctlIsIoctl(t: Thread)
    requires CodeFits(t) && t.Running? && t.code != [] && t.code[0].KernelIoctl?
    ensures t.call.Ioctl?
  {
    hide Acts;
    if IsSuffix(t.code, Untraced(t.call)) { UntracedOps(t.call, t.code); }
  }

  lemma InnerTail(inner: seq<Op>, n: nat)
    requires Inner(inner) && n < |inner| + 2 && ([Lock] + inner + [Unlock])[n] != Lock
    ensures var rest := ([Lock] + inner + [Unlock])[n..]; Lock !in rest && Unlock in rest
  {
    assert n > 0;
    var rest := ([Lock] + inner + [Unlock])[n..];
    assert rest[|rest| - 1] == Unlock;
  }

  lemma {:induction false} NoUnlockAfter(code: seq<Op>, c: Ctx)
    requires Disciplined(code, c) && c.stage == After
    ensures Unlock !in code
    decreases |code|
  {
    if code != [] { NoUnlockAfter(code[1..], Then(code[0], c)); }
  }

  /** From `s` to `u` the log grows by `n` lines of the call, at the indent and with the timestamp of `s`. */
  ghost predicate Writes(s: State, u: State, id: CallId, n: nat) {
    s.log <= u.log && |u.log| == |s.log| + n && LinesOf(u.log[|s.log|..], s, id)
  }

  lemma WritesNothing(s: State, id: CallId, log: seq<Line>)
    requires log == s.log
    ensures forall u: State :: u.log == log ==> Writes(s, u, id, 0)
  {
  }

  lemma WritesLines(s: State, id: CallId, n: nat)
    ensures forall u: State :: u.log == LogLines(s, id, n).log ==> Writes(s, u, id, n)
    ensures n == 1 ==> LogLine(s, id).log == LogLines(s, id, n).log
  {
    hide C.Stamp;
  }

  /**
   * What is written to the log: every operation writes exactly the lines its findings call for, at
   * the end of the log, for its own call, at the current indent and with the current timestamp.
   */
  lemma StepsAreLogged(s: State, tid: Tid, k: Kernel)
    requires AtOp(s, tid)
    ensures var u, t := Next(s, Exec(tid, k)), s.threads[tid];
            Writes(s, u, t.id,
                   match t.code[0]
                   case Do(a) => (if a.Log? || a.Track? then 1 else 0)
                   case SetFd(path) => (if t.pending.HasFd? && t.pending.fd != -1 && !path.NoDevice? then 1 else 0)
                   case ClearFd(fd) => (if s.maliFd != 0 && fd == s.maliFd then 1 else 0)
                   case TrackMapping(offset, _, _) =>
                     (if !t.pending.HasMapping? then 0 else if exists a :: a in s.tracker.allocations && a.gpuVa == offset then 1 else 3)
                   case Untrack(addr) => (if exists m :: m in s.tracker.mmaps && m.addr == addr then 1 else 0)
                   case _ => 0)
  {
    hide Effect, Advance, LinesOf;
    var t := s.threads[tid];
    EffectLogs(s, t, tid, k);
    match t.code[0]
    case TrackMapping(offset, _, _) => PendingFoundIff(s.tracker, offset);
    case Untrack(addr) => MappingFoundIff(s.tracker, addr);
    case _ =>
  }

  lemma EffectLogs(s: State, t: Thread, tid: Tid, k: Kernel)
    requires t.Running? && t.code != []
    ensures var u := Effect(s, t, tid, k);
            Writes(s, u, t.id,
                   match t.code[0]
                   case Do(a) => (if a.Log? || a.Track? then 1 else 0)
                   case SetFd(path) => (if t.pending.HasFd? && t.pending.fd != -1 && !path.NoDevice? then 1 else 0)
                   case ClearFd(fd) => (if s.maliFd != 0 && fd == s.maliFd then 1 else 0)
                   case TrackMapping(offset, _, _) =>
                     (if !t.pending.HasMapping? then 0 else if T.FindPending(offset, s.tracker.allocations) < |s.tracker.allocations| then 1 else 3)
                   case Untrack(addr) => (if T.Find(T.ByAddr(addr), s.tracker.mmaps) < |s.tracker.mmaps| then 1 else 0)
                   case _ => 0)
  {
    WritesNothing(s, t.id, s.log);
    WritesLines(s, t.id, 1);
    WritesLines(s, t.id, 3);
    hide T.TrackMmap, T.TrackMunmap, T.TrackAllocation, T.Find, T.FindPending, D.DerefGpu, C.Stamp, C.Freeze, C.Unfreeze,
         Writes, LogLine, LogLines;
  }

  lemma PendingFoundIff(t: T.State, offset: u64)
    ensures T.FindPending(offset, t.allocations) < |t.allocations| <==> exists a :: a in t.allocations && a.gpuVa == offset
  {
    var k := T.FindPending(offset, t.allocations);
    if k < |t.allocations| { assert t.allocations[k] in t.allocations; }
  }

  lemma MappingFoundIff(t: T.State, addr: u64)
    ensures T.Find(T.ByAddr(addr), t.mmaps) < |t.mmaps| <==> exists m :: m in t.mmaps && m.addr == addr
  {
    var k := T.Find(T.ByAddr(addr), t.mmaps);
    if k < |t.mmaps| {
      assert t.mmaps[k] in t.mmaps;
    } else {
      forall m | m in t.mmaps ensures m.addr != addr {
        var i :| 0 <= i < |t.mmaps| && t.mmaps[i] == m;
        assert !T.Matches(T.ByAddr(addr), t.mmaps[i]);
      }
    }
  }
}
