/** What holds in every reachable state of the interception protocol, and what follows from it. */
module InterceptionSafety {
  import opened Wrappers
  import opened Word64
  import opened Script
  import T = TrackerModel
  import C = ClockModel
  import D = Deref
  import IoctlDecode
  import Decoder
  import opened Interception

  /**
   * The calls the protocol admits include every ioctl, with what the decode functions do for it.
   * When they return, the script is exactly theirs. When an access or a fault ends the process
   * inside them, the levels then open are closed behind the end, where no thread ever gets
   * (DecodingComesToItsEnd).
   */
  method DecodedIoctl(fd: int, mmaps: seq<T.Mapping>, memory: Decoder.Memory,
                      preArgs: IoctlDecode.PreArgs, postArgs: IoctlDecode.PostArgs)
    returns (call: Call, script: seq<Action>)
    requires Decoder.Roomy(mmaps)
    ensures call.Ioctl? && call.fd == fd && call.hasArg && WellFormed(call)
    ensures AllSurvive(script, mmaps) ==> call.pre == script
    ensures script <= call.pre && ChecksDecide(script, mmaps)
    ensures AllSurvive(script, mmaps) <==>
              (preArgs.JobSubmit? ==> IoctlDecode.SubmitDecodes(mmaps, memory, preArgs.strideMatches, preArgs.atoms))
    ensures forall m :: AllSurvive(call.post, m)
    ensures Tracked(script) == []
    ensures Tracked(call.post)
            == if postArgs.MemAlloc? then [T.Allocation(postArgs.gpuVa, (postArgs.flags & 0xFFFF_FFFF) as bv32)] else []
  {
    var outcome;
    ghost var ns;
    script, outcome, ns := IoctlDecode.DecodePre(mmaps, memory, preArgs);
    var post := IoctlDecode.DecodePost(postArgs);
    var pre := script;
    if !outcome.Completed? {
      var open := Walk(script, 1);
      ClosingBalances(script, 1, open);
      pre := script + Closing(open - 1);
    }
    call := Ioctl(fd, true, pre, post);
  }

  // The mutex.

  function CtxOf(s: State, t: Thread): Ctx
    requires t.Running?
  {
    if t.stage == Inside then Ctx(Inside, s.clock.frozen, s.indent, KindOf(t.pending))
    else Ctx(t.stage, false, 0, KindOf(t.pending))
  }

  /** A thread's code fits what it has done so far. */
  predicate ThreadOk(s: State, t: Thread) {
    match t
    case Testing(_, call, _) => WellFormed(call)
    case Running(_, _, code, _, _) => Disciplined(code, CtxOf(s, t))
  }

  predicate IsInside(t: Thread) {
    t.Running? && t.stage == Inside
  }

  ghost predicate InvMutex(s: State) {
    && (s.holder == None ==> !s.clock.frozen && s.indent == 0)
    && (s.holder.Some? ==> s.holder.value in s.threads && IsInside(s.threads[s.holder.value]))
    && (forall t :: t in s.threads && IsInside(s.threads[t]) ==> s.holder == Some(t))
    && (forall t :: t in s.threads ==> ThreadOk(s, s.threads[t]))
    && 0 <= s.indent <= MAX_INDENT
  }

  /** A thread's next operation fits its context, and so does the rest of its code after it. */
  lemma NextFits(s: State, tid: Tid)
    requires InvMutex(s) && AtOp(s, tid)
    ensures var t := s.threads[tid];
            Fits(t.code[0], CtxOf(s, t)) && Disciplined(t.code[1..], Then(t.code[0], CtxOf(s, t)))
  {
    assert ThreadOk(s, s.threads[tid]);
  }

  /** What an action of a decode function leaves alone, and what it does to the indent. */
  lemma PerformKeeps(s: State, id: CallId, a: Action)
    ensures var u := Perform(s, id, a);
            && u.clock == s.clock && u.holder == s.holder && u.sections == s.sections
            && (Move(s.indent, a) >= 0 ==> u.indent == Move(s.indent, a))
  {
    hide T.TrackAllocation, D.DerefGpu, C.Stamp;
  }

  /** An operation that fits takes its thread to the context its discipline says. */
  lemma ContextMoves(s: State, t: Thread, tid: Tid, k: Kernel)
    requires t.Running? && t.code != [] && Fits(t.code[0], CtxOf(s, t))
    requires t.code[0].Lock? ==> !s.clock.frozen && s.indent == 0
    ensures CtxOf(Effect(s, t, tid, k), Advance(t, k)) == Then(t.code[0], CtxOf(s, t))
  {
    hide Disciplined, Perform, T.TrackMmap, T.TrackMunmap, T.Find, C.Stamp;
    if t.code[0].Do? { PerformKeeps(s, t.id, t.code[0].a); }
  }

  /** The thread that executes moves to the context its discipline says. */
  lemma ExecCtx(s: State, tid: Tid, k: Kernel)
    requires InvMutex(s) && Allowed(s, Exec(tid, k))
    ensures var t := s.threads[tid];
            && Fits(t.code[0], CtxOf(s, t)) && Disciplined(t.code[1..], Then(t.code[0], CtxOf(s, t)))
            && CtxOf(Next(s, Exec(tid, k)), Advance(t, k)) == Then(t.code[0], CtxOf(s, t))
  {
    hide Disciplined, Effect, Advance, Fits, Then, MapsFresh, UnmapsOnly, ThreadOk;
    NextFits(s, tid);
    ContextMoves(s, s.threads[tid], tid, k);
  }

  /** Outside the mutex a thread changes neither clock, indent, tracker, log nor mali_fd. */
  lemma OutsideTouchesNothing(s: State, tid: Tid, k: Kernel)
    requires InvMutex(s) && Allowed(s, Exec(tid, k)) && s.holder != Some(tid)
    ensures var u := Next(s, Exec(tid, k));
            && u.clock == s.clock && u.indent == s.indent && u.tracker == s.tracker && u.log == s.log
            && u.maliFd == s.maliFd && u.aborted == s.aborted
            && (u.holder == s.holder || (s.holder == None && u.holder == Some(tid) && u.live == s.live))
  {
    ExecCtx(s, tid, k);
  }

  lemma ExecKeepsMutex(s: State, tid: Tid, k: Kernel)
    requires InvMutex(s) && Allowed(s, Exec(tid, k))
    ensures InvMutex(Next(s, Exec(tid, k)))
  {
    var u := Next(s, Exec(tid, k));
    ExecCtx(s, tid, k);
    if s.holder != Some(tid) { OutsideTouchesNothing(s, tid, k); }
    forall t | t in u.threads ensures ThreadOk(u, u.threads[t]) && (IsInside(u.threads[t]) ==> u.holder == Some(t)) {
      if t != tid {
        assert ThreadOk(s, s.threads[t]);
      }
    }
  }

  lemma StepKeepsMutex(s: State, step: Step)
    requires InvMutex(s) && Allowed(s, step)
    ensures InvMutex(Next(s, step))
  {
    match step
    case Exec(tid, k) => ExecKeepsMutex(s, tid, k);
    case TestFd(tid) =>
      CodeDisciplined(s.threads[tid].call);
    case Return(tid) => assert ThreadOk(s, s.threads[tid]);
    case _ =>
  }

  // The tracker and the kernel's mappings.

  /** What the thread inside the mutex still has to process. */
  function HolderPending(s: State): Pending {
    if s.holder.Some? && s.holder.value in s.threads && s.threads[s.holder.value].Running?
    then s.threads[s.holder.value].pending else Nothing
  }

  ghost predicate LiveApart(live: map<u64, u64>) {
    && (forall a :: a in live ==> live[a] > 0 && a + live[a] < TWO64)
    && (forall a, b :: a in live && b in live && a != b ==> RangesApart(a, live[a], b, live[b]))
  }

  /** No two tracked mappings start at the same CPU address. */
  ghost predicate StartsDiffer(mmaps: seq<T.Mapping>) {
    forall i, j :: 0 <= i < j < |mmaps| ==> mmaps[i].addr != mmaps[j].addr
  }

  /** The tracked mapping is a live mapping of the kernel. */
  predicate IsLive(live: map<u64, u64>, m: T.Mapping) {
    m.addr in live && live[m.addr] == m.length
  }

  /** Every tracked mapping is live, except the one the pending result says was just unmapped. */
  ghost predicate TrackedLive(live: map<u64, u64>, mmaps: seq<T.Mapping>, p: Pending) {
    forall i :: 0 <= i < |mmaps| ==> p == Unmapped(mmaps[i].addr) || IsLive(live, mmaps[i])
  }

  /** A mapping just made is live and not tracked yet. */
  ghost predicate PendingLive(live: map<u64, u64>, mmaps: seq<T.Mapping>, p: Pending) {
    p.HasMapping? ==>
      && p.addr in live && live[p.addr] == p.length
      && forall i :: 0 <= i < |mmaps| ==> mmaps[i].addr != p.addr
  }

  ghost predicate InvTracker(s: State) {
    var mmaps, p := s.tracker.mmaps, HolderPending(s);
    && LiveApart(s.live) && StartsDiffer(mmaps) && T.SameVaAgree(s.tracker)
    && TrackedLive(s.live, mmaps, p) && PendingLive(s.live, mmaps, p)
  }

  lemma MapKeepsLive(live: map<u64, u64>, mmaps: seq<T.Mapping>, p: Pending, addr: u64, length: u64)
    requires LiveApart(live) && TrackedLive(live, mmaps, p) && PendingLive(live, mmaps, p) && MapsFresh(live, addr, length)
    ensures addr !in live
    ensures var after := live[addr := length];
            LiveApart(after) && TrackedLive(after, mmaps, p) && PendingLive(after, mmaps, p)
  {
  }

  /** The traced mmap: the new range is apart from every tracked one. */
  lemma MapIsUntracked(live: map<u64, u64>, mmaps: seq<T.Mapping>, addr: u64, length: u64)
    requires LiveApart(live) && TrackedLive(live, mmaps, Nothing) && MapsFresh(live, addr, length)
    ensures var after := live[addr := length];
            LiveApart(after) && TrackedLive(after, mmaps, HasMapping(addr, length))
            && PendingLive(after, mmaps, HasMapping(addr, length))
  {
    forall i | 0 <= i < |mmaps| ensures mmaps[i].addr != addr && IsLive(live, mmaps[i]) {}
  }

  lemma UnmapKeepsLive(live: map<u64, u64>, mmaps: seq<T.Mapping>, addr: u64, gone: set<u64>)
    requires LiveApart(live) && TrackedLive(live, mmaps, Nothing) && UnmapsOnly(live, mmaps, addr, gone)
    ensures LiveApart(live - gone) && TrackedLive(live - gone, mmaps, Unmapped(addr))
    ensures PendingLive(live - gone, mmaps, Unmapped(addr))
  {
    forall i | 0 <= i < |mmaps| ensures Unmapped(addr) == Unmapped(mmaps[i].addr) || IsLive(live - gone, mmaps[i]) {
      assert IsLive(live, mmaps[i]);
    }
  }

  lemma TrackKeepsLive(live: map<u64, u64>, t: T.State, offset: u64, addr: u64, length: u64, prot: bv32)
    requires StartsDiffer(t.mmaps) && T.SameVaAgree(t)
    requires TrackedLive(live, t.mmaps, HasMapping(addr, length)) && PendingLive(live, t.mmaps, HasMapping(addr, length))
    ensures var u := T.TrackMmap(t, offset, addr, length, prot);
            StartsDiffer(u.mmaps) && T.SameVaAgree(u) && TrackedLive(live, u.mmaps, Nothing)
  {
    var u := T.TrackMmap(t, offset, addr, length, prot);
    T.ApplyKeepsSameVa(t, T.Mapped(offset, addr, length, prot));
    if u != t {
      assert forall i :: 1 <= i < |u.mmaps| ==> u.mmaps[i] == t.mmaps[i - 1];
      assert IsLive(live, u.mmaps[0]);
    }
    forall i | 0 <= i < |u.mmaps| ensures IsLive(live, u.mmaps[i]) {
      if u == t { assert IsLive(live, t.mmaps[i]); }
      else if i > 0 { assert IsLive(live, t.mmaps[i - 1]); }
    }
  }

  lemma UntrackKeepsLive(live: map<u64, u64>, t: T.State, addr: u64)
    requires StartsDiffer(t.mmaps) && T.SameVaAgree(t) && TrackedLive(live, t.mmaps, Unmapped(addr))
    ensures var u := T.TrackMunmap(t, addr);
            StartsDiffer(u.mmaps) && T.SameVaAgree(u) && TrackedLive(live, u.mmaps, Nothing)
  {
    var u := T.TrackMunmap(t, addr);
    var k := T.Find(T.ByAddr(addr), t.mmaps);
    T.ApplyKeepsSameVa(t, T.Event.Unmapped(addr));
    forall i | 0 <= i < |t.mmaps| && i != k ensures IsLive(live, t.mmaps[i]) && t.mmaps[i].addr != addr {
      if k < |t.mmaps| {
        assert T.Matches(T.ByAddr(addr), t.mmaps[k]);
        assert t.mmaps[if i < k then i else k].addr != t.mmaps[if i < k then k else i].addr;
      } else {
        assert !T.Matches(T.ByAddr(addr), t.mmaps[i]);
      }
    }
  }

  lemma PendingIrrelevant(live: map<u64, u64>, mmaps: seq<T.Mapping>, p: Pending, q: Pending)
    requires TrackedLive(live, mmaps, p) && (p.Nothing? || p.HasFd?) && (q.Nothing? || q.HasFd?)
    ensures TrackedLive(live, mmaps, q) && PendingLive(live, mmaps, q)
  {
  }

  lemma OutsideKeepsTracker(s: State, tid: Tid, k: Kernel)
    requires InvMutex(s) && InvTracker(s) && Allowed(s, Exec(tid, k)) && s.holder != Some(tid)
    ensures InvTracker(Next(s, Exec(tid, k)))
  {
    hide LiveApart, StartsDiffer, T.SameVaAgree, TrackedLive, PendingLive, MapsFresh, UnmapsOnly, Disciplined;
    var t, u := s.threads[tid], Next(s, Exec(tid, k));
    ExecCtx(s, tid, k);
    OutsideTouchesNothing(s, tid, k);
    if t.code[0].KernelMmapUntraced? {
      MapKeepsLive(s.live, s.tracker.mmaps, HolderPending(s), k.addr, t.code[0].length);
    } else if t.code[0].Lock? {
      PendingIrrelevant(s.live, s.tracker.mmaps, HolderPending(s), HolderPending(u));
    }
  }

  lemma InsideKeepsTracker(s: State, tid: Tid, k: Kernel)
    requires InvMutex(s) && InvTracker(s) && Allowed(s, Exec(tid, k)) && s.holder == Some(tid)
    ensures InvTracker(Next(s, Exec(tid, k)))
  {
    hide LiveApart, StartsDiffer, T.SameVaAgree, TrackedLive, PendingLive, MapsFresh, UnmapsOnly, Disciplined;
    var t, u := s.threads[tid], Next(s, Exec(tid, k));
    ExecCtx(s, tid, k);
    assert HolderPending(s) == t.pending;
    match t.code[0]
    case KernelMmap(length) => MapIsUntracked(s.live, s.tracker.mmaps, k.addr, length);
    case KernelMunmap(addr) =>
      UnmapKeepsLive(s.live, s.tracker.mmaps, addr, k.gone);
    case TrackMapping(offset, length, prot) =>
      TrackKeepsLive(s.live, s.tracker, offset, t.pending.addr, length, prot);
      PendingIrrelevant(s.live, u.tracker.mmaps, Nothing, Nothing);
    case Untrack(addr) =>
      UntrackKeepsLive(s.live, s.tracker, addr);
      PendingIrrelevant(s.live, u.tracker.mmaps, Nothing, Nothing);
    case Unlock => PendingIrrelevant(s.live, s.tracker.mmaps, Nothing, Nothing);
    case SetFd(_) => PendingIrrelevant(s.live, s.tracker.mmaps, t.pending, Nothing);
    case Do(a) => DoKeepsMappings(s, t.id, a);
    case _ =>
  }

  lemma DoKeepsMappings(s: State, id: CallId, a: Action)
    ensures var u := Perform(s, id, a);
            && u.live == s.live && u.tracker.mmaps == s.tracker.mmaps
            && (T.SameVaAgree(s.tracker) ==> T.SameVaAgree(u.tracker))
  {
  }

  lemma StepKeepsTracker(s: State, step: Step)
    requires InvMutex(s) && InvTracker(s) && Allowed(s, step)
    ensures InvTracker(Next(s, step))
  {
    match step
    case Exec(tid, k) =>
      if s.holder == Some(tid) { InsideKeepsTracker(s, tid, k); } else { OutsideKeepsTracker(s, tid, k); }
    case _ =>
  }

  // The clock.

  /** The timestamp a line would get now. */
  function Reading(s: State): int {
    C.Stamp(s.clock, s.now)
  }

  ghost predicate InvClock(s: State) {
    var c := s.clock;
    && c.start <= s.now && 0 <= c.total
    && if c.frozen
       then && c.start + c.total <= c.startFreeze <= s.now
            && c.stamp == c.startFreeze - c.start - c.total
            && s.spent == c.total + (s.now - c.startFreeze)
       else c.start + c.total <= s.now && s.spent == c.total
  }

  /** A thread's operation leaves the clock alone, or freezes it when it runs, or unfreezes it when it is frozen. */
  lemma ExecClock(s: State, tid: Tid, k: Kernel)
    requires InvMutex(s) && Allowed(s, Exec(tid, k))
    ensures var u := Next(s, Exec(tid, k));
            && u.now == s.now && u.spent == s.spent
            && (u.clock == s.clock
                || (!s.clock.frozen && u.clock == C.Freeze(s.clock, s.now))
                || (s.clock.frozen && u.clock == C.Unfreeze(s.clock, s.now)))
  {
    hide Disciplined, MapsFresh, UnmapsOnly;
    ExecCtx(s, tid, k);
    if s.holder != Some(tid) { OutsideTouchesNothing(s, tid, k); }
  }

  lemma StepKeepsClock(s: State, step: Step)
    requires InvMutex(s) && InvClock(s) && Allowed(s, step)
    ensures InvClock(Next(s, step))
    ensures Reading(s) <= Reading(Next(s, step))
  {
    if step.Exec? {
      ExecClock(s, step.tid, step.k);
      hide Next;
    } else {
      hide Disciplined, InvMutex;
    }
  }

  // The log.

  /** The call a thread runs has not been in its critical section yet. */
  predicate IsBefore(t: Thread) {
    t.Testing? || t.stage == Before
  }

  /** Calls have their own numbers, enter at most one critical section each, and in it are the last to have entered one. */
  ghost predicate CallsOk(threads: map<Tid, Thread>, sections: seq<CallId>, calls: nat) {
    && (forall i, j :: 0 <= i < j < |sections| ==> sections[i] != sections[j])
    && (forall i :: 0 <= i < |sections| ==> sections[i] < calls)
    && (forall t :: t in threads ==> threads[t].id < calls)
    && (forall t, u :: t in threads && u in threads && t != u ==> threads[t].id != threads[u].id)
    && (forall t :: t in threads && IsBefore(threads[t]) ==> threads[t].id !in sections)
    && (forall t :: t in threads && IsInside(threads[t]) ==>
          sections != [] && sections[|sections| - 1] == threads[t].id)
  }

  ghost predicate InvCalls(s: State) {
    CallsOk(s.threads, s.sections, s.calls)
  }

  /** A thread goes on with its call, not entering or re-entering the mutex. */
  lemma GoingOn(threads: map<Tid, Thread>, sections: seq<CallId>, calls: nat, tid: Tid, t: Thread)
    requires CallsOk(threads, sections, calls) && tid in threads && t.id == threads[tid].id
    requires IsBefore(t) ==> IsBefore(threads[tid])
    requires IsInside(t) ==> IsInside(threads[tid])
    ensures CallsOk(threads[tid := t], sections, calls)
  {
  }

  /** A thread takes the free mutex. */
  lemma Entering(threads: map<Tid, Thread>, sections: seq<CallId>, calls: nat, tid: Tid, t: Thread)
    requires CallsOk(threads, sections, calls) && tid in threads && t.id == threads[tid].id
    requires IsBefore(threads[tid]) && IsInside(t) && forall u :: u in threads ==> !IsInside(threads[u])
    ensures CallsOk(threads[tid := t], sections + [t.id], calls)
  {
    assert forall c :: c in sections + [t.id] <==> c in sections || c == t.id;
  }

  lemma ExecKeepsCalls(s: State, tid: Tid, k: Kernel)
    requires InvMutex(s) && InvCalls(s) && Allowed(s, Exec(tid, k))
    ensures InvCalls(Next(s, Exec(tid, k)))
  {
    hide Next, Advance, CallsOk, Disciplined, MapsFresh, UnmapsOnly, ThreadOk;
    var t := s.threads[tid];
    ExecStages(s, tid, k);
    if t.code[0].Lock? {
      Entering(s.threads, s.sections, s.calls, tid, Advance(t, k));
    } else {
      GoingOn(s.threads, s.sections, s.calls, tid, Advance(t, k));
    }
  }

  lemma StepKeepsCalls(s: State, step: Step)
    requires InvMutex(s) && InvCalls(s) && Allowed(s, step)
    ensures InvCalls(Next(s, step))
  {
    match step
    case Exec(tid, k) => ExecKeepsCalls(s, tid, k);
    case TestFd(tid) =>
      hide CallsOk, Disciplined, ThreadOk, Untraced, Traced, Test;
      GoingOn(s.threads, s.sections, s.calls, tid, Next(s, step).threads[tid]);
    case Begin(tid, call) =>
      hide InvMutex;
      assert s.calls !in s.sections;
    case _ => hide InvMutex;
  }

  /** Only taking the mutex adds a section, and only that and giving it back change a stage. */
  lemma ExecStages(s: State, tid: Tid, k: Kernel)
    requires InvMutex(s) && Allowed(s, Exec(tid, k))
    ensures var t, u := s.threads[tid], Next(s, Exec(tid, k));
            && u.threads == s.threads[tid := Advance(t, k)] && u.calls == s.calls
            && Advance(t, k).id == t.id && Advance(t, k).Running?
            && (t.code[0].Lock? ==> t.stage == Before && Advance(t, k).stage == Inside
                                    && u.sections == s.sections + [t.id] && s.holder == None)
            && (t.code[0].Unlock? ==> t.stage == Inside && Advance(t, k).stage == After && u.sections == s.sections)
            && (!t.code[0].Lock? && !t.code[0].Unlock? ==> Advance(t, k).stage == t.stage && u.sections == s.sections)
  {
    ExecCtx(s, tid, k);
  }

  /** A line belongs to a critical section of its call, at a sane indent, and is not from the future. */
  predicate LineOk(s: State, l: Line) {
    && 1 <= l.section <= |s.sections| && l.call == s.sections[l.section - 1]
    && 0 <= l.indent <= MAX_INDENT && 0 <= l.stamp <= Reading(s)
  }

  ghost predicate InvLog(s: State) {
    && (forall i :: 0 <= i < |s.log| ==> LineOk(s, s.log[i]))
    && (forall i, j :: 0 <= i < j < |s.log| ==> s.log[i].section <= s.log[j].section && s.log[i].stamp <= s.log[j].stamp)
  }

  /** The lines are new ones of the call, at the indent and the time of the state. */
  ghost predicate LinesOf(lines: seq<Line>, s: State, id: CallId) {
    forall i :: 0 <= i < |lines| ==> lines[i] == Line(id, |s.sections|, s.indent, Reading(s))
  }

  /** What a step adds to the log: nothing, or lines by the thread inside the mutex. */
  lemma StepLogs(s: State, step: Step)
    requires InvMutex(s) && Allowed(s, step)
    ensures var u := Next(s, step);
            u.log == s.log
            || (&& step.Exec? && s.holder == Some(step.tid) && u.sections == s.sections && Reading(u) == Reading(s)
                && s.log <= u.log && LinesOf(u.log[|s.log|..], s, s.threads[step.tid].id))
  {
    if step.Exec? {
      hide Disciplined, MapsFresh, UnmapsOnly, T.TrackMmap, T.TrackMunmap, T.TrackAllocation, T.Find, T.FindPending, D.DerefGpu;
      NextFits(s, step.tid);
      if s.holder != Some(step.tid) { OutsideTouchesNothing(s, step.tid, step.k); }
    }
  }

  lemma StepKeepsLog(s: State, step: Step)
    requires InvMutex(s) && InvClock(s) && InvCalls(s) && InvLog(s) && Allowed(s, step)
    ensures InvLog(Next(s, step))
  {
    hide InvMutex;
    var u := Next(s, step);
    StepLogs(s, step);
    StepKeepsClock(s, step);
    assert s.sections <= u.sections by { SectionsGrow(s, step); }
    forall i | 0 <= i < |u.log| ensures LineOk(u, u.log[i]) {
      if i < |s.log| {
        assert LineOk(s, s.log[i]);
      } else {
        assert u.log[i] == u.log[|s.log|..][i - |s.log|];
        HolderLineOk(s, step.tid);
      }
    }
  }

  lemma SectionsGrow(s: State, step: Step)
    ensures s.sections <= Next(s, step).sections
  {
    hide Perform, T.TrackMmap, T.TrackMunmap, T.Find, C.Freeze, C.Unfreeze, C.Stamp, Test, Traced, Untraced;
    if step.Exec? && AtOp(s, step.tid) {
      var t := s.threads[step.tid];
      if t.code[0].Do? { PerformKeeps(s, t.id, t.code[0].a); }
    }
  }

  lemma HolderLineOk(s: State, tid: Tid)
    requires InvMutex(s) && InvClock(s) && InvCalls(s) && s.holder == Some(tid)
    ensures LineOk(s, Line(s.threads[tid].id, |s.sections|, s.indent, Reading(s)))
  {
    assert IsInside(s.threads[tid]);
  }

  // Runs.

  ghost predicate Inv(s: State) {
    InvMutex(s) && InvTracker(s) && InvClock(s) && InvCalls(s) && InvLog(s)
  }

  lemma InitialInv(now: int)
    ensures Inv(Initial(now))
  {
  }

  lemma StepKeepsInv(s: State, step: Step)
    requires Inv(s) && Allowed(s, step)
    ensures Inv(Next(s, step))
  {
    hide Next, Allowed, InvMutex, InvTracker, InvClock, InvCalls, InvLog;
    StepKeepsMutex(s, step);
    StepKeepsTracker(s, step);
    StepKeepsClock(s, step);
    StepKeepsCalls(s, step);
    StepKeepsLog(s, step);
  }

  /** The invariant holds in every state of every run, whatever the interleaving. */
  lemma {:induction false} RunKeepsInv(run: seq<State>, n: nat)
    requires IsRun(run) && n < |run|
    ensures Inv(run[n])
    decreases n
  {
    hide Inv, Allowed, Next, Initial;
    if n == 0 {
      var now :| run[0] == Initial(now);
      InitialInv(now);
    } else {
      RunKeepsInv(run, n - 1);
      assert StepAt(run, n - 1);
      var step :| Allowed(run[n - 1], step) && run[n] == Next(run[n - 1], step);
      StepKeepsInv(run[n - 1], step);
    }
  }

  lemma ReachableInv(s: State)
    requires Reachable(s)
    ensures Inv(s)
  {
    hide Inv;
    var run :| IsRun(run) && run[|run| - 1] == s;
    RunKeepsInv(run, |run| - 1);
  }

  /**
   * Whenever the mutex is free, every tracked mapping is a live kernel mapping, the CPU ranges of
   * tracked mappings are pairwise apart, no two start at the same address, and no SAME_VA mapping
   * has different addresses on the two sides.
   */
  lemma TrackedMappingsAreLive(s: State)
    requires Reachable(s) && s.holder == None
    ensures forall m :: m in s.tracker.mmaps ==> m.addr in s.live && s.live[m.addr] == m.length
    ensures forall i, j :: 0 <= i < j < |s.tracker.mmaps| ==>
              var m, n := s.tracker.mmaps[i], s.tracker.mmaps[j];
              m.addr != n.addr && RangesApart(m.addr, m.length, n.addr, n.length)
    ensures T.SameVaAgree(s.tracker)
  {
    ReachableInv(s);
    var mmaps := s.tracker.mmaps;
    hide InvMutex, InvClock, InvCalls, InvLog;
    forall i | 0 <= i < |mmaps| ensures IsLive(s.live, mmaps[i]) {}
    forall i, j | 0 <= i < j < |mmaps|
      ensures mmaps[i].addr != mmaps[j].addr
              && RangesApart(mmaps[i].addr, mmaps[i].length, mmaps[j].addr, mmaps[j].length) {
      assert IsLive(s.live, mmaps[i]) && IsLive(s.live, mmaps[j]);
    }
  }

  /**
   * Every change to the tracker, the freeze state, the indent, the log or mali_fd is made by the
   * thread that holds the mutex, and the mutex is only given up by its holder.
   */
  lemma OnlyHolderWrites(s: State, step: Step)
    requires Reachable(s) && Allowed(s, step)
    ensures var u := Next(s, step);
            (u.tracker != s.tracker || u.clock != s.clock || u.indent != s.indent || u.log != s.log
             || u.maliFd != s.maliFd || (s.holder.Some? && u.holder != s.holder))
            ==> step.Exec? && s.holder == Some(step.tid)
  {
    ReachableInv(s);
    hide InvTracker, InvClock, InvCalls, InvLog;
    if step.Exec? && s.holder != Some(step.tid) { OutsideTouchesNothing(s, step.tid, step.k); }
  }

  /** Whenever the mutex is free, time runs and the indent is 0; the indent always fits a short. */
  lemma FreeMutexIsClean(s: State)
    requires Reachable(s)
    ensures s.holder == None ==> !s.clock.frozen && s.indent == 0
    ensures 0 <= s.indent <= MAX_INDENT
  {
    ReachableInv(s);
  }

  /** Lines in section order, each by the call that had the section, where no call had two. */
  lemma SectionsKeepLinesTogether(log: seq<Line>, sections: seq<CallId>, i: nat, j: nat, k: nat)
    requires forall q :: 0 <= q < |log| ==> 1 <= log[q].section <= |sections| && log[q].call == sections[log[q].section - 1]
    requires forall q, r :: 0 <= q < r < |log| ==> log[q].section <= log[r].section
    requires forall q, r :: 0 <= q < r < |sections| ==> sections[q] != sections[r]
    requires i < j < k < |log| && log[i].call == log[k].call
    ensures log[j].call == log[i].call
  {
    var a, b := log[i].section - 1, log[k].section - 1;
    assert a <= b;
    assert sections[a] == sections[b];
  }

  /** The log lines of one intercepted call are consecutive: no other call's line comes between two of them. */
  lemma LinesNeverInterleave(s: State, i: nat, j: nat, k: nat)
    requires Reachable(s) && i < j < k < |s.log| && s.log[i].call == s.log[k].call
    ensures s.log[j].call == s.log[i].call
  {
    ReachableInv(s);
    hide InvMutex, InvTracker, InvClock, Reachable;
    forall q | 0 <= q < |s.log|
      ensures 1 <= s.log[q].section <= |s.sections| && s.log[q].call == s.sections[s.log[q].section - 1] {
      assert LineOk(s, s.log[q]);
    }
    SectionsKeepLinesTogether(s.log, s.sections, i, j, k);
  }

  /** No freeze is ever entered while time is frozen, no unfreeze while it runs, and the driver's time always counts. */
  lemma FreezesNeverNest(s: State, tid: Tid)
    requires Reachable(s) && AtOp(s, tid)
    ensures s.threads[tid].code[0].FreezeTime? ==> !s.clock.frozen
    ensures s.threads[tid].code[0].UnfreezeTime? ==> s.clock.frozen
    ensures s.threads[tid].code[0].KernelIoctl? && s.holder == Some(tid) ==> !s.clock.frozen
  {
    ReachableInv(s);
    hide InvTracker, InvClock, InvCalls, InvLog;
    assert ThreadOk(s, s.threads[tid]);
  }

  /**
   * At any moment of any run the timestamp is the time since the start less the exact length of
   * all the time spent frozen, and the timestamps in the log never decrease.
   */
  lemma TimestampsAreExact(s: State)
    requires Reachable(s)
    ensures Reading(s) == s.now - s.clock.start - s.spent
    ensures forall i, j :: 0 <= i < j < |s.log| ==> 0 <= s.log[i].stamp <= s.log[j].stamp <= Reading(s)
  {
    ReachableInv(s);
    hide InvMutex, InvTracker, InvCalls;
    forall i, j | 0 <= i < j < |s.log| ensures 0 <= s.log[i].stamp <= s.log[j].stamp <= Reading(s) {
      assert LineOk(s, s.log[i]) && LineOk(s, s.log[j]);
    }
  }

  /** The step is one of the thread's own, within its call. */
  predicate IsStepOf(step: Step, tid: Tid) {
    match step
    case TestFd(t) => t == tid
    case Exec(t, _) => t == tid
    case Return(t) => t == tid
    case _ => false
  }

  ghost predicate CanGoOn(s: State, tid: Tid) {
    exists step :: IsStepOf(step, tid) && Allowed(s, step)
  }

  /** The thread is about to map memory, and the address space has no room for it left. */
  ghost predicate OutOfRoom(s: State, tid: Tid) {
    && AtOp(s, tid)
    && var op := s.threads[tid].code[0];
       && (op.KernelMmap? || op.KernelMmapUntraced?)
       && forall addr: u64 :: !MapsFresh(s.live, addr, op.length)
  }

  /** A thread that does not have to wait for the mutex has a step, unless it asks for memory that is not there. */
  lemma GoesOnUnlessWaiting(s: State, tid: Tid)
    requires !s.aborted && tid in s.threads
    requires AtOp(s, tid) && s.threads[tid].code[0].Lock? ==> s.holder == None
    ensures CanGoOn(s, tid) || OutOfRoom(s, tid)
  {
    var t := s.threads[tid];
    if t.Testing? {
      assert IsStepOf(TestFd(tid), tid) && Allowed(s, TestFd(tid));
    } else if t.code == [] {
      assert IsStepOf(Return(tid), tid) && Allowed(s, Return(tid));
    } else {
      var op, addr: u64 := t.code[0], 0;
      if op.KernelMmap? || op.KernelMmapUntraced? {
        if forall a: u64 :: !MapsFresh(s.live, a, op.length) { return; }
        addr :| MapsFresh(s.live, addr, op.length);
      }
      var step := Exec(tid, Kernel(0, addr, {}));
      assert IsStepOf(step, tid) && Allowed(s, step);
    }
  }

  /**
   * The protocol never deadlocks: as long as the process lives and any call is under way, some
   * thread has a step of its own, or asks the kernel for memory that is not there.
   */
  lemma SomeThreadGoesOn(s: State)
    requires Reachable(s) && !s.aborted && s.threads != map[]
    ensures exists tid :: tid in s.threads && (CanGoOn(s, tid) || OutOfRoom(s, tid))
  {
    ReachableInv(s);
    hide InvTracker, InvClock, InvCalls, InvLog, CanGoOn, OutOfRoom;
    var tid :| tid in s.threads;
    if s.holder.Some? {
      tid := s.holder.value;
      assert ThreadOk(s, s.threads[tid]);
    }
    GoesOnUnlessWaiting(s, tid);
  }

  /** A thread about to act in a decode function sees only live mappings, and SAME_VA ones at their own addresses. */
  lemma LiveWhileDecoding(s: State, tid: Tid)
    requires Reachable(s) && AtOp(s, tid) && s.threads[tid].code[0].Do?
    ensures s.holder == Some(tid)
    ensures forall m :: m in s.tracker.mmaps ==> IsLive(s.live, m) && (T.IsSameVa(m.flags) ==> m.gpuVa == m.addr)
  {
    ReachableInv(s);
    hide InvClock, InvCalls, InvLog, Reachable, Disciplined;
    NextFits(s, tid);
    var mmaps := s.tracker.mmaps;
    assert HolderPending(s) == Nothing;
    forall i | 0 <= i < |mmaps| ensures IsLive(s.live, mmaps[i]) {}
  }

  /**
   * A dereference that a decode function gets through, in any interleaving, is backed by a tracked
   * mapping that is live in the kernel: an explicit one as the decode functions pass it holds all
   * the bytes; the one looked up does exactly when the size does not wrap. On a SAME_VA mapping
   * the pointer is the GPU address, and the same condition says when all bytes are live memory.
   */
  lemma DerefsAreBacked(s: State, tid: Tid, mem: Option<T.Mapping>, va: u64, size: u64)
    requires Reachable(s) && AtOp(s, tid) && s.threads[tid].code[0] == Do(Access(mem, va, size))
    requires CheckDecides(Access(mem, va, size), s.tracker.mmaps)
    requires D.DerefGpu(s.tracker.mmaps, mem, va, size).Some?
    ensures var o := D.Owner(s.tracker.mmaps, mem, va);
            && o.Some? && o.value in s.tracker.mmaps && IsLive(s.live, o.value)
            && (mem.Some? ==> D.Contained(o.value, va, size))
            && (mem.None? ==> (D.Contained(o.value, va, size) <==> (va - o.value.gpuVa) + size < TWO64))
            && (T.IsSameVa(o.value.flags) ==>
                  && D.DerefGpu(s.tracker.mmaps, mem, va, size) == Some(va)
                  && o.value.addr <= va
                  && (va + size <= o.value.addr + s.live[o.value.addr] <==> D.Contained(o.value, va, size)))
  {
    LiveWhileDecoding(s, tid);
    hide Reachable;
    var mmaps := s.tracker.mmaps;
    if mem.None? { D.NullDerefContained(mmaps, va, size); }
    assert D.Owner(mmaps, mem, va).value in mmaps;
  }

  // What becomes of a decode function.

  /** The thread is inside the mutex with the actions of `script` from position `n` on still to do. */
  ghost predicate Decoding(s: State, tid: Tid, script: seq<Action>, rest: seq<Op>, mmaps: seq<T.Mapping>, n: nat) {
    && n <= |script| && !s.aborted && s.holder == Some(tid) && s.tracker.mmaps == mmaps
    && tid in s.threads && IsInside(s.threads[tid]) && s.threads[tid].code == Acts(script[n..]) + rest
  }

  lemma ActsHead(script: seq<Action>, n: nat, rest: seq<Op>)
    requires n < |script|
    ensures var code := Acts(script[n..]) + rest;
            code != [] && code[0] == Do(script[n]) && code[1..] == Acts(script[n + 1..]) + rest
  {
    assert script[n..][1..] == script[n + 1..];
    assert Acts(script[n..]) == [Do(script[n])] + Acts(script[n + 1..]);
  }

  /** One step of anyone: the thread stays where it is, or gets past an action that survives, or the process ends. */
  lemma DecodingSteps(s: State, step: Step, tid: Tid, script: seq<Action>, rest: seq<Op>, mmaps: seq<T.Mapping>, n: nat)
    requires InvMutex(s) && Allowed(s, step) && Decoding(s, tid, script, rest, mmaps, n) && n < |script|
    ensures var u := Next(s, step);
            || Decoding(u, tid, script, rest, mmaps, n)
            || (Survives(script[n], mmaps) && Decoding(u, tid, script, rest, mmaps, n + 1))
            || (!Survives(script[n], mmaps) && u.aborted)
  {
    hide Disciplined, MapsFresh, UnmapsOnly;
    ActsHead(script, n, rest);
    match step
    case Exec(t, k) =>
      if t != tid { OutsideTouchesNothing(s, t, k); }
    case _ =>
  }

  /** By the state `run[j]` the thread has done the whole script. */
  ghost predicate DoneBy(run: seq<State>, i: nat, j: nat, tid: Tid, script: seq<Action>, rest: seq<Op>, mmaps: seq<T.Mapping>)
    requires j < |run|
  {
    exists m :: i <= m <= j && Decoding(run[m], tid, script, rest, mmaps, |script|)
  }

  /** In the state `run[j]` the thread is in the middle of the script, and everything it did survived. */
  ghost predicate UnderWay(s: State, tid: Tid, script: seq<Action>, rest: seq<Op>, mmaps: seq<T.Mapping>) {
    exists n :: 0 <= n < |script| && Decoding(s, tid, script, rest, mmaps, n) && AllSurvive(script[..n], mmaps)
  }

  /** The whole script is done: then it survived. */
  lemma WholeScript(run: seq<State>, i: nat, j: nat, tid: Tid, script: seq<Action>, rest: seq<Op>, mmaps: seq<T.Mapping>, n: nat)
    requires i <= j < |run| && n <= |script| && AllSurvive(script[..n], mmaps)
    requires Decoding(run[j], tid, script, rest, mmaps, n)
    ensures n == |script| ==> DoneBy(run, i, j, tid, script, rest, mmaps) && AllSurvive(script, mmaps)
    ensures n < |script| ==> UnderWay(run[j], tid, script, rest, mmaps)
  {
    hide Decoding;
    assert script[..|script|] == script;
  }

  lemma UnderWaySteps(run: seq<State>, i: nat, j: nat, tid: Tid, script: seq<Action>, rest: seq<Op>, mmaps: seq<T.Mapping>)
    requires IsRun(run) && i < j < |run| && UnderWay(run[j - 1], tid, script, rest, mmaps)
    ensures (DoneBy(run, i, j, tid, script, rest, mmaps) && AllSurvive(script, mmaps))
            || UnderWay(run[j], tid, script, rest, mmaps)
            || (run[j].aborted && !AllSurvive(script, mmaps))
  {
    hide InvMutex, InvTracker, InvClock, InvCalls, InvLog, Decoding, DoneBy, Allowed, Next, AllSurvive;
    RunKeepsInv(run, j - 1);
    var n :| 0 <= n < |script| && Decoding(run[j - 1], tid, script, rest, mmaps, n) && AllSurvive(script[..n], mmaps);
    assert StepAt(run, j - 1);
    var step :| Allowed(run[j - 1], step) && run[j] == Next(run[j - 1], step);
    DecodingSteps(run[j - 1], step, tid, script, rest, mmaps, n);
    if Decoding(run[j], tid, script, rest, mmaps, n) {
      WholeScript(run, i, j, tid, script, rest, mmaps, n);
    } else if Survives(script[n], mmaps) {
      SurvivalGrows(script[..n], script[n], mmaps);
      assert script[..n + 1] == script[..n] + [script[n]];
      WholeScript(run, i, j, tid, script, rest, mmaps, n + 1);
    } else {
      OneDies(script, n, mmaps);
    }
  }

  lemma OneDies(script: seq<Action>, n: nat, mmaps: seq<T.Mapping>)
    requires n < |script| && !Survives(script[n], mmaps)
    ensures !AllSurvive(script, mmaps)
  {
  }

  lemma {:induction false} DecodingRuns(run: seq<State>, i: nat, j: nat, tid: Tid, script: seq<Action>, rest: seq<Op>, mmaps: seq<T.Mapping>)
    requires IsRun(run) && i <= j < |run| && Decoding(run[i], tid, script, rest, mmaps, 0)
    ensures (DoneBy(run, i, j, tid, script, rest, mmaps) && AllSurvive(script, mmaps))
            || UnderWay(run[j], tid, script, rest, mmaps)
            || (run[j].aborted && !AllSurvive(script, mmaps))
    decreases j
  {
    hide Decoding, Next;
    if j == i {
      WholeScript(run, i, j, tid, script, rest, mmaps, 0);
    } else {
      DecodingRuns(run, i, j - 1, tid, script, rest, mmaps);
      OnlyTheLastIsAborted(run, j - 1);
      if DoneBy(run, i, j - 1, tid, script, rest, mmaps) && AllSurvive(script, mmaps) {
        var m :| i <= m <= j - 1 && Decoding(run[m], tid, script, rest, mmaps, |script|);
        assert i <= m <= j;
      } else if UnderWay(run[j - 1], tid, script, rest, mmaps) {
        UnderWaySteps(run, i, j, tid, script, rest, mmaps);
      }
    }
  }

  /** Nothing happens after an abort. */
  lemma OnlyTheLastIsAborted(run: seq<State>, j: nat)
    requires IsRun(run) && j + 1 < |run|
    ensures !run[j].aborted
  {
    hide Next;
    assert StepAt(run, j);
  }

  lemma NotDoneInTheMiddle(s: State, tid: Tid, script: seq<Action>, rest: seq<Op>, mmaps: seq<T.Mapping>)
    requires Decoding(s, tid, script, rest, mmaps, |script|)
    ensures !UnderWay(s, tid, script, rest, mmaps) && !s.aborted
  {
    forall n | 0 <= n < |script| ensures !Decoding(s, tid, script, rest, mmaps, n) {
      assert |Acts(script[n..]) + rest| > |Acts(script[|script|..]) + rest|;
    }
  }

  /**
   * On any run from a state in which a thread begins the script of a decode function: if all its
   * accesses succeed on the mappings tracked then, the process is not aborted before the script is
   * done, whatever the other threads do; if one does not, the script is never done.
   */
  lemma DecodingComesToItsEnd(run: seq<State>, i: nat, j: nat, tid: Tid, script: seq<Action>, rest: seq<Op>)
    requires IsRun(run) && i <= j < |run|
    requires Decoding(run[i], tid, script, rest, run[i].tracker.mmaps, 0)
    ensures var mmaps := run[i].tracker.mmaps;
            if AllSurvive(script, mmaps)
            then DoneBy(run, i, j, tid, script, rest, mmaps) || UnderWay(run[j], tid, script, rest, mmaps)
            else !DoneBy(run, i, j, tid, script, rest, mmaps)
    ensures UnderWay(run[j], tid, script, rest, run[i].tracker.mmaps) ==> !run[j].aborted && run[j].holder == Some(tid)
  {
    var mmaps := run[i].tracker.mmaps;
    DecodingRuns(run, i, j, tid, script, rest, mmaps);
    if DoneBy(run, i, j, tid, script, rest, mmaps) {
      var m :| i <= m <= j && Decoding(run[m], tid, script, rest, mmaps, |script|);
      DecodingRuns(run, i, m, tid, script, rest, mmaps);
      NotDoneInTheMiddle(run[m], tid, script, rest, mmaps);
    }
  }

  /**
   * In every reachable state with the mutex free in which only SAME_VA memory is mapped, GPU
   * ranges are apart and do not wrap. So an access wholly inside a tracked mapping is let through
   * exactly when no newer mapping ends at its first byte, and then yields its own address.
   */
  lemma SameVaAccessesGoThrough(s: State, va: u64, size: u64, j: nat)
    requires Reachable(s) && s.holder == None && j < |s.tracker.mmaps|
    requires forall m :: m in s.tracker.mmaps ==> T.IsSameVa(m.flags)
    requires size > 0 && D.Contained(s.tracker.mmaps[j], va, size)
    ensures D.GpuDisjoint(s.tracker.mmaps) && forall m :: m in s.tracker.mmaps ==> D.Fits(m)
    ensures D.DerefGpu(s.tracker.mmaps, None, va, size)
            == if exists i :: 0 <= i < j && D.End(s.tracker.mmaps[i]) == va then None else Some(va)
  {
    var mmaps := s.tracker.mmaps;
    TrackedMappingsAreLive(s);
    ReachableInv(s);
    hide InvMutex, InvClock, InvCalls, InvLog, Reachable;
    forall i | 0 <= i < |mmaps| ensures D.Fits(mmaps[i]) && mmaps[i].gpuVa == mmaps[i].addr {
      assert mmaps[i] in mmaps;
    }
    forall i, k | 0 <= i < k < |mmaps| ensures D.DisjointGpu(mmaps[i], mmaps[k]) {}
    D.InsideDerefSucceedsIff(mmaps, va, size, j);
    if D.DerefGpu(mmaps, None, va, size).Some? {
      assert T.SameVaAgree(T.State([], mmaps));
      D.NullDerefSameVa(mmaps, va, size);
      assert mmaps[T.Find(T.GpuContaining(va), mmaps)] in mmaps;
    }
  }
}
