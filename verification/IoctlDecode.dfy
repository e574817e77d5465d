/** The ioctl_decode_pre and ioctl_decode_post functions of panwrap/panwrap-syscall.c, by their effect on indent and tracker. */
module IoctlDecode {
  import opened Wrappers
  import opened Word64
  import opened TrackerModel
  import opened Deref
  import opened Script
  import opened Decoder

  /** MALI_SYNC_TO_DEVICE and MALI_SYNC_TO_CPU, or anything else. */
  datatype SyncType = ToDevice | ToCpu | OtherSync

  /** What of struct mali_jd_atom_v2 steers the log: the job chain and the external resource list. */
  datatype Atom = Atom(jc: u64, extRes: Option<nat>)

  /** The arguments before the call: job submission and sync by what they branch on, all others by their line count. */
  datatype PreArgs =
    | PlainPre(lines: nat)
    | SyncPre(kind: SyncType, handle: u64)
    | JobSubmit(strideMatches: bool, atoms: seq<Atom>)

  /** The arguments after the call. */
  datatype PostArgs =
    | PlainPost(lines: nat)
    | MemAlloc(gpuVa: u64, flags: bv64)
    | SyncPost(kind: SyncType)
    | GpuPropsRegDump(textureFeatures: nat, jsFeatures: nat, groups: nat)

  function Lines(n: nat): (script: seq<Action>)
    ensures |script| == n
  {
    seq(n, _ => Log)
  }

  /** A heading and `n` lines one level deeper. */
  function Section(n: nat): seq<Action> {
    [Log, Indent] + Lines(n) + [Dedent]
  }

  method LogLines(rec: Recorder, n: nat)
    requires rec.Valid() && !rec.ended
    modifies rec
    ensures rec.Valid() && !rec.ended && rec.indent == old(rec.indent) && Accesses(rec.trace) == old(Accesses(rec.trace))
    ensures rec.trace == old(rec.trace) + Lines(n) && Tracked(rec.trace) == old(Tracked(rec.trace))
  {
    hide Accesses, Tracked, Recorder.Valid;
    assert rec.trace + Lines(0) == rec.trace;
    for i := 0 to n
      invariant rec.Valid() && !rec.ended && rec.indent == old(rec.indent) && Accesses(rec.trace) == old(Accesses(rec.trace))
      invariant rec.trace == old(rec.trace) + Lines(i) && Tracked(rec.trace) == old(Tracked(rec.trace))
    {
      rec.Log();
      assert Lines(i + 1) == Lines(i) + [Log];
    }
  }

  /** A heading and `n` lines one level deeper. */
  method LogSection(rec: Recorder, n: nat)
    requires rec.Valid() && !rec.ended && rec.indent < MAX_INDENT
    modifies rec
    ensures rec.Valid() && !rec.ended && rec.indent == old(rec.indent) && Accesses(rec.trace) == old(Accesses(rec.trace))
    ensures rec.trace == old(rec.trace) + Section(n) && Tracked(rec.trace) == old(Tracked(rec.trace))
  {
    hide Accesses, Tracked, Recorder.Valid;
    rec.Log();
    rec.Indent();
    LogLines(rec, n);
    rec.Dedent();
  }

  /** The body of the atom loop in ioctl_decode_pre_job_submit. */
  method DecodeAtom(rec: Recorder, memory: Memory, a: Atom) returns (outcome: Outcome, ghost n: nat)
    requires rec.Valid() && !rec.ended && rec.indent + 6 <= MAX_INDENT && Roomy(rec.mmaps)
    modifies rec
    ensures Tracked(rec.trace) == old(Tracked(rec.trace))
    ensures rec.Valid()
    ensures if outcome.Completed? then rec.indent == old(rec.indent) && !rec.ended else rec.ended
    ensures outcome.Completed? <==> ChainDecodes(rec.mmaps, memory, a.jc)
    ensures Accesses(rec.trace) == old(Accesses(rec.trace)) + ChainAccesses(rec.mmaps, memory, a.jc, n)
    ensures StopsFor(rec, memory, outcome, ChainAccesses(rec.mmaps, memory, a.jc, n))
    ensures outcome.Completed? ==> TracedToItsEnd(rec.mmaps, memory, a.jc, n)
  {
    hide Accesses, Tracked, Recorder.Valid, ChainAccesses, ChainDecodes, TracedToItsEnd, ReadZeroStride, Lines, Section;
    rec.Log();
    rec.Indent();
    rec.Log();
    rec.Indent();
      outcome, n := TraceHwChain(rec, memory, a.jc);
    if !outcome.Completed? { return; }
    rec.Dedent();
    LogLines(rec, 2);
    if a.extRes.Some? {
      rec.Log();
      LogSection(rec, a.extRes.value);
    } else {
      rec.Log();
    }
    rec.Log();
    LogSection(rec, 2);
    LogLines(rec, 5);
    rec.Dedent();
  }

  /** Atoms in a foreign format are skipped; otherwise every job chain must be decoded. */
  ghost predicate SubmitDecodes(mmaps: seq<Mapping>, memory: Memory, strideMatches: bool, atoms: seq<Atom>) {
    strideMatches ==> forall i :: 0 <= i < |atoms| ==> ChainDecodes(mmaps, memory, atoms[i].jc)
  }

  /** The dereferences for the first atoms, `ns[i]` being the entries decoded of the attribute list of atom `i`. */
  function SubmitAccesses(mmaps: seq<Mapping>, memory: Memory, atoms: seq<Atom>, ns: seq<nat>): seq<Action>
    requires |ns| <= |atoms|
  {
    if ns == [] then [] else
    var i := |ns| - 1;
    SubmitAccesses(mmaps, memory, atoms, ns[..i]) + ChainAccesses(mmaps, memory, atoms[i].jc, ns[i])
  }

  lemma SubmitGrows(mmaps: seq<Mapping>, memory: Memory, atoms: seq<Atom>, ns: seq<nat>, n: nat)
    requires |ns| < |atoms|
    ensures SubmitAccesses(mmaps, memory, atoms, ns + [n])
            == SubmitAccesses(mmaps, memory, atoms, ns) + ChainAccesses(mmaps, memory, atoms[|ns|].jc, n)
  {
    hide ChainAccesses;
    assert (ns + [n])[..|ns|] == ns;
  }

  /** ioctl_decode_pre_job_submit */
  method DecodeJobSubmit(rec: Recorder, memory: Memory, strideMatches: bool, atoms: seq<Atom>)
    returns (outcome: Outcome, ghost ns: seq<nat>)
    requires rec.Valid() && !rec.ended && rec.indent + 7 <= MAX_INDENT && Roomy(rec.mmaps)
    modifies rec
    ensures Tracked(rec.trace) == old(Tracked(rec.trace))
    ensures rec.Valid()
    ensures if outcome.Completed? then rec.indent == old(rec.indent) && !rec.ended else rec.ended
    ensures outcome.Completed? <==> SubmitDecodes(rec.mmaps, memory, strideMatches, atoms)
    ensures |ns| <= |atoms| && Accesses(rec.trace) == old(Accesses(rec.trace)) + SubmitAccesses(rec.mmaps, memory, atoms, ns)
    ensures outcome.Completed? ==>
              && |ns| == (if strideMatches then |atoms| else 0)
              && forall i :: 0 <= i < |ns| ==> TracedToItsEnd(rec.mmaps, memory, atoms[i].jc, ns[i])
  {
    hide Accesses, Tracked, Recorder.Valid, ChainAccesses, ChainDecodes, TracedToItsEnd, StopsFor;
    ns := [];
    LogLines(rec, 3);
    if !strideMatches {
      LogLines(rec, 2);
      return Completed, [];
    }
    rec.Log();
    rec.Indent();
    for i := 0 to |atoms|
      invariant rec.Valid() && !rec.ended && rec.indent == old(rec.indent) + 1
      invariant forall j :: 0 <= j < i ==> ChainDecodes(rec.mmaps, memory, atoms[j].jc)
      invariant Tracked(rec.trace) == old(Tracked(rec.trace))
      invariant |ns| == i && Accesses(rec.trace) == old(Accesses(rec.trace)) + SubmitAccesses(rec.mmaps, memory, atoms, ns)
      invariant forall j :: 0 <= j < i ==> TracedToItsEnd(rec.mmaps, memory, atoms[j].jc, ns[j])
    {
      ghost var n;
      outcome, n := DecodeAtom(rec, memory, atoms[i]);
      SubmitGrows(rec.mmaps, memory, atoms, ns, n);
      ns := ns + [n];
      if !outcome.Completed? { return; }
    }
    rec.Dedent();
    outcome := Completed;
  }

  lemma FoundIff(mmaps: seq<Mapping>, handle: u64)
    ensures Find(ByGpuVa(handle), mmaps) < |mmaps| <==> exists m :: m in mmaps && m.gpuVa == handle
  {
    var k := Find(ByGpuVa(handle), mmaps);
    if k < |mmaps| {
      assert mmaps[k] in mmaps;
    } else {
      forall m | m in mmaps ensures m.gpuVa != handle {
        var i :| 0 <= i < |mmaps| && mmaps[i] == m;
        assert !Matches(ByGpuVa(handle), mmaps[i]);
      }
    }
  }

  /** ioctl_decode_pre_sync */
  method DecodeSync(rec: Recorder, kind: SyncType, handle: u64)
    requires rec.Valid() && !rec.ended && rec.indent < MAX_INDENT
    modifies rec
    ensures Tracked(rec.trace) == old(Tracked(rec.trace))
    ensures rec.Valid() && !rec.ended && rec.indent == old(rec.indent) && Accesses(rec.trace) == old(Accesses(rec.trace))
    ensures rec.trace == old(rec.trace) + (Lines(if exists m :: m in rec.mmaps && m.gpuVa == handle then 4 else 5)
                                           + if kind.ToDevice? then Section(1) else [])
  {
    hide Accesses, Tracked, Recorder.Valid, Lines, Section;
    FoundIff(rec.mmaps, handle);
    LogLines(rec, if Find(ByGpuVa(handle), rec.mmaps) < |rec.mmaps| then 4 else 5);
    if kind.ToDevice? { LogSection(rec, 1); }
  }

  /** What a recorder knows of its trace. */
  lemma RecorderKnows(rec: Recorder)
    requires rec.Valid()
    ensures Walk(rec.trace, rec.base) == rec.indent >= rec.base
    ensures ChecksDecide(rec.trace, rec.mmaps) && (rec.ended <==> !AllSurvive(rec.trace, rec.mmaps))
  {
  }

  /**
   * ioctl_decode_pre, called at indent 1. Whatever the arguments, the mappings and the memory
   * contents, the indent stays in bounds and comes back to 1 if the function returns at all,
   * which it does exactly when every job submitted decodes. Then every access succeeds;
   * otherwise one access or fault ends the process. Every check against an explicit mapping
   * names a tracked mapping and decides containment.
   */
  method DecodePre(mmaps: seq<Mapping>, memory: Memory, args: PreArgs)
    returns (script: seq<Action>, outcome: Outcome, ghost ns: seq<nat>)
    requires Roomy(mmaps)
    ensures Walk(script, 1) >= 1
    ensures outcome.Completed? ==> Balanced(script, 1)
    ensures outcome.Completed? <==> AllSurvive(script, mmaps)
    ensures outcome.Completed? <==>
              (args.JobSubmit? ==> SubmitDecodes(mmaps, memory, args.strideMatches, args.atoms))
    ensures ChecksDecide(script, mmaps) && Tracked(script) == []
    ensures args.PlainPre? ==> script == Lines(args.lines)
    ensures args.SyncPre? ==>
              script == Lines(if exists m :: m in mmaps && m.gpuVa == args.handle then 4 else 5)
                        + if args.kind.ToDevice? then Section(1) else []
    ensures args.JobSubmit? ==>
              && |ns| <= |args.atoms| && Accesses(script) == SubmitAccesses(mmaps, memory, args.atoms, ns)
              && (outcome.Completed? ==>
                    && |ns| == (if args.strideMatches then |args.atoms| else 0)
                    && forall i :: 0 <= i < |ns| ==> TracedToItsEnd(mmaps, memory, args.atoms[i].jc, ns[i]))
  {
    hide SubmitDecodes, SubmitAccesses, TracedToItsEnd, Recorder.Valid, Accesses, Tracked, Lines, Section, Walk, AllSurvive, ChecksDecide;
    var rec := new Recorder(1, mmaps);
    outcome, ns := Completed, [];
    NothingYet();
    match args {
      case PlainPre(lines) =>
        LogLines(rec, lines);
      case SyncPre(kind, handle) =>
        DecodeSync(rec, kind, handle);
      case JobSubmit(strideMatches, atoms) =>
        outcome, ns := DecodeJobSubmit(rec, memory, strideMatches, atoms);
    }
    script := rec.trace;
    RecorderKnows(rec);
  }

  lemma NothingYet()
    ensures Accesses([]) == [] && Tracked([]) == []
  {
  }

  /** ioctl_decode_post_gpu_props_reg_dump */
  method DecodeGpuProps(rec: Recorder, textureFeatures: nat, jsFeatures: nat, groups: nat)
    requires rec.Valid() && !rec.ended && rec.indent + 2 <= MAX_INDENT
    modifies rec
    ensures rec.Valid() && !rec.ended && rec.indent == old(rec.indent)
    ensures Tracked(rec.trace) == old(Tracked(rec.trace)) && Accesses(rec.trace) == old(Accesses(rec.trace))
  {
    hide Accesses, Tracked, Recorder.Valid, Lines, Section;
    rec.Log();
    rec.Indent();
    LogLines(rec, 7);
    LogSection(rec, textureFeatures);
    rec.Log();
    rec.Dedent();
    LogSection(rec, 3);
    LogSection(rec, 2);
    LogSection(rec, 7);
    rec.Log();
    rec.Indent();
    LogLines(rec, 10);
    LogSection(rec, jsFeatures);
    LogLines(rec, 4);
    rec.Dedent();
    rec.Log();
    rec.Indent();
    LogLines(rec, 3);
    LogSection(rec, 2 * groups);
    rec.Dedent();
  }

  /**
   * ioctl_decode_post, called at indent 1: balanced for all arguments. The one ioctl that feeds
   * the tracker is MEM_ALLOC, whose 64-bit flags are cut to the tracker's int. Nothing in it can
   * end the process.
   */
  method DecodePost(args: PostArgs) returns (script: seq<Action>)
    ensures Balanced(script, 1)
    ensures forall mmaps :: AllSurvive(script, mmaps) && ChecksDecide(script, mmaps)
    ensures args.PlainPost? ==> script == Lines(args.lines)
    ensures args.SyncPost? ==> script == if args.kind.ToCpu? then Section(1) else []
    ensures Tracked(script) == if args.MemAlloc? then [Allocation(args.gpuVa, (args.flags & 0xFFFF_FFFF) as bv32)] else []
    ensures args.MemAlloc? ==> |script| == 3 && script[0] == script[1] == Log
  {
    hide Accesses, Tracked, Recorder.Valid, Lines, Section, Walk, AllSurvive, ChecksDecide;
    var rec := new Recorder(1, []);
    NothingYet();
    match args {
      case PlainPost(lines) =>
        LogLines(rec, lines);
      case MemAlloc(gpuVa, flags) =>
        rec.Log();
        rec.Log();
        rec.Note(Track(Allocation(gpuVa, (flags & 0xFFFF_FFFF) as bv32)));
      case SyncPost(kind) =>
        if kind.ToCpu? { LogSection(rec, 1); }
      case GpuPropsRegDump(t, j, g) =>
        DecodeGpuProps(rec, t, j, g);
    }
    script := rec.trace;
    RecorderKnows(rec);
    NoAccessWithoutMappings(script);
  }

  /** What succeeds without a single tracked mapping dereferences nothing. */
  lemma NoAccessWithoutMappings(script: seq<Action>)
    requires AllSurvive(script, []) && ChecksDecide(script, [])
    ensures forall mmaps :: AllSurvive(script, mmaps) && ChecksDecide(script, mmaps)
  {
    forall i | 0 <= i < |script| ensures !script[i].Access? && !script[i].Fault? {
      assert Survives(script[i], []) && CheckDecides(script[i], []);
    }
  }
}
