/**
 * Job decoding of panwrap/panwrap-decoder.c over the tracker's mappings. Memory contents are a
 * parameter: one reader per structure the code looks at, from the pointer a dereference returned.
 */
module Decoder {
  import opened Wrappers
  import opened Word64
  import opened TrackerModel
  import opened Deref
  import opened Script

  /** Sizes of the structures on a 64-bit build. */
  const HEADER_SIZE: u64 := 32
  const SET_VALUE_SIZE: u64 := 16
  const VERTEX_PAYLOAD_SIZE: u64 := 304
  const SHADER_META_SIZE: u64 := 24
  const SHADER_BLOB_SIZE: u64 := 832
  const ATTR_SIZE: u64 := 24
  const OTHER_PAYLOAD_SIZE: u64 := 256
  const ENTRY_SIZE: u64 := 8
  /** `sizeof(*attr_mem)`: the tracker's own struct panwrap_mapped_memory, not the 8-byte entry. */
  const ENTRY_DEREF_SIZE: u64 := 48

  const JOB_TYPE_SET_VALUE: u8 := 2
  const JOB_TYPE_VERTEX: u8 := 5
  const JOB_TYPE_TILER: u8 := 7

  /** The types panwrap_job_type_name has a name for; it logs a warning for all others. */
  predicate IsKnownJobType(t: u8) {
    t <= 5 || 7 <= t <= 9
  }

  /** The largest access ever checked against an explicit mapping. */
  const MAX_ACCESS: int := 304

  datatype Attr = Attr(elements: u64, stride: u64, size: u64)
  datatype VertexPayload = VertexPayload(shaderMeta: u64, attributes: u64, attributeMeta: u64)

  datatype Memory = Memory(
    jobType: u64 -> u8,
    vertex: u64 -> VertexPayload,
    shader: u64 -> u64,
    word: u64 -> u64,
    attrIndex: u64 -> u8,
    attr: u64 -> Attr)

  /** How a decode function ends: it returns, a dereference aborts the process, or a division by zero does. */
  datatype Outcome = Completed | Aborted | DividedByZero

  /** No length leaves so little of the 64-bit range that adding an access to an offset could wrap. */
  predicate Roomy(mmaps: seq<Mapping>) {
    forall i :: 0 <= i < |mmaps| ==> mmaps[i].length + MAX_ACCESS < TWO64
  }

  function Lookup(mmaps: seq<Mapping>, va: u64): (r: Option<Mapping>)
    ensures r.Some? ==> r.value in mmaps && Fits(r.value) && r.value.gpuVa <= va <= End(r.value)
    ensures r.Some? && Roomy(mmaps) ==> r.value.length + MAX_ACCESS < TWO64
  {
    var k := Find(GpuContaining(va), mmaps);
    if k < |mmaps| then Some(mmaps[k]) else None
  }

  /** C's division of sizes. */
  function Quotient(a: nat, b: nat): (q: nat)
    requires b > 0
    ensures a < b ==> q == 0
  {
    a / b
  }

  /** The float at byte offset `r` of the element buffer lies inside both one row and the buffer. */
  predicate InBuffer(a: Attr, r: nat) {
    r % 4 == 0 && r + 4 <= a.size && r + 4 <= a.stride
  }

  /** How panwrap_decode_attributes ends. */
  function AttributesOutcome(mmaps: seq<Mapping>, memory: Memory, addr: u64): Outcome {
    match DerefGpu(mmaps, None, addr, ATTR_SIZE)
    case None => Aborted
    case Some(p) =>
      var a := memory.attr(p);
      if DerefGpu(mmaps, None, a.elements, a.size).None? then Aborted
      else if a.stride == 0 then DividedByZero else Completed
  }

  /** How the last action of a trace explains an outcome. */
  predicate Explains(trace: seq<Action>, outcome: Outcome) {
    match outcome
    case Completed => true
    case Aborted => trace != [] && trace[|trace| - 1].Access?
    case DividedByZero => trace != [] && trace[|trace| - 1] == Fault
  }

  /** The last but one of the accesses read an attribute with a stride of 0. */
  predicate ReadZeroStride(mmaps: seq<Mapping>, memory: Memory, acc: seq<Action>) {
    |acc| >= 2 && acc[|acc| - 2].Access? && acc[|acc| - 2].mem == None &&
    var attr := DerefGpu(mmaps, None, acc[|acc| - 2].va, acc[|acc| - 2].size);
    attr.Some? && memory.attr(attr.value).stride == 0
  }

  lemma StrideReadLast(mmaps: seq<Mapping>, memory: Memory, before: seq<Action>, acc: seq<Action>)
    requires ReadZeroStride(mmaps, memory, acc)
    ensures ReadZeroStride(mmaps, memory, before + acc)
  {
    assert (before + acc)[|before + acc| - 2] == acc[|acc| - 2];
  }

  /** What panwrap_decode_attributes dereferences: the attribute, and then its elements. */
  function AttrAccesses(mmaps: seq<Mapping>, memory: Memory, addr: u64): (acc: seq<Action>)
    ensures 1 <= |acc| <= 2
  {
    [Access(None, addr, ATTR_SIZE)]
    + match DerefGpu(mmaps, None, addr, ATTR_SIZE)
      case None => []
      case Some(p) => [Access(None, memory.attr(p).elements, memory.attr(p).size)]
  }

  /** The byte offsets of one row's floats; every row reads the same ones. */
  function RowOffsets(components: nat): seq<nat> {
    seq(components, i => 4 * i)
  }

  function FloatOffsets(rows: nat, components: nat): (f: seq<nat>)
    ensures |f| == rows * components
    decreases rows
  {
    if rows == 0 then [] else FloatOffsets(rows - 1, components) + RowOffsets(components)
  }

  /** Everything panwrap_decode_attributes reads from an element buffer. */
  function AttrFloats(a: Attr): seq<nat>
    requires a.stride > 0
  {
    FloatOffsets(Quotient(a.size, a.stride), Quotient(a.stride, 4))
  }

  /** All the floats read lie in the mapping. */
  ghost predicate FloatsInside(m: Mapping, a: Attr, floats: seq<nat>) {
    forall k :: 0 <= k < |floats| ==> a.elements + floats[k] + 4 <= End(m)
  }

  lemma {:induction false} OffsetsBounded(rows: nat, components: nat)
    ensures forall k :: 0 <= k < |FloatOffsets(rows, components)| ==>
              FloatOffsets(rows, components)[k] % 4 == 0 && FloatOffsets(rows, components)[k] + 4 <= 4 * components
    decreases rows
  {
    if rows > 0 { OffsetsBounded(rows - 1, components); }
  }

  lemma LastOffset(rows: nat, components: nat)
    requires rows > 0 && components > 0
    ensures var f := FloatOffsets(rows, components); |f| > 0 && f[|f| - 1] == 4 * components - 4
  {
    assert FloatOffsets(rows, components) == FloatOffsets(rows - 1, components) + RowOffsets(components);
  }

  lemma {:induction false} FloatOffsetAt(rows: nat, components: nat, row: nat, i: nat)
    requires row < rows && i < components
    ensures 0 <= row * components + i < |FloatOffsets(rows, components)|
    ensures FloatOffsets(rows, components)[row * components + i] == 4 * i
    decreases rows
  {
    assert FloatOffsets(rows, components) == FloatOffsets(rows - 1, components) + RowOffsets(components);
    if row < rows - 1 {
      FloatOffsetAt(rows - 1, components, row, i);
    } else {
      assert |FloatOffsets(rows - 1, components)| == row * components;
    }
  }

  /** Row by row, as many as whole strides fit in the size, every float of the stride is read, each row from the start. */
  lemma FloatsRead(a: Attr, row: nat, i: nat)
    requires a.stride > 0 && row < a.size / a.stride && i < a.stride / 4
    ensures |AttrFloats(a)| == (a.size / a.stride) * (a.stride / 4)
    ensures 0 <= row * (a.stride / 4) + i < |AttrFloats(a)| && AttrFloats(a)[row * (a.stride / 4) + i] == 4 * i
  {
    FloatOffsetAt(a.size / a.stride, a.stride / 4, row, i);
  }

  /** The floats lie inside one row and inside the `size` bytes checked. */
  lemma FloatsInBuffer(a: Attr)
    requires a.stride > 0
    ensures forall k :: 0 <= k < |AttrFloats(a)| ==> InBuffer(a, AttrFloats(a)[k])
  {
    OffsetsBounded(Quotient(a.size, a.stride), Quotient(a.stride, 4));
  }

  /**
   * When all the floats lie in the mapping: there are none, or the whole floats of one row fit
   * behind the first element.
   */
  lemma FloatsInsideIff(m: Mapping, a: Attr)
    requires a.stride > 0
    ensures FloatsInside(m, a, AttrFloats(a))
            <==> a.size < a.stride || a.stride < 4 || a.elements + 4 * Quotient(a.stride, 4) <= End(m)
  {
    var rows, components := Quotient(a.size, a.stride), Quotient(a.stride, 4);
    OffsetsBounded(rows, components);
    RowsExist(a.size, a.stride);
    if rows > 0 && components > 0 { LastOffset(rows, components); }
  }

  lemma RowsExist(size: nat, stride: nat)
    requires stride > 0
    ensures Quotient(size, stride) == 0 <==> size < stride
  {
    if size >= stride { assert size / stride >= 1; }
  }

  /**
   * An element buffer that was let through was found in some mapping. All its `size` bytes are in
   * that mapping exactly when the sum of the check does not wrap, and then so is every float.
   */
  lemma BufferContainedIff(mmaps: seq<Mapping>, a: Attr)
    requires a.stride > 0 && DerefGpu(mmaps, None, a.elements, a.size).Some?
    ensures var r := Lookup(mmaps, a.elements);
            && r.Some? && r.value.gpuVa <= a.elements
            && (Contained(r.value, a.elements, a.size) <==> (a.elements - r.value.gpuVa) + a.size < TWO64)
            && (Contained(r.value, a.elements, a.size) ==> FloatsInside(r.value, a, AttrFloats(a)))
  {
    NullDerefContained(mmaps, a.elements, a.size);
    FloatsInBuffer(a);
  }

  /**
   * A size from GPU memory that wraps: the attribute is decoded to its end, and one of the floats
   * read lies behind the only mapping.
   */
  lemma WrappingBufferEscapes(memory: Memory)
    requires memory.attr(0x1000) == Attr(0x1800, 0x1_0000, 0xFFFF_FFFF_FFFF_F800)
    ensures var m := Mapping(0x1000, 0x1000, 0x1000, 0, SAME_VA);
            && Roomy([m]) && AttributesOutcome([m], memory, 0x1000) == Completed
            && !FloatsInside(m, memory.attr(0x1000), AttrFloats(memory.attr(0x1000)))
  {
    var m := Mapping(0x1000, 0x1000, 0x1000, 0, SAME_VA);
    assert Find(GpuContaining(0x1000), [m]) == 0;
    WrappingSizePasses();
    FloatsInsideIff(m, memory.attr(0x1000));
  }

  /** The row and component loops of panwrap_decode_attributes; `floats` are the byte offsets read. */
  method LogRows(rec: Recorder, attr: Attr) returns (floats: seq<nat>)
    requires rec.Valid() && !rec.ended && attr.stride > 0
    modifies rec
    ensures Tracked(rec.trace) == old(Tracked(rec.trace))
    ensures rec.Valid() && !rec.ended && rec.indent == old(rec.indent) && Accesses(rec.trace) == old(Accesses(rec.trace))
    ensures floats == AttrFloats(attr)
  {
    hide Accesses, Tracked;
    floats := [];
    var vertexCount := Quotient(attr.size, attr.stride);
    var componentCount := Quotient(attr.stride, 4);
    for row := 0 to vertexCount
      invariant rec.Valid() && !rec.ended && rec.indent == old(rec.indent)
      invariant Accesses(rec.trace) == old(Accesses(rec.trace)) && Tracked(rec.trace) == old(Tracked(rec.trace))
      invariant floats == FloatOffsets(row, componentCount)
    {
      rec.Log();
      for i := 0 to componentCount
        invariant floats == FloatOffsets(row, componentCount) + RowOffsets(i)
      {
        assert RowOffsets(i + 1) == RowOffsets(i) + [4 * i];
        floats := floats + [4 * i];
      }
    }
  }

  /**
   * panwrap_decode_attributes, always called without a mapping. The floats read are those of
   * AttrFloats; all of them lie in the mapping found when the size does not wrap, and in general
   * exactly under the condition of FloatsInsideIff.
   */
  method DecodeAttributes(rec: Recorder, memory: Memory, addr: u64)
    returns (outcome: Outcome, floats: seq<nat>)
    requires rec.Valid() && !rec.ended && rec.indent < MAX_INDENT
    modifies rec
    ensures Tracked(rec.trace) == old(Tracked(rec.trace))
    ensures rec.Valid() && Accesses(rec.trace) == old(Accesses(rec.trace)) + AttrAccesses(rec.mmaps, memory, addr)
    ensures outcome == AttributesOutcome(rec.mmaps, memory, addr) && Explains(rec.trace, outcome)
    ensures match DerefGpu(rec.mmaps, None, addr, 24)
            case None => outcome == Aborted
            case Some(p) =>
              var a := memory.attr(p);
              outcome == if DerefGpu(rec.mmaps, None, a.elements, a.size).None? then Aborted
                         else if a.stride == 0 then DividedByZero else Completed
    ensures outcome.DividedByZero? ==> ReadZeroStride(rec.mmaps, memory, AttrAccesses(rec.mmaps, memory, addr))
    ensures outcome.Completed? ==> |AttrAccesses(rec.mmaps, memory, addr)| == 2
    ensures if outcome.Completed? then rec.indent == old(rec.indent) && !rec.ended else rec.ended
    ensures outcome.Completed? ==>
              var a := memory.attr(DerefGpu(rec.mmaps, None, addr, ATTR_SIZE).value);
              var r := Lookup(rec.mmaps, a.elements);
              && a.stride > 0 && floats == AttrFloats(a) && r.Some?
              && (FloatsInside(r.value, a, floats)
                  <==> a.size < a.stride || a.stride < 4 || a.elements + 4 * Quotient(a.stride, 4) <= End(r.value))
              && ((a.elements - r.value.gpuVa) + a.size < TWO64 ==> FloatsInside(r.value, a, floats))
  {
    hide Recorder.Valid, FloatOffsets, AttrFloats, FloatsInside, Accesses, Tracked, DerefGpu;
    floats := [];
    var p := rec.DerefMem(None, addr, ATTR_SIZE);
    if p.None? { return Aborted, []; }
    var attr := memory.attr(p.value);
    var buffer := rec.DerefMem(None, attr.elements, attr.size);
    if buffer.None? { return Aborted, []; }
    if attr.stride == 0 {
      rec.Note(Fault);
      return DividedByZero, [];
    }
    rec.Log();
    rec.Indent();
    floats := LogRows(rec, attr);
    rec.Dedent();
    outcome := Completed;
    BufferContainedIff(rec.mmaps, attr);
    FloatsInsideIff(Lookup(rec.mmaps, attr.elements).value, attr);
  }

  /** The word at `p` is not 0 and names an attribute that can be decoded. */
  predicate EntryIsGood(mmaps: seq<Mapping>, memory: Memory, m: Mapping, attributes: u64, p: u64) {
    && memory.word(Translate(m, p)) != 0
    && AttributesOutcome(mmaps, memory, Add(attributes, memory.attrIndex(Translate(m, p)))).Completed?
  }

  /** The list entry at `p` is not the terminator and is decoded to its end. */
  predicate EntryDecodes(mmaps: seq<Mapping>, memory: Memory, m: Mapping, attributes: u64, p: u64) {
    && Passes(m, p, ENTRY_SIZE) && Passes(m, p, ENTRY_DEREF_SIZE)
    && EntryIsGood(mmaps, memory, m, attributes, p)
  }

  /** The word at `p` is inside the mapping and 0. */
  predicate IsTerminator(memory: Memory, m: Mapping, p: u64) {
    Passes(m, p, ENTRY_SIZE) && memory.word(Translate(m, p)) == 0
  }

  /** The address of list entry `i`. */
  function EntryAt(start: u64, i: nat): int {
    start + 8 * i
  }

  /** Where the list loop stands after `i` entries. */
  function WordAt(start: u64, i: nat): u64 {
    EntryAt(start, i) % TWO64
  }

  /** What one round of the attribute list loop dereferences. */
  function EntryAccesses(mmaps: seq<Mapping>, memory: Memory, m: Mapping, attributes: u64, p: u64): (acc: seq<Action>)
    ensures 1 <= |acc| <= 4
  {
    [Access(Some(m), p, ENTRY_SIZE)]
    + if !Passes(m, p, ENTRY_SIZE) || memory.word(Translate(m, p)) == 0 then []
      else [Access(Some(m), p, ENTRY_DEREF_SIZE)]
           + if !Passes(m, p, ENTRY_DEREF_SIZE) then []
             else AttrAccesses(mmaps, memory, Add(attributes, memory.attrIndex(Translate(m, p))))
  }

  lemma ExplicitDeref(mmaps: seq<Mapping>, m: Mapping, va: u64, size: u64)
    ensures DerefGpu(mmaps, Some(m), va, size) == if Passes(m, va, size) then Some(Translate(m, va)) else None
  {
  }

  lemma EntryGoesOn(mmaps: seq<Mapping>, memory: Memory, m: Mapping, attributes: u64, p: u64)
    requires Passes(m, p, ENTRY_SIZE) && Passes(m, p, ENTRY_DEREF_SIZE) && memory.word(Translate(m, p)) != 0
    ensures EntryAccesses(mmaps, memory, m, attributes, p)
            == [Access(Some(m), p, ENTRY_SIZE), Access(Some(m), p, ENTRY_DEREF_SIZE)]
               + AttrAccesses(mmaps, memory, Add(attributes, memory.attrIndex(Translate(m, p))))
  {
    hide AttrAccesses, Passes, Translate;
  }

  /** What the loop dereferences in its first `n` rounds, as long as all of them go on. */
  function ListAccesses(mmaps: seq<Mapping>, memory: Memory, m: Mapping, attributes: u64, start: u64, n: nat): (acc: seq<Action>)
    ensures |acc| <= 4 * n
    decreases n
  {
    if n == 0 then [] else
    var before := ListAccesses(mmaps, memory, m, attributes, start, n - 1);
    before + if |before| == 4 * (n - 1) then EntryAccesses(mmaps, memory, m, attributes, WordAt(start, n - 1)) else []
  }

  lemma ListGrows(mmaps: seq<Mapping>, memory: Memory, m: Mapping, attributes: u64, start: u64, n: nat, p: u64)
    requires p == EntryAt(start, n) && |ListAccesses(mmaps, memory, m, attributes, start, n)| == 4 * n
    ensures ListAccesses(mmaps, memory, m, attributes, start, n + 1)
            == ListAccesses(mmaps, memory, m, attributes, start, n) + EntryAccesses(mmaps, memory, m, attributes, p)
  {
    hide EntryAccesses;
  }

  lemma OrderGrows(mmaps: seq<Mapping>, memory: Memory, m: Mapping, attributes: u64, start: u64, visited: seq<int>, p: u64)
    requires InOrder(mmaps, memory, m, attributes, start, visited) && p == EntryAt(start, |visited|)
    requires EntryDecodes(mmaps, memory, m, attributes, p)
    ensures InOrder(mmaps, memory, m, attributes, start, visited + [p])
  {
    hide EntryDecodes;
  }

  /** `n` entries are decoded one after the other, and the next word ends the list. */
  ghost predicate ListEnds(mmaps: seq<Mapping>, memory: Memory, m: Mapping, attributes: u64, start: u64, n: nat) {
    && EntryAt(start, n) < TWO64
    && (forall i :: 0 <= i < n ==> EntryDecodes(mmaps, memory, m, attributes, EntryAt(start, i)))
    && IsTerminator(memory, m, EntryAt(start, n))
  }

  /** `visited` are the addresses of the first entries, in order, and each of them is decoded. */
  ghost predicate InOrder(mmaps: seq<Mapping>, memory: Memory, m: Mapping, attributes: u64, start: u64, visited: seq<int>) {
    forall i :: 0 <= i < |visited| ==>
      visited[i] == EntryAt(start, i) < TWO64 && EntryDecodes(mmaps, memory, m, attributes, visited[i])
  }

  /** The list at `start` lies in the mapping the lookup finds, and some ListEnds describes it. */
  ghost predicate ListDecodes(mmaps: seq<Mapping>, memory: Memory, attributes: u64, start: u64) {
    Lookup(mmaps, start).Some?
    && exists n: nat :: ListEnds(mmaps, memory, Lookup(mmaps, start).value, attributes, start, n)
  }

  /** What one round of the attribute list loop comes to. */
  datatype Round = Terminator | Entry | Stopped(outcome: Outcome)

  /** A decode function stops: at a failing access, or at a stride of 0 that it has just read. */
  ghost predicate StopsFor(rec: Recorder, memory: Memory, outcome: Outcome, acc: seq<Action>)
    reads rec
  {
    Explains(rec.trace, outcome) && (outcome.DividedByZero? ==> ReadZeroStride(rec.mmaps, memory, acc))
  }

  lemma StopsForMore(rec: Recorder, memory: Memory, outcome: Outcome, before: seq<Action>, acc: seq<Action>)
    requires StopsFor(rec, memory, outcome, acc)
    ensures StopsFor(rec, memory, outcome, before + acc)
  {
    hide ReadZeroStride;
    if outcome.DividedByZero? { StrideReadLast(rec.mmaps, memory, before, acc); }
  }

  /** After `n` entries the list has a zero word, and that is the last thing looked at. */
  ghost predicate StopsAtZero(mmaps: seq<Mapping>, memory: Memory, m: Mapping, attributes: u64, start: u64, n: nat) {
    && memory.word(Translate(m, WordAt(start, n))) == 0
    && |ListAccesses(mmaps, memory, m, attributes, start, n + 1)| == 4 * n + 1
  }

  /** The loop test of the attribute list at `p`, and the body when the word there is not 0. */
  method VisitWord(rec: Recorder, memory: Memory, m: Mapping, attributes: u64, p: u64)
    returns (round: Round)
    requires rec.Valid() && !rec.ended && rec.indent + 2 <= MAX_INDENT
    requires m in rec.mmaps && m.gpuVa <= p <= End(m) && Fits(m) && m.length + MAX_ACCESS < TWO64
    modifies rec
    ensures Tracked(rec.trace) == old(Tracked(rec.trace))
    ensures rec.Valid()
    ensures Accesses(rec.trace) == old(Accesses(rec.trace)) + EntryAccesses(rec.mmaps, memory, m, attributes, p)
    ensures round.Terminator? <==> IsTerminator(memory, m, p)
    ensures round.Entry? <==> EntryDecodes(rec.mmaps, memory, m, attributes, p)
    ensures round.Terminator? ==>
              memory.word(Translate(m, p)) == 0 && |EntryAccesses(rec.mmaps, memory, m, attributes, p)| == 1
    ensures round.Stopped? ==> StopsFor(rec, memory, round.outcome, EntryAccesses(rec.mmaps, memory, m, attributes, p))
    ensures if round.Stopped? then rec.ended && !round.outcome.Completed?
            else !rec.ended && rec.indent == old(rec.indent)
    ensures round.Entry? ==> p + ENTRY_DEREF_SIZE <= End(m) && |EntryAccesses(rec.mmaps, memory, m, attributes, p)| == 4
  {
    hide Recorder.Valid, Accesses, Tracked, FloatsInside, AttrFloats, Survives, ReadZeroStride, AttrAccesses, DerefGpu, Passes, Translate;
    ExplicitDeref(rec.mmaps, m, p, ENTRY_SIZE);
    ExplicitDeref(rec.mmaps, m, p, ENTRY_DEREF_SIZE);
    CheckExact(m, p, ENTRY_DEREF_SIZE);
    assert CheckIsSound(m, p, ENTRY_SIZE) && CheckIsSound(m, p, ENTRY_DEREF_SIZE);
    var w := rec.DerefMem(Some(m), p, ENTRY_SIZE);
    if w.None? { return Stopped(Aborted); }
    if memory.word(w.value) == 0 { return Terminator; }
    var meta := rec.DerefMem(Some(m), p, ENTRY_DEREF_SIZE);
    if meta.None? { return Stopped(Aborted); }
    rec.Log();
    rec.Indent();
    rec.Log();
    var outcome, floats := DecodeAttributes(rec, memory, Add(attributes, memory.attrIndex(meta.value)));
    EntryGoesOn(rec.mmaps, memory, m, attributes, p);
    if !outcome.Completed? {
      var attr := Add(attributes, memory.attrIndex(meta.value));
      StopsForMore(rec, memory, outcome, [Access(Some(m), p, ENTRY_SIZE), Access(Some(m), p, ENTRY_DEREF_SIZE)],
                   AttrAccesses(rec.mmaps, memory, attr));
      return Stopped(outcome);
    }
    rec.Dedent();
    round := Entry;
  }

  lemma NothingVisited(mmaps: seq<Mapping>, memory: Memory, m: Mapping, attributes: u64, start: u64)
    ensures InOrder(mmaps, memory, m, attributes, start, []) && ListAccesses(mmaps, memory, m, attributes, start, 0) == []
  {
  }

  /** The attribute list loop over the mapping `m`. */
  method WalkList(rec: Recorder, memory: Memory, m: Mapping, attributes: u64, start: u64)
    returns (outcome: Outcome, visited: seq<int>)
    requires rec.Valid() && !rec.ended && rec.indent + 2 <= MAX_INDENT
    requires m in rec.mmaps && m.gpuVa <= start <= End(m) && Fits(m) && m.length + MAX_ACCESS < TWO64
    modifies rec
    ensures Tracked(rec.trace) == old(Tracked(rec.trace))
    ensures rec.Valid()
    ensures Accesses(rec.trace)
            == old(Accesses(rec.trace)) + ListAccesses(rec.mmaps, memory, m, attributes, start, |visited| + 1)
    ensures if outcome.Completed? then rec.indent == old(rec.indent) && !rec.ended else rec.ended
    ensures StopsFor(rec, memory, outcome, ListAccesses(rec.mmaps, memory, m, attributes, start, |visited| + 1))
    ensures outcome.Completed? ==> StopsAtZero(rec.mmaps, memory, m, attributes, start, |visited|)
    ensures InOrder(rec.mmaps, memory, m, attributes, start, visited) && EntryAt(start, |visited|) < TWO64
    ensures outcome.Completed? <==> IsTerminator(memory, m, EntryAt(start, |visited|))
    ensures !EntryDecodes(rec.mmaps, memory, m, attributes, EntryAt(start, |visited|))
  {
    hide Recorder.Valid, Accesses, Tracked, EntryAccesses, EntryDecodes, IsTerminator, ListAccesses, InOrder, ReadZeroStride;
    NothingVisited(rec.mmaps, memory, m, attributes, start);
    visited := [];
    var p := start;
    while true
      invariant rec.Valid() && !rec.ended && rec.indent == old(rec.indent)
      invariant Accesses(rec.trace) == old(Accesses(rec.trace)) + ListAccesses(rec.mmaps, memory, m, attributes, start, |visited|)
      invariant Tracked(rec.trace) == old(Tracked(rec.trace))
      invariant |ListAccesses(rec.mmaps, memory, m, attributes, start, |visited|)| == 4 * |visited|
      invariant m.gpuVa <= p <= End(m) && p == EntryAt(start, |visited|)
      invariant InOrder(rec.mmaps, memory, m, attributes, start, visited)
      decreases End(m) - p
    {
      var round := VisitWord(rec, memory, m, attributes, p);
      ListGrows(rec.mmaps, memory, m, attributes, start, |visited|, p);
      if !round.Entry? {
        outcome := if round.Terminator? then Completed else round.outcome;
        if round.Stopped? {
          StopsForMore(rec, memory, outcome, ListAccesses(rec.mmaps, memory, m, attributes, start, |visited|),
                       EntryAccesses(rec.mmaps, memory, m, attributes, p));
        }
        return;
      }
      OrderGrows(rec.mmaps, memory, m, attributes, start, visited, p);
      visited := visited + [p];
      p := p + ENTRY_SIZE;
    }
  }

  lemma NothingFound(mmaps: seq<Mapping>, start: u64)
    requires Lookup(mmaps, start).None?
    ensures forall size: u64 :: DerefGpu(mmaps, None, start, size).None?
    ensures forall attributes, memory :: !ListDecodes(mmaps, memory, attributes, start)
  {
  }

  /** The same when the mapping the loop looks in has to be found first. */
  function AttributeAccesses(mmaps: seq<Mapping>, memory: Memory, attributes: u64, start: u64, n: nat): seq<Action> {
    match Lookup(mmaps, start)
    case None => [Access(None, start, ENTRY_SIZE)]
    case Some(m) => ListAccesses(mmaps, memory, m, attributes, start, n)
  }

  /**
   * The attribute list loop. It ends on all memory contents. It runs to completion exactly when
   * the list is one that ListEnds describes, and has then visited the entries before the first
   * zero word, each once and in order.
   */
  method AttributeList(rec: Recorder, memory: Memory, attributes: u64, start: u64)
    returns (outcome: Outcome, visited: seq<int>)
    requires rec.Valid() && !rec.ended && rec.indent + 2 <= MAX_INDENT && Roomy(rec.mmaps)
    modifies rec
    ensures Tracked(rec.trace) == old(Tracked(rec.trace))
    ensures rec.Valid()
    ensures Accesses(rec.trace)
            == old(Accesses(rec.trace)) + AttributeAccesses(rec.mmaps, memory, attributes, start, |visited| + 1)
    ensures StopsFor(rec, memory, outcome, AttributeAccesses(rec.mmaps, memory, attributes, start, |visited| + 1))
    ensures outcome.Completed? ==>
              var m := Lookup(rec.mmaps, start);
              m.Some? && StopsAtZero(rec.mmaps, memory, m.value, attributes, start, |visited|)
    ensures if outcome.Completed? then rec.indent == old(rec.indent) && !rec.ended else rec.ended
    ensures outcome.Completed? <==> ListDecodes(rec.mmaps, memory, attributes, start)
    ensures outcome.Completed? ==>
              && ListEnds(rec.mmaps, memory, Lookup(rec.mmaps, start).value, attributes, start, |visited|)
              && forall i :: 0 <= i < |visited| ==> visited[i] == EntryAt(start, i)
  {
    hide Recorder.Valid, Accesses, Tracked, ListAccesses, ReadZeroStride, StopsAtZero;
    var attrMem := Lookup(rec.mmaps, start);
    if attrMem.None? {
      NothingFound(rec.mmaps, start);
      var w := rec.DerefMem(attrMem, start, ENTRY_SIZE);
      return Aborted, [];
    }
    outcome, visited := WalkList(rec, memory, attrMem.value, attributes, start);
    if outcome.Completed? {
      EndsAList(rec.mmaps, memory, attrMem.value, attributes, start, visited);
    } else {
      NotAList(rec.mmaps, memory, attrMem.value, attributes, start, visited);
    }
  }

  lemma EndsAList(mmaps: seq<Mapping>, memory: Memory, m: Mapping, attributes: u64, start: u64, visited: seq<int>)
    requires InOrder(mmaps, memory, m, attributes, start, visited) && EntryAt(start, |visited|) < TWO64
    requires IsTerminator(memory, m, EntryAt(start, |visited|))
    ensures ListEnds(mmaps, memory, m, attributes, start, |visited|)
    ensures Lookup(mmaps, start) == Some(m) ==> ListDecodes(mmaps, memory, attributes, start)
  {
    forall i | 0 <= i < |visited| ensures EntryDecodes(mmaps, memory, m, attributes, EntryAt(start, i)) {
      assert visited[i] == EntryAt(start, i);
    }
    assert ListEnds(mmaps, memory, m, attributes, start, |visited|);
  }

  /** An entry that is neither decoded nor the terminator, with none but decoded ones before it, ends no list. */
  lemma NotAList(mmaps: seq<Mapping>, memory: Memory, m: Mapping, attributes: u64, start: u64, visited: seq<int>)
    requires InOrder(mmaps, memory, m, attributes, start, visited) && EntryAt(start, |visited|) < TWO64
    requires !EntryDecodes(mmaps, memory, m, attributes, EntryAt(start, |visited|))
    requires !IsTerminator(memory, m, EntryAt(start, |visited|))
    ensures Lookup(mmaps, start) == Some(m) ==> !ListDecodes(mmaps, memory, attributes, start)
  {
    forall n: nat ensures !ListEnds(mmaps, memory, m, attributes, start, n) {
      if n < |visited| { assert visited[n] == EntryAt(start, n); }
    }
  }

  /** A heading and an indented hexdump. */
  method DumpBlock(rec: Recorder)
    requires rec.Valid() && !rec.ended && rec.indent < MAX_INDENT
    modifies rec
    ensures Tracked(rec.trace) == old(Tracked(rec.trace))
    ensures rec.Valid() && !rec.ended && rec.indent == old(rec.indent) && Accesses(rec.trace) == old(Accesses(rec.trace))
  {
    hide Accesses, Tracked;
    rec.Log();
    rec.Indent();
    rec.Log();
    rec.Dedent();
  }

  // When each part of a job is decoded to its end.

  predicate ShaderDecodes(mmaps: seq<Mapping>, memory: Memory, shaderMeta: u64) {
    shaderMeta == 0 ||
    var meta := DerefGpu(mmaps, None, shaderMeta, SHADER_META_SIZE);
    meta.Some? && DerefGpu(mmaps, None, memory.shader(meta.value), SHADER_BLOB_SIZE).Some?
  }

  ghost predicate VertexDecodes(mmaps: seq<Mapping>, memory: Memory, mem: Mapping, payload: u64) {
    && Passes(mem, payload, VERTEX_PAYLOAD_SIZE)
    && var v := memory.vertex(Translate(mem, payload));
       && ShaderDecodes(mmaps, memory, v.shaderMeta)
       && (v.attributeMeta == 0 || ListDecodes(mmaps, memory, v.attributes, v.attributeMeta))
  }

  ghost predicate PayloadDecodes(mmaps: seq<Mapping>, memory: Memory, jobType: u8, mem: Mapping, payload: u64) {
    if jobType == JOB_TYPE_SET_VALUE then Contained(mem, payload, SET_VALUE_SIZE)
    else if jobType == JOB_TYPE_TILER || jobType == JOB_TYPE_VERTEX then VertexDecodes(mmaps, memory, mem, payload)
    else Contained(mem, payload, OTHER_PAYLOAD_SIZE)
  }

  /** The header and, right behind it, the payload lie in the mapping that owns the chain's address. */
  ghost predicate ChainDecodes(mmaps: seq<Mapping>, memory: Memory, jc: u64) {
    var mem := Lookup(mmaps, jc);
    && mem.Some? && Contained(mem.value, jc, HEADER_SIZE)
    && PayloadDecodes(mmaps, memory, memory.jobType(Translate(mem.value, jc)), mem.value, Add(jc, HEADER_SIZE))
  }

  // What each part of a job dereferences.

  function ShaderAccesses(mmaps: seq<Mapping>, memory: Memory, shaderMeta: u64): seq<Action> {
    if shaderMeta == 0 then [] else
    [Access(None, shaderMeta, SHADER_META_SIZE)]
    + match DerefGpu(mmaps, None, shaderMeta, SHADER_META_SIZE)
      case None => []
      case Some(meta) => [Access(None, memory.shader(meta), SHADER_BLOB_SIZE)]
  }

  function VertexAccesses(mmaps: seq<Mapping>, memory: Memory, mem: Mapping, payload: u64, n: nat): seq<Action> {
    [Access(Some(mem), payload, VERTEX_PAYLOAD_SIZE)]
    + if !Passes(mem, payload, VERTEX_PAYLOAD_SIZE) then [] else
      var v := memory.vertex(Translate(mem, payload));
      ShaderAccesses(mmaps, memory, v.shaderMeta)
      + if !ShaderDecodes(mmaps, memory, v.shaderMeta) || v.attributeMeta == 0 then []
        else AttributeAccesses(mmaps, memory, v.attributes, v.attributeMeta, n + 1)
  }

  function PayloadAccesses(mmaps: seq<Mapping>, memory: Memory, jobType: u8, mem: Mapping, payload: u64, n: nat): seq<Action> {
    if jobType == JOB_TYPE_SET_VALUE then [Access(Some(mem), payload, SET_VALUE_SIZE)]
    else if jobType == JOB_TYPE_TILER || jobType == JOB_TYPE_VERTEX then VertexAccesses(mmaps, memory, mem, payload, n)
    else [Access(Some(mem), payload, OTHER_PAYLOAD_SIZE)]
  }

  /** Everything panwrap_trace_hw_chain dereferences, with `n` entries of an attribute list decoded. */
  function ChainAccesses(mmaps: seq<Mapping>, memory: Memory, jc: u64, n: nat): seq<Action> {
    var mem := Lookup(mmaps, jc);
    [Access(mem, jc, HEADER_SIZE)]
    + if mem.None? || !Passes(mem.value, jc, HEADER_SIZE) then []
      else PayloadAccesses(mmaps, memory, memory.jobType(Translate(mem.value, jc)), mem.value, Add(jc, HEADER_SIZE), n)
  }

  /** The shader part of panwrap_decode_vertex_or_tiler_job. */
  method DecodeShader(rec: Recorder, memory: Memory, shaderMeta: u64) returns (outcome: Outcome)
    requires rec.Valid() && !rec.ended && rec.indent < MAX_INDENT
    modifies rec
    ensures Tracked(rec.trace) == old(Tracked(rec.trace))
    ensures rec.Valid() && Accesses(rec.trace) == old(Accesses(rec.trace)) + ShaderAccesses(rec.mmaps, memory, shaderMeta)
    ensures if outcome.Completed? then rec.indent == old(rec.indent) && !rec.ended else rec.ended
    ensures !outcome.Completed? ==> outcome == Aborted && Explains(rec.trace, outcome)
    ensures outcome.Completed? ==> |ShaderAccesses(rec.mmaps, memory, shaderMeta)| == if shaderMeta == 0 then 0 else 2
    ensures outcome.Completed? <==> ShaderDecodes(rec.mmaps, memory, shaderMeta)
  {
    hide Recorder.Valid, Accesses, Tracked;
    if shaderMeta == 0 {
      rec.Log();
      return Completed;
    }
    var meta := rec.DerefMem(None, shaderMeta, SHADER_META_SIZE);
    if meta.None? { return Aborted; }
    rec.Log();
    rec.Indent();
    var blob := rec.DerefMem(None, memory.shader(meta.value), SHADER_BLOB_SIZE);
    if blob.None? { return Aborted; }
    rec.Log();
    rec.Dedent();
    outcome := Completed;
  }

  /** The attribute part of panwrap_decode_vertex_or_tiler_job. */
  method DecodeAttributeList(rec: Recorder, memory: Memory, v: VertexPayload)
    returns (outcome: Outcome, ghost n: nat)
    requires rec.Valid() && !rec.ended && rec.indent + 3 <= MAX_INDENT && Roomy(rec.mmaps)
    modifies rec
    ensures Tracked(rec.trace) == old(Tracked(rec.trace))
    ensures rec.Valid()
    ensures Accesses(rec.trace)
            == old(Accesses(rec.trace)) + if v.attributeMeta == 0 then []
                                          else AttributeAccesses(rec.mmaps, memory, v.attributes, v.attributeMeta, n + 1)
    ensures v.attributeMeta != 0 ==>
              StopsFor(rec, memory, outcome, AttributeAccesses(rec.mmaps, memory, v.attributes, v.attributeMeta, n + 1))
    ensures outcome.Completed? && v.attributeMeta != 0 ==>
              var m := Lookup(rec.mmaps, v.attributeMeta);
              m.Some? && StopsAtZero(rec.mmaps, memory, m.value, v.attributes, v.attributeMeta, n)
    ensures if outcome.Completed? then rec.indent == old(rec.indent) && !rec.ended else rec.ended
    ensures outcome.Completed? <==> v.attributeMeta == 0 || ListDecodes(rec.mmaps, memory, v.attributes, v.attributeMeta)
  {
    hide Recorder.Valid, Accesses, Tracked, AttributeAccesses, ReadZeroStride, StopsAtZero;
    rec.Log();
    if v.attributeMeta == 0 { return Completed, 0; }
    rec.Indent();
    var visited;
    outcome, visited := AttributeList(rec, memory, v.attributes, v.attributeMeta);
    n := |visited|;
    if outcome.Completed? { rec.Dedent(); }
  }

  /** The whole of a vertex or tiler job has been looked at: payload, shader, and the list up to its zero word. */
  ghost predicate VertexEnds(mmaps: seq<Mapping>, memory: Memory, mem: Mapping, payload: u64, n: nat) {
    var v := memory.vertex(Translate(mem, payload));
    var head := if v.shaderMeta == 0 then 1 else 3;
    if v.attributeMeta == 0 then |VertexAccesses(mmaps, memory, mem, payload, n)| == head
    else && |VertexAccesses(mmaps, memory, mem, payload, n)| == head + 4 * n + 1
         && Lookup(mmaps, v.attributeMeta).Some?
         && memory.word(Translate(Lookup(mmaps, v.attributeMeta).value, WordAt(v.attributeMeta, n))) == 0
  }

  lemma VertexGoesOn(mmaps: seq<Mapping>, memory: Memory, mem: Mapping, payload: u64, n: nat)
    requires Passes(mem, payload, VERTEX_PAYLOAD_SIZE)
    requires ShaderDecodes(mmaps, memory, memory.vertex(Translate(mem, payload)).shaderMeta)
    ensures var v := memory.vertex(Translate(mem, payload));
            VertexAccesses(mmaps, memory, mem, payload, n)
            == [Access(Some(mem), payload, VERTEX_PAYLOAD_SIZE)] + ShaderAccesses(mmaps, memory, v.shaderMeta)
               + if v.attributeMeta == 0 then [] else AttributeAccesses(mmaps, memory, v.attributes, v.attributeMeta, n + 1)
  {
    hide ShaderAccesses, AttributeAccesses, ShaderDecodes, Passes, Translate;
  }

  lemma ListLength(mmaps: seq<Mapping>, memory: Memory, attributes: u64, start: u64, n: nat)
    requires var m := Lookup(mmaps, start); m.Some? && StopsAtZero(mmaps, memory, m.value, attributes, start, n)
    ensures |AttributeAccesses(mmaps, memory, attributes, start, n + 1)| == 4 * n + 1
    ensures memory.word(Translate(Lookup(mmaps, start).value, WordAt(start, n))) == 0
  {
    hide ListAccesses, Translate;
  }

  /** panwrap_decode_vertex_or_tiler_job */
  method DecodeVertexOrTilerJob(rec: Recorder, memory: Memory, mem: Mapping, payload: u64)
    returns (outcome: Outcome, ghost n: nat)
    requires rec.Valid() && !rec.ended && rec.indent + 3 <= MAX_INDENT && Roomy(rec.mmaps)
    requires mem in rec.mmaps && mem.gpuVa <= payload <= End(mem) && Fits(mem) && mem.length + MAX_ACCESS < TWO64
    modifies rec
    ensures Tracked(rec.trace) == old(Tracked(rec.trace))
    ensures rec.Valid()
    ensures Accesses(rec.trace) == old(Accesses(rec.trace)) + VertexAccesses(rec.mmaps, memory, mem, payload, n)
    ensures StopsFor(rec, memory, outcome, VertexAccesses(rec.mmaps, memory, mem, payload, n))
    ensures outcome.Completed? ==> VertexEnds(rec.mmaps, memory, mem, payload, n)
    ensures if outcome.Completed? then rec.indent == old(rec.indent) && !rec.ended else rec.ended
    ensures outcome.Completed? <==> VertexDecodes(rec.mmaps, memory, mem, payload)
  {
    hide Recorder.Valid, Accesses, Tracked, ShaderDecodes, ListDecodes, ShaderAccesses, AttributeAccesses, ReadZeroStride, StopsAtZero,
         DerefGpu, Passes, Translate;
    ExplicitDeref(rec.mmaps, mem, payload, VERTEX_PAYLOAD_SIZE);
    n := 0;
    var p := rec.DerefMem(Some(mem), payload, VERTEX_PAYLOAD_SIZE);
    if p.None? { return Aborted, 0; }
    var v := memory.vertex(p.value);
    if Quotient(v.shaderMeta, 0x10_0000) % 0x1000 == 0x5AB { rec.Log(); }
    rec.Log();
    DumpBlock(rec);
    outcome := DecodeShader(rec, memory, v.shaderMeta);
    if !outcome.Completed? { return; }
    outcome, n := DecodeAttributeList(rec, memory, v);
    VertexGoesOn(rec.mmaps, memory, mem, payload, n);
    var before := [Access(Some(mem), payload, VERTEX_PAYLOAD_SIZE)] + ShaderAccesses(rec.mmaps, memory, v.shaderMeta);
    if v.attributeMeta != 0 {
      StopsForMore(rec, memory, outcome, before, AttributeAccesses(rec.mmaps, memory, v.attributes, v.attributeMeta, n + 1));
      if outcome.Completed? { ListLength(rec.mmaps, memory, v.attributes, v.attributeMeta, n); }
    }
    if outcome.Completed? { DumpBlock(rec); }
  }

  ghost predicate PayloadEnds(mmaps: seq<Mapping>, memory: Memory, jobType: u8, mem: Mapping, payload: u64, n: nat) {
    if jobType == JOB_TYPE_TILER || jobType == JOB_TYPE_VERTEX then VertexEnds(mmaps, memory, mem, payload, n)
    else |PayloadAccesses(mmaps, memory, jobType, mem, payload, n)| == 1
  }

  lemma ChainGoesOn(mmaps: seq<Mapping>, memory: Memory, jc: u64, n: nat)
    requires Lookup(mmaps, jc).Some? && Passes(Lookup(mmaps, jc).value, jc, HEADER_SIZE)
    ensures var mem := Lookup(mmaps, jc);
            ChainAccesses(mmaps, memory, jc, n)
            == [Access(mem, jc, HEADER_SIZE)]
               + PayloadAccesses(mmaps, memory, memory.jobType(Translate(mem.value, jc)), mem.value, Add(jc, HEADER_SIZE), n)
  {
    hide PayloadAccesses, Translate, Passes;
  }

  lemma ChainStops(mmaps: seq<Mapping>, memory: Memory, jc: u64, n: nat)
    requires Lookup(mmaps, jc).None? || !Passes(Lookup(mmaps, jc).value, jc, HEADER_SIZE)
    ensures ChainAccesses(mmaps, memory, jc, n) == [Access(Lookup(mmaps, jc), jc, HEADER_SIZE)]
  {
    hide PayloadAccesses, Translate, Passes;
  }

  /**
   * How many accesses a chain takes that is traced to its end: the header and the payload, for
   * types 5 and 7 also two of a shader, if there is one, and four for each of `n` entries of the
   * attribute list, if there is one, and one for the zero word behind them.
   */
  ghost predicate TracedToItsEnd(mmaps: seq<Mapping>, memory: Memory, jc: u64, n: nat) {
    && Lookup(mmaps, jc).Some?
    && var acc, m := ChainAccesses(mmaps, memory, jc, n), Lookup(mmaps, jc).value;
       var t, v := memory.jobType(Translate(m, jc)), memory.vertex(Translate(m, Add(jc, 32)));
       var before := if v.shaderMeta == 0 then 2 else 4;
       if t != 5 && t != 7 then |acc| == 2
       else if v.attributeMeta == 0 then |acc| == before
       else && |acc| == before + 4 * n + 1 && Lookup(mmaps, v.attributeMeta).Some?
            && var list := Lookup(mmaps, v.attributeMeta).value;
               memory.word(Translate(list, WordAt(v.attributeMeta, n))) == 0
  }

  lemma ChainLength(mmaps: seq<Mapping>, memory: Memory, jc: u64, n: nat)
    requires Lookup(mmaps, jc).Some? && Passes(Lookup(mmaps, jc).value, jc, HEADER_SIZE)
    requires var m := Lookup(mmaps, jc).value;
             PayloadEnds(mmaps, memory, memory.jobType(Translate(m, jc)), m, Add(jc, HEADER_SIZE), n)
    ensures TracedToItsEnd(mmaps, memory, jc, n)
  {
    hide Translate, Passes, VertexAccesses, Lookup;
    ChainGoesOn(mmaps, memory, jc, n);
  }

  /** The switch over the job type in panwrap_trace_hw_chain. */
  method DecodePayload(rec: Recorder, memory: Memory, jobType: u8, mem: Mapping, payload: u64)
    returns (outcome: Outcome, ghost n: nat)
    requires rec.Valid() && !rec.ended && rec.indent + 3 <= MAX_INDENT && Roomy(rec.mmaps)
    requires mem in rec.mmaps && mem.gpuVa <= payload <= End(mem) && Fits(mem) && mem.length + MAX_ACCESS < TWO64
    modifies rec
    ensures Tracked(rec.trace) == old(Tracked(rec.trace))
    ensures rec.Valid()
    ensures Accesses(rec.trace) == old(Accesses(rec.trace)) + PayloadAccesses(rec.mmaps, memory, jobType, mem, payload, n)
    ensures StopsFor(rec, memory, outcome, PayloadAccesses(rec.mmaps, memory, jobType, mem, payload, n))
    ensures outcome.Completed? ==> PayloadEnds(rec.mmaps, memory, jobType, mem, payload, n)
    ensures if outcome.Completed? then rec.indent == old(rec.indent) && !rec.ended else rec.ended
    ensures outcome.Completed? <==> PayloadDecodes(rec.mmaps, memory, jobType, mem, payload)
  {
    hide Recorder.Valid, Accesses, Tracked, VertexAccesses, VertexDecodes, VertexEnds, ReadZeroStride;
    CheckExact(mem, payload, SET_VALUE_SIZE);
    CheckExact(mem, payload, OTHER_PAYLOAD_SIZE);
    n := 0;
    if jobType == JOB_TYPE_SET_VALUE {
      var s := rec.DerefMem(Some(mem), payload, SET_VALUE_SIZE);
      if s.None? { return Aborted, 0; }
      rec.Log();
      outcome := Completed;
    } else if jobType == JOB_TYPE_TILER || jobType == JOB_TYPE_VERTEX {
      outcome, n := DecodeVertexOrTilerJob(rec, memory, mem, payload);
    } else {
      rec.Log();
      rec.Indent();
      var d := rec.DerefMem(Some(mem), payload, OTHER_PAYLOAD_SIZE);
      if d.None? { return Aborted, 0; }
      rec.Log();
      rec.Dedent();
      outcome := Completed;
    }
  }

  /**
   * panwrap_trace_hw_chain. What it dereferences is given by ChainAccesses, access by access in
   * ChainAccessesAre. It stops only at a failing access or at a stride of 0; if it completes, the
   * accesses are all there.
   */
  method TraceHwChain(rec: Recorder, memory: Memory, jc: u64) returns (outcome: Outcome, ghost n: nat)
    requires rec.Valid() && !rec.ended && rec.indent + 4 <= MAX_INDENT && Roomy(rec.mmaps)
    modifies rec
    ensures Tracked(rec.trace) == old(Tracked(rec.trace))
    ensures rec.Valid() && Accesses(rec.trace) == old(Accesses(rec.trace)) + ChainAccesses(rec.mmaps, memory, jc, n)
    ensures StopsFor(rec, memory, outcome, ChainAccesses(rec.mmaps, memory, jc, n))
    ensures outcome.Completed? ==> TracedToItsEnd(rec.mmaps, memory, jc, n)
    ensures if outcome.Completed? then rec.indent == old(rec.indent) && !rec.ended else rec.ended
    ensures outcome.Completed? <==> ChainDecodes(rec.mmaps, memory, jc)
  {
    hide Recorder.Valid, Accesses, Tracked, PayloadDecodes, ChainAccesses, PayloadAccesses, PayloadEnds, ReadZeroStride, DerefGpu,
         Passes, Translate, TracedToItsEnd, Lookup;
    n := 0;
    var mem := Lookup(rec.mmaps, jc);
    if mem.Some? { ExplicitDeref(rec.mmaps, mem.value, jc, HEADER_SIZE); } else { NothingFound(rec.mmaps, jc); }
    var h := rec.DerefMem(mem, jc, HEADER_SIZE);
    if mem.Some? { CheckExact(mem.value, jc, HEADER_SIZE); }
    if h.None? {
      ChainStops(rec.mmaps, memory, jc, 0);
      return Aborted, 0;
    }
    var payload := Add(jc, HEADER_SIZE);
    var jobType := memory.jobType(h.value);
    if !IsKnownJobType(jobType) { rec.Log(); }
    rec.Log();
    rec.Log();
    rec.Log();
    rec.Indent();
    outcome, n := DecodePayload(rec, memory, jobType, mem.value, payload);
    ChainGoesOn(rec.mmaps, memory, jc, n);
    if outcome.Completed? { ChainLength(rec.mmaps, memory, jc, n); }
    StopsForMore(rec, memory, outcome, [Access(mem, jc, HEADER_SIZE)],
                 PayloadAccesses(rec.mmaps, memory, jobType, mem.value, payload, n));
    if outcome.Completed? { rec.Dedent(); }
  }

  /** Access `q` of an attribute list: every entry takes four, and only a word that is not 0 has more than one. */
  lemma {:induction false} ListAccessesAre(mmaps: seq<Mapping>, memory: Memory, m: Mapping, attributes: u64, start: u64, n: nat, q: nat)
    requires q < |ListAccesses(mmaps, memory, m, attributes, start, n)|
    ensures var a, p := ListAccesses(mmaps, memory, m, attributes, start, n)[q], WordAt(start, q / 4);
            var attr := Add(attributes, memory.attrIndex(Translate(m, p)));
            && (q % 4 > 0 ==> memory.word(Translate(m, p)) != 0)
            && (q % 4 == 0 ==> a == Access(Some(m), p, 8))
            && (q % 4 == 1 ==> a == Access(Some(m), p, 48))
            && (q % 4 == 2 ==> a == Access(None, attr, 24))
            && (q % 4 == 3 ==>
                  var x := DerefGpu(mmaps, None, attr, 24);
                  x.Some? && a == Access(None, memory.attr(x.value).elements, memory.attr(x.value).size))
    decreases n
  {
    hide EntryAccesses, Translate, DerefGpu;
    var before := ListAccesses(mmaps, memory, m, attributes, start, n - 1);
    if q < |before| {
      ListAccessesAre(mmaps, memory, m, attributes, start, n - 1, q);
    } else {
      FourToARound(q, n - 1);
      EntryAccessesAre(mmaps, memory, m, attributes, WordAt(start, n - 1), q - 4 * (n - 1));
    }
  }

  lemma FourToARound(q: nat, n: nat)
    requires 4 * n <= q < 4 * n + 4
    ensures q / 4 == n && q % 4 == q - 4 * n
  {
  }

  lemma EntryAccessesAre(mmaps: seq<Mapping>, memory: Memory, m: Mapping, attributes: u64, p: u64, q: nat)
    requires q < |EntryAccesses(mmaps, memory, m, attributes, p)|
    ensures var a, attr := EntryAccesses(mmaps, memory, m, attributes, p)[q], Add(attributes, memory.attrIndex(Translate(m, p)));
            && (q > 0 ==> memory.word(Translate(m, p)) != 0)
            && (q == 0 ==> a == Access(Some(m), p, 8))
            && (q == 1 ==> a == Access(Some(m), p, 48))
            && (q == 2 ==> a == Access(None, attr, 24))
            && (q == 3 ==>
                  var x := DerefGpu(mmaps, None, attr, 24);
                  x.Some? && a == Access(None, memory.attr(x.value).elements, memory.attr(x.value).size))
  {
    hide Translate, DerefGpu, Passes;
  }

  /**
   * Everything that tracing a job chain dereferences, access by access: 32 bytes of header at its
   * address; behind it 16 bytes for a job of type 2, 304 for types 5 and 7, and 256 for all
   * others, which have no more. For types 5 and 7, if there is a shader, 24 bytes of it and 832 at
   * the blob it names. Then, if there is an attribute list, entry by entry the word, the same
   * address with 48 bytes, the attribute the entry names, and the elements that attribute names.
   */
  lemma ChainAccessesAre(mmaps: seq<Mapping>, memory: Memory, jc: u64, n: nat, q: nat)
    requires q < |ChainAccesses(mmaps, memory, jc, n)|
    ensures var acc, owner := ChainAccesses(mmaps, memory, jc, n), Lookup(mmaps, jc);
            && (q == 0 ==> acc[q] == Access(owner, jc, 32))
            && (q > 0 ==> owner.Some?)
            && (owner.Some? ==>
                  var m := owner.value;
                  var t, v := memory.jobType(Translate(m, jc)), memory.vertex(Translate(m, Add(jc, 32)));
                  var before := if v.shaderMeta == 0 then 2 else 4;
                  && (q == 1 ==> acc[q] == Access(owner, Add(jc, 32), if t == 2 then 16 else if t == 5 || t == 7 then 304 else 256))
                  && (q > 1 ==> t == 5 || t == 7)
                  && (q == 2 && v.shaderMeta != 0 ==> acc[q] == Access(None, v.shaderMeta, 24))
                  && (q == 3 && v.shaderMeta != 0 ==>
                        var x := DerefGpu(mmaps, None, v.shaderMeta, 24);
                        x.Some? && acc[q] == Access(None, memory.shader(x.value), 832))
                  && (q >= before ==>
                        && v.attributeMeta != 0
                        && match Lookup(mmaps, v.attributeMeta)
                           case None => q == before && acc[q] == Access(None, v.attributeMeta, 8)
                           case Some(list) =>
                             var r := q - before;
                             var p := WordAt(v.attributeMeta, r / 4);
                             var attr := Add(v.attributes, memory.attrIndex(Translate(list, p)));
                             && (r % 4 > 0 ==> memory.word(Translate(list, p)) != 0)
                             && (r % 4 == 0 ==> acc[q] == Access(Some(list), p, 8))
                             && (r % 4 == 1 ==> acc[q] == Access(Some(list), p, 48))
                             && (r % 4 == 2 ==> acc[q] == Access(None, attr, 24))
                             && (r % 4 == 3 ==>
                                   var x := DerefGpu(mmaps, None, attr, 24);
                                   x.Some? && acc[q] == Access(None, memory.attr(x.value).elements, memory.attr(x.value).size))))
  {
    hide Translate, DerefGpu, Passes, VertexAccesses, Lookup;
    var owner := Lookup(mmaps, jc);
    if q > 1 {
      VertexAccessesAre(mmaps, memory, owner.value, Add(jc, 32), n, q - 1);
    }
    if q == 1 { VertexFirst(mmaps, memory, owner.value, Add(jc, 32), n); }
  }

  lemma VertexFirst(mmaps: seq<Mapping>, memory: Memory, m: Mapping, payload: u64, n: nat)
    ensures VertexAccesses(mmaps, memory, m, payload, n) != []
    ensures VertexAccesses(mmaps, memory, m, payload, n)[0] == Access(Some(m), payload, 304)
  {
    hide Translate, DerefGpu, Passes, ShaderAccesses, AttributeAccesses, ShaderDecodes;
  }

  lemma ShaderAccessesAre(mmaps: seq<Mapping>, memory: Memory, shaderMeta: u64, q: nat)
    ensures |ShaderAccesses(mmaps, memory, shaderMeta)| <= if shaderMeta == 0 then 0 else 2
    ensures ShaderDecodes(mmaps, memory, shaderMeta) ==>
              |ShaderAccesses(mmaps, memory, shaderMeta)| == if shaderMeta == 0 then 0 else 2
    ensures var acc := ShaderAccesses(mmaps, memory, shaderMeta);
            && (q == 0 < |acc| ==> acc[q] == Access(None, shaderMeta, 24))
            && (q == 1 < |acc| ==>
                  var x := DerefGpu(mmaps, None, shaderMeta, 24); x.Some? && acc[q] == Access(None, memory.shader(x.value), 832))
  {
    hide DerefGpu;
  }

  /** The same from the payload of a vertex or tiler job on. */
  lemma VertexAccessesAre(mmaps: seq<Mapping>, memory: Memory, m: Mapping, payload: u64, n: nat, q: nat)
    requires 0 < q < |VertexAccesses(mmaps, memory, m, payload, n)|
    ensures var a, v := VertexAccesses(mmaps, memory, m, payload, n)[q], memory.vertex(Translate(m, payload));
            var before := if v.shaderMeta == 0 then 1 else 3;
            && (q == 1 && v.shaderMeta != 0 ==> a == Access(None, v.shaderMeta, 24))
            && (q == 2 && v.shaderMeta != 0 ==>
                  var x := DerefGpu(mmaps, None, v.shaderMeta, 24); x.Some? && a == Access(None, memory.shader(x.value), 832))
            && (q >= before ==>
                  && v.attributeMeta != 0
                  && match Lookup(mmaps, v.attributeMeta)
                     case None => q == before && a == Access(None, v.attributeMeta, 8)
                     case Some(list) =>
                       var r := q - before;
                       var p := WordAt(v.attributeMeta, r / 4);
                       var attr := Add(v.attributes, memory.attrIndex(Translate(list, p)));
                       && (r % 4 > 0 ==> memory.word(Translate(list, p)) != 0)
                       && (r % 4 == 0 ==> a == Access(Some(list), p, 8))
                       && (r % 4 == 1 ==> a == Access(Some(list), p, 48))
                       && (r % 4 == 2 ==> a == Access(None, attr, 24))
                       && (r % 4 == 3 ==>
                             var x := DerefGpu(mmaps, None, attr, 24);
                             x.Some? && a == Access(None, memory.attr(x.value).elements, memory.attr(x.value).size)))
  {
    hide Translate, DerefGpu, Passes, ListAccesses, ShaderAccesses, ShaderDecodes;
    var v := memory.vertex(Translate(m, payload));
    var before := if v.shaderMeta == 0 then 1 else 3;
    ShaderAccessesAre(mmaps, memory, v.shaderMeta, q - 1);
    if q >= before && Lookup(mmaps, v.attributeMeta).Some? {
      ListAccessesAre(mmaps, memory, Lookup(mmaps, v.attributeMeta).value, v.attributes, v.attributeMeta, n + 1, q - before);
    }
  }

  /**
   * A list that lies in its mapping, whose every entry could be decoded, is nevertheless only
   * read to its end when its last entry is followed by 40 more mapped bytes: each entry is
   * dereferenced with the size of the tracker's own structure.
   */
  lemma InBoundsListDecodesIff(mmaps: seq<Mapping>, memory: Memory, m: Mapping, attributes: u64, start: u64, n: nat)
    requires Roomy(mmaps) && Lookup(mmaps, start) == Some(m) && EntryAt(start, n) + ENTRY_SIZE <= End(m)
    requires forall i :: 0 <= i < n ==> EntryIsGood(mmaps, memory, m, attributes, EntryAt(start, i))
    requires memory.word(Translate(m, EntryAt(start, n))) == 0
    ensures ListDecodes(mmaps, memory, attributes, start)
            <==> n == 0 || EntryAt(start, n - 1) + ENTRY_DEREF_SIZE <= End(m)
  {
    forall i | 0 <= i <= n ensures var p := EntryAt(start, i);
                                   && Passes(m, p, ENTRY_SIZE)
                                   && (Passes(m, p, ENTRY_DEREF_SIZE) <==> p + ENTRY_DEREF_SIZE <= End(m)) {
      InRangePasses(m, EntryAt(start, i));
    }
    assert IsTerminator(memory, m, EntryAt(start, n));
    if n == 0 || EntryAt(start, n - 1) + ENTRY_DEREF_SIZE <= End(m) {
      assert ListEnds(mmaps, memory, m, attributes, start, n);
    } else {
      forall k: nat ensures !ListEnds(mmaps, memory, m, attributes, start, k) {
        if k < n { assert EntryIsGood(mmaps, memory, m, attributes, EntryAt(start, k)); }
        if k > n { assert !EntryDecodes(mmaps, memory, m, attributes, EntryAt(start, n)); }
        if k == n { assert !EntryDecodes(mmaps, memory, m, attributes, EntryAt(start, n - 1)); }
      }
    }
  }

  lemma InRangePasses(m: Mapping, p: u64)
    requires m.gpuVa <= p && p + ENTRY_SIZE <= End(m) && Fits(m) && m.length + MAX_ACCESS < TWO64
    ensures Passes(m, p, ENTRY_SIZE)
    ensures Passes(m, p, ENTRY_DEREF_SIZE) <==> p + ENTRY_DEREF_SIZE <= End(m)
  {
    CheckExact(m, p, ENTRY_SIZE);
    CheckExact(m, p, ENTRY_DEREF_SIZE);
  }

  /** One entry and its terminator fill a 16-byte mapping: well formed, and yet it aborts. */
  lemma ShortListAborts(memory: Memory)
    requires memory.word(0x1000) != 0 && memory.word(0x1008) == 0
    ensures var m := Mapping(16, 0x1000, 0x1000, 0, SAME_VA);
            && Contained(m, 0x1000, ENTRY_SIZE) && Contained(m, 0x1008, ENTRY_SIZE)
            && forall attributes: u64 :: !ListDecodes([m], memory, attributes, 0x1000)
  {
    var m := Mapping(16, 0x1000, 0x1000, 0, SAME_VA);
    assert Find(GpuContaining(0x1000), [m]) == 0;
    forall attributes: u64 ensures !ListDecodes([m], memory, attributes, 0x1000) {
      NotAList([m], memory, m, attributes, 0x1000, []);
    }
  }
}
