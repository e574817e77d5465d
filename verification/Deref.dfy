/** Address lookup and the checked dereference of panwrap/panwrap-mmap.h, in 64-bit arithmetic. */
module Deref {
  import opened Wrappers
  import opened Word64
  import opened TrackerModel

  /** The bounds check `size + (gpu_va - mem->gpu_va) > mem->length`, when it lets the access through. */
  predicate Passes(m: Mapping, va: u64, size: u64) {
    Add(size, Sub(va, m.gpuVa)) <= m.length
  }

  /** `gpu_va + (mem->gpu_va - mem->addr)`, the pointer handed back. */
  function Translate(m: Mapping, va: u64): u64 {
    Add(va, Sub(m.gpuVa, m.addr))
  }

  /** The mapping an access is checked against: the one given, or the one looked up. */
  function Owner(mmaps: seq<Mapping>, mem: Option<Mapping>, va: u64): Option<Mapping> {
    if mem.Some? then mem else
    var k := Find(GpuContaining(va), mmaps);
    if k < |mmaps| then Some(mmaps[k]) else None
  }

  /** __panwrap_deref_gpu_mem; None stands for the abort in __panwrap_deref_mem_err. */
  function DerefGpu(mmaps: seq<Mapping>, mem: Option<Mapping>, va: u64, size: u64): Option<u64> {
    match Owner(mmaps, mem, va)
    case None => None
    case Some(m) => if Passes(m, va, size) then Some(Translate(m, va)) else None
  }

  /** The range of the mapping ends below the top of the address space. */
  predicate Fits(m: Mapping) {
    m.gpuVa + m.length < TWO64
  }

  function End(m: Mapping): int {
    m.gpuVa + m.length
  }

  /** The `size` bytes at `va` are all inside the mapping. */
  predicate Contained(m: Mapping, va: u64, size: u64) {
    m.gpuVa <= va && va + size <= End(m)
  }

  /** The access starts no lower than the mapping and the sum in the check does not wrap. */
  predicate CheckIsSound(m: Mapping, va: u64, size: u64) {
    m.gpuVa <= va && (va - m.gpuVa) + size < TWO64
  }

  /**
   * The accesses the check lets through although they are not contained: those that start below
   * the mapping and reach to a point in it, and those so long that the sum wraps to at most its length.
   */
  predicate SlipsThrough(m: Mapping, va: u64, size: u64) {
    if va < m.gpuVa then m.gpuVa - va <= size <= m.gpuVa - va + m.length
    else TWO64 <= (va - m.gpuVa) + size <= TWO64 + m.length
  }

  /**
   * The pointer handed back is the intended `addr + (gpu_va - base)` exactly when twice the
   * distance between the two bases is 0 modulo 2^64, whatever the address.
   */
  lemma TranslationExact(m: Mapping, va: u64)
    ensures Translate(m, va) == Add(m.addr, Sub(va, m.gpuVa)) <==> 2 * (m.gpuVa - m.addr) % TWO64 == 0
  {
    var d := m.gpuVa - m.addr;
    assert 2 * d % TWO64 == 0 <==> d == 0 || 2 * d == TWO64 || 2 * d == -TWO64;
  }

  /** A mapping whose bases differ: the third byte of the mapping is translated to elsewhere. */
  lemma TranslationMisses()
    ensures var m := Mapping(0x1000, 0x7000, 0x3000, 0, 0);
            && DerefGpu([m], None, 0x3002, 1) == Some(0xFFFF_FFFF_FFFF_F002)
            && Add(m.addr, Sub(0x3002, m.gpuVa)) == 0x7002
  {
    assert Find(GpuContaining(0x3002), [Mapping(0x1000, 0x7000, 0x3000, 0, 0)]) == 0;
  }

  /**
   * The bounds check of a mapping that does not wrap passes exactly the contained accesses and
   * the ones SlipsThrough describes, which are never contained. So it means containment exactly
   * for the accesses that do not slip through, among them all that start in or above the mapping
   * with a sum that does not wrap.
   */
  lemma CheckExact(m: Mapping, va: u64, size: u64)
    requires Fits(m)
    ensures Passes(m, va, size) <==> Contained(m, va, size) || SlipsThrough(m, va, size)
    ensures !(Contained(m, va, size) && SlipsThrough(m, va, size))
    ensures (Passes(m, va, size) <==> Contained(m, va, size)) <==> !SlipsThrough(m, va, size)
    ensures CheckIsSound(m, va, size) ==> !SlipsThrough(m, va, size)
  {
  }

  /** An access that starts below its mapping and reaches into it passes the check. */
  lemma CheckPassesBelow()
    ensures var m := Mapping(0x1000, 0x3000, 0x3000, 0, 0);
            Fits(m) && Passes(m, 0x2FF8, 16) && !Contained(m, 0x2FF8, 16)
  {
  }

  /** The lookup never returns a mapping whose range wraps. */
  lemma FoundFits(m: Mapping, va: u64)
    requires Matches(GpuContaining(va), m)
    ensures Fits(m) && m.gpuVa <= va <= End(m)
  {
  }

  /**
   * When a dereference without an explicit mapping goes through: the lookup has found a mapping,
   * and the access is contained in it or its size makes the sum of the check wrap. In the first
   * case all of its bytes are in the mapping, although the lookup also accepts an end address.
   */
  lemma NullDerefContained(mmaps: seq<Mapping>, va: u64, size: u64)
    ensures var k := Find(GpuContaining(va), mmaps);
            if k == |mmaps| then DerefGpu(mmaps, None, va, size) == None else
            var m := mmaps[k];
            && (DerefGpu(mmaps, None, va, size).Some?
                <==> Contained(m, va, size) || (va - m.gpuVa) + size >= TWO64)
            && (DerefGpu(mmaps, None, va, size).Some? ==>
                  (Contained(m, va, size) <==> (va - m.gpuVa) + size < TWO64))
  {
    var k := Find(GpuContaining(va), mmaps);
    if k < |mmaps| {
      FoundFits(mmaps[k], va);
      CheckExact(mmaps[k], va, size);
    }
  }

  /** A size that wraps: an access of nearly 2^64 bytes goes through in a mapping of one page. */
  lemma WrappingSizePasses()
    ensures var m := Mapping(0x1000, 0x1000, 0x1000, 0, SAME_VA);
            && DerefGpu([m], None, 0x1800, 0xFFFF_FFFF_FFFF_F800) == Some(0x1800)
            && !Contained(m, 0x1800, 0xFFFF_FFFF_FFFF_F800)
  {
    assert Find(GpuContaining(0x1800), [Mapping(0x1000, 0x1000, 0x1000, 0, SAME_VA)]) == 0;
  }

  /**
   * On a SAME_VA mapping the pointer is always the GPU address, and the access lies in the CPU
   * range exactly when its size does not make the sum of the check wrap.
   */
  lemma NullDerefSameVa(mmaps: seq<Mapping>, va: u64, size: u64)
    requires DerefGpu(mmaps, None, va, size).Some?
    requires SameVaAgree(State([], mmaps))
    ensures var m := mmaps[Find(GpuContaining(va), mmaps)];
            IsSameVa(m.flags) ==>
              && DerefGpu(mmaps, None, va, size) == Some(va)
              && (m.addr <= va && va + size <= m.addr + m.length <==> (va - m.gpuVa) + size < TWO64)
  {
    NullDerefContained(mmaps, va, size);
    var k := Find(GpuContaining(va), mmaps);
    assert State([], mmaps).mmaps[k] == mmaps[k];
  }

  predicate DisjointGpu(m: Mapping, n: Mapping) {
    End(m) <= n.gpuVa || End(n) <= m.gpuVa
  }

  ghost predicate GpuDisjoint(mmaps: seq<Mapping>) {
    forall i, j :: 0 <= i < j < |mmaps| ==> DisjointGpu(mmaps[i], mmaps[j])
  }

  /** Over disjoint ranges, whatever else the lookup may return for an address of `mmaps[j]` ends there. */
  lemma OtherMatchesEndThere(mmaps: seq<Mapping>, va: u64, j: nat, k: nat)
    requires GpuDisjoint(mmaps) && j < |mmaps| && k < |mmaps| && k != j
    requires mmaps[j].gpuVa <= va < End(mmaps[j]) && Matches(GpuContaining(va), mmaps[k])
    ensures End(mmaps[k]) == va == mmaps[j].gpuVa
  {
    FoundFits(mmaps[k], va);
    assert DisjointGpu(mmaps[if j < k then j else k], mmaps[if j < k then k else j]);
  }

  /**
   * The lookup returns the owner of an address unless a more recently mapped range ends exactly
   * there, and then that range wins.
   */
  lemma OwnerFoundIff(mmaps: seq<Mapping>, va: u64, j: nat)
    requires GpuDisjoint(mmaps) && j < |mmaps| && Fits(mmaps[j])
    requires mmaps[j].gpuVa <= va < End(mmaps[j])
    ensures var k := Find(GpuContaining(va), mmaps);
            && k <= j
            && (k == j <==> forall i :: 0 <= i < j ==> End(mmaps[i]) != va)
            && (k < j ==> End(mmaps[k]) == va == mmaps[j].gpuVa)
  {
    var k := Find(GpuContaining(va), mmaps);
    assert Matches(GpuContaining(va), mmaps[j]);
    if k < j { OtherMatchesEndThere(mmaps, va, j, k); }
    forall i | 0 <= i < j && End(mmaps[i]) == va ensures Matches(GpuContaining(va), mmaps[i]) {
      assert Fits(mmaps[i]);
    }
  }

  /**
   * A dereference wholly inside the mapping `mmaps[j]` succeeds exactly when no more recently
   * mapped range ends at its first byte.
   */
  lemma InsideDerefSucceedsIff(mmaps: seq<Mapping>, va: u64, size: u64, j: nat)
    requires GpuDisjoint(mmaps) && j < |mmaps| && Fits(mmaps[j]) && size > 0
    requires Contained(mmaps[j], va, size)
    ensures DerefGpu(mmaps, None, va, size).Some? <==> forall i :: 0 <= i < j ==> End(mmaps[i]) != va
  {
    OwnerFoundIff(mmaps, va, j);
    NullDerefContained(mmaps, va, size);
  }

  /** Two adjacent mappings: the first byte of the upper one is out of reach while the lower one is newer. */
  lemma BoundaryIsShadowed()
    ensures var lower, upper := Mapping(0x1000, 0x1000, 0x1000, 0, SAME_VA), Mapping(0x1000, 0x2000, 0x2000, 0, SAME_VA);
            && Contained(upper, 0x2000, 8)
            && DerefGpu([lower, upper], None, 0x2000, 8) == None
            && DerefGpu([upper, lower], None, 0x2000, 8) == Some(0x2000)
  {
    var lower, upper := Mapping(0x1000, 0x1000, 0x1000, 0, SAME_VA), Mapping(0x1000, 0x2000, 0x2000, 0, SAME_VA);
    assert Find(GpuContaining(0x2000), [lower, upper]) == 0;
    assert Find(GpuContaining(0x2000), [upper, lower]) == 0;
  }
}
