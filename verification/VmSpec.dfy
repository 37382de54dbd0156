// The virtual layer as functions on machine states: vm_map, vm_unmap,
// vm_create_space, vm_switch and the page-fault handler, with CR3 and the TLB.
module VmSpec {
  import opened Words
  import opened FrameSpec
  import opened Paging

  const HEAP_PAGES: nat := 4096

  /** The TLB maps the index path of a page to its cached translation. */
  datatype State = State(
    ph: Phys,
    kernel: nat,
    cr3: nat,
    tlb: map<seq<Index>, Mapping>,
    faults: nat,
    inFault: bool)

  /** Bits 47..63 are equal. */
  predicate Canonical(va: nat) {
    va < 0x8000_0000_0000 || 0xFFFF_8000_0000_0000 <= va < WORD_LIMIT
  }

  /** The four table indices of an address: bits 39..47, 30..38, 21..29 and 12..20. */
  function PathOf(va: nat): (p: seq<Index>)
    ensures |p| == 4
  {
    [va / 0x80_0000_0000 % 512, va / 0x4000_0000 % 512, va / 0x20_0000 % 512, va / 4096 % 512]
  }

  /** invlpg: drops the page of va; on a non-canonical address it does nothing. */
  function Invalidate(tlb: map<seq<Index>, Mapping>, va: nat): map<seq<Index>, Mapping> {
    if Canonical(va) then tlb - {PathOf(va)} else tlb
  }

  predicate ValidSpace(s: State, space: nat) {
    Sized(s.ph) && (space != 0 ==> IsTable(s.ph, space))
  }

  function VmMap(s: State, space: nat, va: nat, pa: nat, flags: Word): (r: (State, bool))
    requires ValidSpace(s, space)
    ensures Sized(r.0.ph)
  {
    if space == 0 || va % PAGE_SIZE != 0 || pa % PAGE_SIZE != 0 || pa >= MAX_PHYS || va < MAX_PHYS then (s, false)
    else
      var path := PathOf(va);
      var (ph, end) := Walk(s.ph, space, path, true);
      if end.None? || ph.mem[end.value][path[3]].present then (s.(ph := ph), false)
      else
        var mem := SetEntry(ph.mem, end.value, path[3], Pte(pa / PAGE_SIZE, flags));
        (s.(ph := ph.(mem := mem), tlb := Invalidate(s.tlb, va)), true)
  }

  function VmUnmap(s: State, space: nat, va: nat): (r: (State, nat))
    requires ValidSpace(s, space)
    ensures Sized(r.0.ph)
  {
    if space == 0 then (s, 0)
    else
      var path := PathOf(va);
      var (ph, end) := Walk(s.ph, space, path, false);
      if end.None? || !ph.mem[end.value][path[3]].present then (s.(ph := ph), 0)
      else
        var mem := SetEntry(ph.mem, end.value, path[3], ZERO);
        (s.(ph := ph.(mem := mem), tlb := Invalidate(s.tlb, va)), ph.mem[end.value][path[3]].frame * PAGE_SIZE)
  }

  /** The root of a new space: slot 0 and the upper half come from the kernel's. */
  function RootFrom(kernel: Frame): (root: Frame)
    ensures forall i: Index :: root[i] == if i == 0 || i >= 256 then kernel[i] else ZERO
  {
    seq(512, i requires 0 <= i < 512 => if i == 0 || i >= 256 then kernel[i] else ZERO)
  }

  function VmCreateSpace(s: State): (r: (State, nat))
    requires ValidSpace(s, s.kernel)
    ensures Sized(r.0.ph)
  {
    if s.kernel == 0 || LowestFree(s.ph.used).None? then (s, 0)
    else
      var f := LowestFree(s.ph.used).value;
      var zeroed := s.ph.mem[f := ZeroFrame()];
      var ph := Phys(zeroed[f := RootFrom(zeroed[s.kernel])], s.ph.used[f := true], s.ph.own[f := Table([], 0)]);
      (s.(ph := ph), f)
  }

  function VmSwitch(s: State, space: nat): State {
    if space == 0 then s else s.(cr3 := space, tlb := map[])
  }

  /** pmm_alloc_frame: claims the lowest free frame f for the given purpose. */
  function Claim(ph: Phys, f: nat, o: Owner): (r: Phys)
    requires Sized(ph) && f < FRAME_COUNT
    ensures Sized(r)
  {
    ph.(used := ph.used[f := true], own := ph.own[f := o])
  }

  /** pmm_free_frame. */
  function Release(ph: Phys, f: nat): (r: Phys)
    requires Sized(ph) && f < FRAME_COUNT
    ensures Sized(r)
  {
    ph.(used := ph.used[f := false], own := ph.own[f := Free])
  }

  predicate InHeap(va: nat) { HEAP_BASE <= va < HEAP_BASE + HEAP_SIZE }

  /** The handler turns away protection faults (bit 0), reserved bits (bit 3) and fetches (bit 4). */
  predicate Refused(err: nat) { err % 2 == 1 || err / 8 % 2 == 1 || err / 16 % 2 == 1 }

  /** Under the invariant CR3 holds a root table, so the test for it never fails. */
  function VmHandleFault(s: State, va: nat, err: nat): (r: (State, bool))
    requires ValidSpace(s, s.cr3)
    ensures Sized(r.0.ph)
  {
    if s.inFault || Refused(err) || !InHeap(va) || LowestFree(s.ph.used).None? then (s, false)
    else
      var f := LowestFree(s.ph.used).value;
      var claimed := Claim(s.ph, f, HeapPage((va - HEAP_BASE) / PAGE_SIZE));
      var ph := claimed.(mem := claimed.mem[f := ZeroFrame()]);
      if s.cr3 != 0 && !IsTable(ph, s.cr3) then (s, false)
      else
        var (s', ok) := VmMap(s.(ph := ph, inFault := true), s.cr3, va - va % PAGE_SIZE, f * PAGE_SIZE, TABLE_FLAGS);
        if !ok then (s'.(ph := Release(s'.ph, f), inFault := false), false)
        else (s'.(faults := (s.faults + 1) % WORD_LIMIT, inFault := false), true)
  }

  // ---- Invariants ----

  ghost predicate Inv(s: State) {
    PhysInv(s.ph) && IsSpace(s.ph, s.kernel) && IsSpace(s.ph, s.cr3) && !s.inFault
  }

  /** Every cached translation is the one the current tables give. */
  ghost predicate Coherent(s: State)
    requires Sized(s.ph)
  {
    forall p :: p in s.tlb ==> |p| == 4 && Resolve(s.ph.mem, s.cr3, p) == Some(s.tlb[p])
  }
}
