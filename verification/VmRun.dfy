// Whole runs of the virtual layer: every interleaving of mapping, unmapping,
// space creation, CR3 switches, processor accesses (with fault and retry), TLB
// evictions and the callers' own use of frames.
module VmRun {
  import opened Words
  import opened FrameSpec
  import opened Paging
  import opened VmSpec
  import opened VmMapping
  import opened VmSpaces
  import opened VmFaults

  // ---- The processor ----

  /** A translation comes from the TLB if it is there, else from the tables. */
  function Lookup(s: State, p: seq<Index>): Option<Mapping>
    requires Sized(s.ph) && |p| == 4
  {
    if p in s.tlb then Some(s.tlb[p]) else Resolve(s.ph.mem, s.cr3, p)
  }

  /** The access went through, stopped the kernel, or faulted again after a handled fault. */
  datatype Outcome = Hit(m: Mapping) | Halt | Refault

  function Access(s: State, va: nat, err: nat): (r: (State, Outcome))
    requires ValidSpace(s, s.cr3)
    ensures Sized(r.0.ph)
  {
    var p := PathOf(va);
    var found := Lookup(s, p);
    if found.Some? then (s.(tlb := s.tlb[p := found.value]), Hit(found.value))
    else
      var (s', handled) := VmHandleFault(s, va, err);
      if !handled then (s', Halt)
      else
        var retried := Lookup(s', p);
        if retried.Some? then (s'.(tlb := s'.tlb[p := retried.value]), Hit(retried.value)) else (s', Refault)
  }

  // ---- Steps ----

  datatype Action =
    | MapPage(space: nat, va: nat, pa: nat, flags: Word)
    | UnmapPage(space: nat, va: nat)
    | NewSpace
    | Switch(space: nat)
    | Touch(va: nat, err: nat)
    | Evict(path: seq<Index>)
    | AllocData
    | FreeData(frame: nat)
    | Poke(frame: nat, i: Index, value: Word)

  /**
   * What callers owe: canonical addresses, and only spaces and frames they were
   * given.
   */
  predicate Legal(s: State, a: Action) {
    Sized(s.ph) && ValidSpace(s, s.kernel) && ValidSpace(s, s.cr3) &&
    match a
    case MapPage(space, va, pa, flags) => (space == 0 || IsSpace(s.ph, space)) && Canonical(va)
    case UnmapPage(space, va) => (space == 0 || IsSpace(s.ph, space)) && Canonical(va)
    case NewSpace => true
    case Switch(space) => space == 0 || IsSpace(s.ph, space)
    case Touch(va, err) => Canonical(va)
    case Evict(path) => true
    case AllocData => true
    case FreeData(f) => f < FRAME_COUNT && s.ph.own[f] == Data
    case Poke(f, i, v) => f < FRAME_COUNT && (s.ph.own[f] == Data || s.ph.own[f].HeapPage?)
  }

  function Step(s: State, a: Action): (s': State)
    requires Legal(s, a)
    ensures Sized(s'.ph)
  {
    match a
    case MapPage(space, va, pa, flags) => VmMap(s, space, va, pa, flags).0
    case UnmapPage(space, va) => VmUnmap(s, space, va).0
    case NewSpace => VmCreateSpace(s).0
    case Switch(space) => VmSwitch(s, space)
    case Touch(va, err) => Access(s, va, err).0
    case Evict(path) => s.(tlb := s.tlb - {path})
    case AllocData =>
      if LowestFree(s.ph.used).None? then s
      else s.(ph := Claim(s.ph, LowestFree(s.ph.used).value, Data))
    case FreeData(f) => s.(ph := Release(s.ph, f))
    case Poke(f, i, v) => s.(ph := s.ph.(mem := SetEntry(s.ph.mem, f, i, v)))
  }

  predicate LegalRun(s: State, run: seq<Action>)
    decreases |run|
  {
    Sized(s.ph) && (run == [] || (Legal(s, run[0]) && LegalRun(Step(s, run[0]), run[1..])))
  }

  function Run(s: State, run: seq<Action>): (s': State)
    requires LegalRun(s, run)
    ensures Sized(s'.ph)
    decreases |run|
  {
    if run == [] then s else Run(Step(s, run[0]), run[1..])
  }

  // ---- Every step keeps the invariant ----

  lemma {:induction false} AccessKeepsInv(s: State, va: nat, err: nat)
    requires Inv(s)
    ensures Inv(Access(s, va, err).0) && Evolves(s.ph, Access(s, va, err).0.ph)
  {
    hide VmHandleFault, Linked;
    FaultKeepsInv(s, va, err);
  }

  /** The steps that only concern frames that are not tables. */
  predicate FrameStep(a: Action) { a.AllocData? || a.FreeData? || a.Poke? }

  lemma {:induction false} FrameStepSameTables(s: State, a: Action)
    requires Inv(s) && Legal(s, a) && FrameStep(a)
    ensures SameTables(s.ph, Step(s, a).ph) && PhysInv(Step(s, a).ph)
    ensures Step(s, a) == s.(ph := Step(s, a).ph)
  {
    SameTablesInv(s.ph, Step(s, a).ph);
  }

  /** pmm_alloc_frame takes the lowest free frame for its caller, and freeing that frame restores everything. */
  lemma {:induction false} AllocThenFree(s: State)
    requires Inv(s) && CountFree(s.ph.used) > 0
    ensures LowestFree(s.ph.used).Some?
    ensures var f, s1 := LowestFree(s.ph.used).value, Step(s, AllocData);
      && s1.ph.own == s.ph.own[f := Data] && CountFree(s1.ph.used) == CountFree(s.ph.used) - 1
      && Legal(s1, FreeData(f)) && Step(s1, FreeData(f)).ph == s.ph
  {
    CountFreeZero(s.ph.used);
    var f := LowestFree(s.ph.used).value;
    CountFreeUpdate(s.ph.used, f, true);
    assert s.ph.used[f := true][f := false] == s.ph.used && s.ph.own[f := Data][f := Free] == s.ph.own;
  }

  /** A frame given back is free again, and no later than it would be taken next. */
  lemma {:induction false} FreeGivesBack(s: State, f: nat)
    requires Inv(s) && Legal(s, FreeData(f))
    ensures var s1 := Step(s, FreeData(f));
      && s1.ph.own == s.ph.own[f := Free] && CountFree(s1.ph.used) == CountFree(s.ph.used) + 1
      && LowestFree(s1.ph.used).Some? && LowestFree(s1.ph.used).value <= f
  {
    CountFreeUpdate(s.ph.used, f, false);
    assert !Step(s, FreeData(f)).ph.used[f];
  }

  /** A store changes one word of one frame; an eviction drops one translation from the TLB. */
  lemma {:induction false} StoreAndEvict(s: State, f: nat, i: Index, v: Word, p: seq<Index>)
    requires Legal(s, Poke(f, i, v))
    ensures var mem := Step(s, Poke(f, i, v)).ph.mem;
      mem[f][i] == v && forall g: nat, j: Index :: g < FRAME_COUNT && (g != f || j != i) ==> mem[g][j] == s.ph.mem[g][j]
    ensures var tlb := Step(s, Evict(p)).tlb;
      p !in tlb && forall q :: q in s.tlb && q != p ==> q in tlb && tlb[q] == s.tlb[q]
  {
  }

  lemma {:induction false} StepKeepsInv(s: State, a: Action)
    requires Inv(s) && Legal(s, a)
    ensures Inv(Step(s, a)) && Evolves(s.ph, Step(s, a).ph)
  {
    hide VmMap, VmUnmap, VmCreateSpace, Access, Linked;
    match a
    case MapPage(space, va, pa, flags) =>
      if space != 0 {
        MapKeepsInv(s, space, va, pa, flags);
        MapEvolves(s, space, va, pa, flags);
      }
      MapKeepsRegisters(s, space, va, pa, flags);
    case UnmapPage(space, va) =>
      if space != 0 {
        UnmapKeepsInv(s, space, va);
        UnmapEvolves(s, space, va);
      }
      UnmapKeepsRegisters(s, space, va);
    case NewSpace =>
      CreateKeepsInv(s);
    case Touch(va, err) =>
      AccessKeepsInv(s, va, err);
    case Switch(space) =>
    case Evict(path) =>
    case _ =>
      FrameStepSameTables(s, a);
  }

  /** Over every run the tables stay well linked and the bits agree with the frames' purposes. */
  lemma {:induction false} RunKeepsInv(s: State, run: seq<Action>)
    requires Inv(s) && LegalRun(s, run)
    ensures Inv(Run(s, run))
    decreases |run|
  {
    if run != [] {
      StepKeepsInv(s, run[0]);
      RunKeepsInv(Step(s, run[0]), run[1..]);
    }
  }

  // ---- TLB coherence ----

  lemma {:induction false} MapKeepsCoherent(s: State, space: nat, va: nat, pa: nat, flags: Word)
    requires Inv(s) && Coherent(s) && IsSpace(s.ph, space)
    ensures Coherent(VmMap(s, space, va, pa, flags).0)
  {
    hide VmMap, Linked, PathOf, Resolve;
    MapKeepsRegisters(s, space, va, pa, flags);
    var s' := VmMap(s, space, va, pa, flags).0;
    forall p | p in s'.tlb
      ensures |p| == 4 && Resolve(s'.ph.mem, s'.cr3, p) == Some(s'.tlb[p])
    {
      assert p in s.tlb;
      MapExact(s, space, va, pa, flags, s.cr3, p);
      if p == PathOf(va) && Shares(s.ph.mem, space, s.cr3, p[0]) {
        SharedSlotAgrees(s.ph.mem, space, s.cr3, p);
      }
    }
  }

  /** Unmapping va in `space` takes a mapping away that the current space uses and has cached. */
  predicate DropsCached(s: State, space: nat, va: nat)
    requires Sized(s.ph) && space < FRAME_COUNT && s.cr3 < FRAME_COUNT
  {
    PathOf(va) in s.tlb && SmallMapped(s.ph, space, PathOf(va)) && Shares(s.ph.mem, space, s.cr3, PathOf(va)[0])
  }

  /**
   * vm_unmap keeps the TLB coherent exactly if the address is canonical or nothing
   * cached was lost: the page that loses its mapping is the page that is
   * invalidated, in whatever space the mapping was removed.
   */
  lemma {:induction false} UnmapCoherentIff(s: State, space: nat, va: nat)
    requires Inv(s) && Coherent(s) && IsSpace(s.ph, space)
    ensures Coherent(VmUnmap(s, space, va).0) <==> Canonical(va) || !DropsCached(s, space, va)
  {
    hide Linked, PathOf, Resolve;
    var s' := VmUnmap(s, space, va).0;
    WalkFinds(s.ph, space, PathOf(va));
    if Leaf(s.ph.mem, space, PathOf(va)).Some? {
      ResolveAtLeaf(s.ph.mem, space, PathOf(va));
    }
    if Canonical(va) || !DropsCached(s, space, va) {
      forall p | p in s'.tlb
        ensures |p| == 4 && Resolve(s'.ph.mem, s'.cr3, p) == Some(s'.tlb[p])
      {
        assert p in s.tlb;
        UnmapExact(s, space, va, s.cr3, p);
      }
    } else {
      UnmapExact(s, space, va, s.cr3, PathOf(va));
      assert PathOf(va) in s'.tlb;
    }
  }

  lemma {:induction false} FaultTlb(s: State, va: nat, err: nat)
    requires Inv(s)
    ensures var (s', ok) := VmHandleFault(s, va, err);
      && s'.tlb == (if ok then s.tlb - {PathOf(va)} else s.tlb)
      && s'.cr3 == s.cr3 && s'.kernel == s.kernel
  {
    hide VmMap, VmHandleFault, PathOf, Linked;
    FaultUnfolds(s, va, err);
    if Tries(s, va, err) {
      var f := LowestFree(s.ph.used).value;
      HeapPathOf(va);
      MapKeepsRegisters(Prepared(s, va, f), s.cr3, va - va % PAGE_SIZE, f * PAGE_SIZE, TABLE_FLAGS);
    }
  }

  lemma {:induction false} FaultKeepsCoherent(s: State, va: nat, err: nat)
    requires Inv(s) && Coherent(s)
    ensures Coherent(VmHandleFault(s, va, err).0)
  {
    hide VmHandleFault, Linked, PathOf, Resolve;
    FaultTlb(s, va, err);
    var s' := VmHandleFault(s, va, err).0;
    forall p | p in s'.tlb
      ensures |p| == 4 && Resolve(s'.ph.mem, s'.cr3, p) == Some(s'.tlb[p])
    {
      assert p in s.tlb;
      FaultExact(s, va, err, s.cr3, p);
    }
  }

  /**
   * An access never faults again after a handled fault, and always ends with the
   * translation the tables give.
   */
  lemma {:induction false} AccessRetrySucceeds(s: State, va: nat, err: nat)
    requires Inv(s) && Coherent(s)
    ensures var (s', out) := Access(s, va, err);
      && Coherent(s')
      && out != Refault
      && (out.Hit? ==> Resolve(s'.ph.mem, s'.cr3, PathOf(va)) == Some(out.m))
      && (out.Halt? <==> Resolve(s.ph.mem, s.cr3, PathOf(va)).None? && !CanHandle(s, va, err))
  {
    hide VmHandleFault, Linked, PathOf, Resolve, CanHandle;
    FaultTlb(s, va, err);
    FaultKeepsCoherent(s, va, err);
    FaultExact(s, va, err, s.cr3, PathOf(va));
    FaultHandledIff(s, va, err);
  }

  /**
   * What is seen after a switch: the first access translates by the space switched to,
   * and finds every page that space maps.
   */
  lemma {:induction false} SwitchSees(s: State, space: nat, va: nat, err: nat)
    requires Inv(s) && IsSpace(s.ph, space)
    ensures Inv(VmSwitch(s, space)) && Coherent(VmSwitch(s, space))
    ensures var (s', out) := Access(VmSwitch(s, space), va, err);
      && s'.cr3 == space
      && (out.Hit? ==> Resolve(s'.ph.mem, space, PathOf(va)) == Some(out.m))
      && (Resolve(s.ph.mem, space, PathOf(va)).Some? ==>
            s'.ph == s.ph && out == Hit(Resolve(s.ph.mem, space, PathOf(va)).value))
  {
    hide VmHandleFault, Linked, PathOf, Resolve;
    var s1 := VmSwitch(s, space);
    AccessRetrySucceeds(s1, va, err);
    FaultTlb(s1, va, err);
  }

  /**
   * The bits of a page-fault error code (section 4.7 of the Intel SDM Volume 3A): the
   * page was present, the access was a write, from user mode, met a reserved bit, or
   * fetched an instruction.
   */
  datatype ErrorCode = ErrorCode(present: bool, write: bool, user: bool, reserved: bool, fetch: bool)

  function CodeOf(e: ErrorCode): nat {
    (if e.present then 1 else 0) + (if e.write then 2 else 0) + (if e.user then 4 else 0)
    + (if e.reserved then 8 else 0) + (if e.fetch then 16 else 0)
  }

  /** A protection fault, a reserved bit or a fetch is never repaired: the kernel stops, and nothing has changed. */
  lemma {:induction false} FetchesStop(s: State, va: nat, e: ErrorCode)
    requires Inv(s) && Coherent(s) && (e.present || e.reserved || e.fetch)
    ensures VmHandleFault(s, va, CodeOf(e)) == (s, false)
    ensures Resolve(s.ph.mem, s.cr3, PathOf(va)) == None ==> Access(s, va, CodeOf(e)) == (s, Halt)
  {
    hide Linked, PathOf, Resolve, VmHandleFault, CodeOf, Coherent;
    RefusedBits(e);
    RefusedUnchanged(s, va, CodeOf(e));
    if Resolve(s.ph.mem, s.cr3, PathOf(va)) == None { UncachedMiss(s, PathOf(va)); }
  }

  lemma {:induction false} RefusedBits(e: ErrorCode)
    ensures Refused(CodeOf(e)) <==> e.present || e.reserved || e.fetch
  {
  }

  lemma {:induction false} RefusedUnchanged(s: State, va: nat, err: nat)
    requires ValidSpace(s, s.cr3) && Refused(err)
    ensures VmHandleFault(s, va, err) == (s, false)
  {
    hide VmMap, LowestFree, Refused;
  }

  /** A coherent TLB holds no page the tables do not map. */
  lemma {:induction false} UncachedMiss(s: State, p: seq<Index>)
    requires Sized(s.ph) && Coherent(s) && |p| == 4 && Resolve(s.ph.mem, s.cr3, p) == None
    ensures p !in s.tlb
  {
  }

  /** A read or write of an absent heap page, from either mode, is repaired as long as there are frames. */
  lemma {:induction false} DataFaultsRepaired(s: State, va: nat, e: ErrorCode)
    requires Inv(s) && Coherent(s) && !e.present && !e.reserved && !e.fetch
    requires HEAP_BASE <= va < HEAP_BASE + HEAP_SIZE && Resolve(s.ph.mem, s.cr3, PathOf(va)) == None
    ensures Access(s, va, CodeOf(e)).1.Hit? <==>
      var n := Missing(s.ph.mem, s.cr3, PathOf(va)); n.Some? && n.value < CountFree(s.ph.used)
  {
    hide Access, Linked, PathOf, Resolve, Missing;
    AccessRetrySucceeds(s, va, CodeOf(e));
  }

  lemma {:induction false} StepKeepsCoherent(s: State, a: Action)
    requires Inv(s) && Coherent(s) && Legal(s, a)
    ensures Sized(Step(s, a).ph) && Coherent(Step(s, a))
  {
    hide VmMap, VmUnmap, VmCreateSpace, Access, Linked, Resolve;
    StepKeepsInv(s, a);
    match a
    case MapPage(space, va, pa, flags) =>
      MapKeepsRegisters(s, space, va, pa, flags);
      if space != 0 { MapKeepsCoherent(s, space, va, pa, flags); }
    case UnmapPage(space, va) =>
      UnmapKeepsRegisters(s, space, va);
      if space != 0 { UnmapCoherentIff(s, space, va); }
    case NewSpace =>
      CreateKeepsCoherent(s);
    case Touch(va, err) =>
      AccessRetrySucceeds(s, va, err);
    case Switch(space) =>
    case Evict(path) =>
    case _ =>
      FrameStepSameTables(s, a);
      forall p | p in s.tlb
        ensures |p| == 4 && Resolve(Step(s, a).ph.mem, s.cr3, p) == Some(s.tlb[p])
      {
        SameTablesResolve(s.ph, Step(s, a).ph.mem, s.cr3, p);
      }
  }

  lemma {:induction false} CreateKeepsCoherent(s: State)
    requires Inv(s) && Coherent(s)
    ensures Coherent(VmCreateSpace(s).0)
  {
    hide Linked, Resolve;
    forall p | p in s.tlb
      ensures |p| == 4 && Resolve(VmCreateSpace(s).0.ph.mem, s.cr3, p) == Some(s.tlb[p])
    {
      CreateExact(s, s.cr3, p);
    }
  }

  /** Over every run, each TLB entry is the translation the current tables give. */
  lemma {:induction false} RunKeepsCoherent(s: State, run: seq<Action>)
    requires Inv(s) && Coherent(s) && LegalRun(s, run)
    ensures Coherent(Run(s, run))
    decreases |run|
  {
    if run != [] {
      StepKeepsInv(s, run[0]);
      StepKeepsCoherent(s, run[0]);
      RunKeepsCoherent(Step(s, run[0]), run[1..]);
    }
  }
}
