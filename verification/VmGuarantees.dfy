// What holds over whole runs: sharing and isolation of spaces, ownership of
// frames, and the identity map of the low gigabyte.
module VmGuarantees {
  import opened Words
  import opened FrameSpec
  import opened Paging
  import opened VmSpec
  import opened VmMapping
  import opened VmSpaces
  import opened VmFaults
  import opened VmAddresses
  import opened VmRun

  // ---- Sharing ----

  lemma {:induction false} RunEvolves(s: State, run: seq<Action>)
    requires Inv(s) && LegalRun(s, run)
    ensures Evolves(s.ph, Run(s, run).ph)
    decreases |run|
  {
    if run != [] {
      StepKeepsInv(s, run[0]);
      RunEvolves(Step(s, run[0]), run[1..]);
      EvolvesTransitive(s.ph, Step(s, run[0]).ph, Run(s, run).ph);
    }
  }

  /**
   * A space created when the kernel space has slot i (slot 0 or the upper half)
   * agrees with the kernel space on that slot for ever after.
   */
  lemma {:induction false} SharedForever(s: State, run: seq<Action>, p: seq<Index>)
    requires Inv(s) && VmCreateSpace(s).1 != 0 && |p| == 4
    requires (p[0] == 0 || p[0] >= 256) && s.ph.mem[s.kernel][p[0]].present
    ensures Inv(VmCreateSpace(s).0)
    ensures var (s1, space) := VmCreateSpace(s);
      LegalRun(s1, run) ==> Resolve(Run(s1, run).ph.mem, space, p) == Resolve(Run(s1, run).ph.mem, s.kernel, p)
  {
    StepKeepsInv(s, NewSpace);
    CreateKeepsInv(s);
    var (s1, space) := VmCreateSpace(s);
    if LegalRun(s1, run) {
      RunEvolves(s1, run);
      var mem := Run(s1, run).ph.mem;
      assert IsTable(s1.ph, space) && IsTable(s1.ph, s.kernel);
      SharedSlotAgrees(mem, space, s.kernel, p);
    }
  }

  lemma {:induction false} AddressPath(q: nat)
    ensures var va := q * 0x80_0000_0000 + 0x4000_0000; va % PAGE_SIZE == 0 && PathOf(va) == [q % 512, 1, 0, 0]
  {
    var va := q * 0x80_0000_0000 + 0x4000_0000;
    var page := 0x800_0000 * q + 0x4_0000;
    assert va == 4096 * page;
    Quotients(va);
    assert page / 512 == 0x4_0000 * q + 512;
    assert page / 512 / 512 == 512 * q + 1;
  }

  /** An address in slot i, outside the identity-mapped gigabyte. */
  function AddressIn(i: Index): nat {
    (if i < 256 then i else 512 * 0xFFFF + i) * 0x80_0000_0000 + 0x4000_0000
  }

  lemma {:induction false} AddressInSlot(i: Index)
    ensures var va := AddressIn(i);
      Canonical(va) && va % PAGE_SIZE == 0 && va >= MAX_PHYS && PathOf(va) == [i, 1, 0, 0]
  {
    hide PathOf;
    AddressPath(if i < 256 then i else 512 * 0xFFFF + i);
    assert (512 * 0xFFFF + i) % 512 == i;
  }

  /**
   * The condition is necessary: if the kernel space lacks the slot at creation,
   * mapping a page there in the kernel space succeeds and makes the spaces differ.
   */
  lemma {:induction false} AbsentSlotDiverges(s: State, i: Index)
    requires Inv(s) && !s.ph.mem[s.kernel][i].present && 4 <= CountFree(s.ph.used)
    ensures VmCreateSpace(s).1 != 0 && Inv(VmCreateSpace(s).0)
    ensures var (s1, space) := VmCreateSpace(s);
      var s2 := VmMap(s1, s.kernel, AddressIn(i), 0, TABLE_FLAGS).0;
      Resolve(s2.ph.mem, s.kernel, [i, 1, 0, 0]) != Resolve(s2.ph.mem, space, [i, 1, 0, 0])
  {
    hide VmMap, Linked, PathOf, AddressIn;
    var va := AddressIn(i);
    AddressInSlot(i);
    StepKeepsInv(s, NewSpace);
    CreateKeepsInv(s);
    CreateShares(s, i);
    var (s1, space) := VmCreateSpace(s);
    CountFreeUpdate(s.ph.used, space, true);
    MapSucceedsIff(s1, s.kernel, va, 0, TABLE_FLAGS);
    MapExact(s1, s.kernel, va, 0, TABLE_FLAGS, s.kernel, [i, 1, 0, 0]);
    MapExact(s1, s.kernel, va, 0, TABLE_FLAGS, space, [i, 1, 0, 0]);
    CreateExact(s, s.kernel, [i, 1, 0, 0]);
  }

  /** A space and the kernel space agree on a slot in every run that follows. */
  ghost predicate AgreeForever(s: State, space: nat, i: Index)
  {
    forall run, p: seq<Index> :: LegalRun(s, run) && |p| == 4 && p[0] == i ==>
      Resolve(Run(s, run).ph.mem, space, p) == Resolve(Run(s, run).ph.mem, s.kernel, p)
  }

  /** A copied slot stays in agreement exactly if it was present when the space was made. */
  lemma {:induction false} AgreeForeverIff(s: State, i: Index)
    requires Inv(s) && 4 <= CountFree(s.ph.used) && (i == 0 || i >= 256)
    ensures VmCreateSpace(s).1 != 0 && Inv(VmCreateSpace(s).0)
    ensures var (s1, space) := VmCreateSpace(s); AgreeForever(s1, space, i) <==> s.ph.mem[s.kernel][i].present
  {
    hide VmMap, Linked, PathOf, CountFree, AddressIn;
    StepKeepsInv(s, NewSpace);
    CreateKeepsInv(s);
    var (s1, space) := VmCreateSpace(s);
    if s.ph.mem[s.kernel][i].present {
      forall run, p: seq<Index> | LegalRun(s1, run) && |p| == 4 && p[0] == i
        ensures Resolve(Run(s1, run).ph.mem, space, p) == Resolve(Run(s1, run).ph.mem, s.kernel, p)
      {
        SharedForever(s, run, p);
      }
    } else {
      AbsentSlotDiverges(s, i);
      AddressInSlot(i);
      var a := MapPage(s.kernel, AddressIn(i), 0, TABLE_FLAGS);
      OneStepRun(s1, a);
      assert Run(s1, [a]) == VmMap(s1, s.kernel, AddressIn(i), 0, TABLE_FLAGS).0;
      var p: seq<Index> := [i, 1, 0, 0];
      assert Resolve(Run(s1, [a]).ph.mem, space, p) != Resolve(Run(s1, [a]).ph.mem, s.kernel, p);
    }
  }

  lemma {:induction false} OneStepRun(s: State, a: Action)
    requires Inv(s) && Legal(s, a)
    ensures LegalRun(s, [a]) && Run(s, [a]) == Step(s, a)
  {
  }

  // ---- Isolation ----

  lemma {:induction false} RootsKeepIsolated(ph: Phys, ph': Phys)
    requires Sized(ph) && Sized(ph') && Isolated(ph)
    requires forall r: nat :: IsSpace(ph', r) ==> IsSpace(ph, r) && ph'.mem[r] == ph.mem[r]
    ensures Isolated(ph')
  {
    forall r: nat, q: nat, i: Index | IsSpace(ph', r) && IsSpace(ph', q) && r != q && 1 <= i < 256
      ensures !Shares(ph'.mem, r, q, i)
    {
      assert !Shares(ph.mem, r, q, i);
    }
  }

  lemma {:induction false} FaultKeepsIsolated(s: State, va: nat, err: nat)
    requires Inv(s) && Isolated(s.ph)
    ensures Isolated(VmHandleFault(s, va, err).0.ph)
  {
    hide VmMap, VmHandleFault, Linked;
    FaultUnfolds(s, va, err);
    if Tries(s, va, err) {
      var f := LowestFree(s.ph.used).value;
      PreparedFacts(s, va, err);
      MappedFacts(s, va, err);
      var s1, s2 := Prepared(s, va, f), Mapped(s, va, f).0;
      RootsKeepIsolated(s.ph, s1.ph);
      MapKeepsIsolated(s1, s.cr3, va - va % PAGE_SIZE, f * PAGE_SIZE, TABLE_FLAGS);
      RootsKeepIsolated(s2.ph, Release(s2.ph, f));
    }
  }

  lemma {:induction false} StepKeepsIsolated(s: State, a: Action)
    requires Inv(s) && Isolated(s.ph) && Legal(s, a)
    ensures Sized(Step(s, a).ph) && Isolated(Step(s, a).ph)
  {
    hide VmMap, VmUnmap, VmCreateSpace, VmHandleFault, Linked, Isolated;
    StepKeepsInv(s, a);
    match a
    case MapPage(space, va, pa, flags) =>
      MapKeepsRegisters(s, space, va, pa, flags);
      if space != 0 { MapKeepsIsolated(s, space, va, pa, flags); }
    case UnmapPage(space, va) =>
      UnmapKeepsRegisters(s, space, va);
      if space != 0 {
        UnmapKeepsInv(s, space, va);
        forall r: nat | IsSpace(s.ph, r)
          ensures VmUnmap(s, space, va).0.ph.mem[r] == s.ph.mem[r]
        {
          UnmapKeepsRoots(s, space, va, r);
        }
        RootsKeepIsolated(s.ph, VmUnmap(s, space, va).0.ph);
      }
    case NewSpace =>
      CreateKeepsIsolated(s);
    case Touch(va, err) =>
      FaultKeepsIsolated(s, va, err);
    case Switch(space) =>
    case Evict(path) =>
    case _ =>
      FrameStepSameTables(s, a);
      RootsKeepIsolated(s.ph, Step(s, a).ph);
  }

  lemma {:induction false} RunKeepsIsolated(s: State, run: seq<Action>)
    requires Inv(s) && Isolated(s.ph) && LegalRun(s, run)
    ensures Isolated(Run(s, run).ph)
    decreases |run|
  {
    if run != [] {
      StepKeepsInv(s, run[0]);
      StepKeepsIsolated(s, run[0]);
      RunKeepsIsolated(Step(s, run[0]), run[1..]);
    }
  }

  /**
   * Wherever a run has led, mapping or unmapping through one of the slots 1..255
   * of a space alters no translation of any other space.
   */
  lemma {:induction false} PrivateSlots(s: State, run: seq<Action>, space: nat, va: nat, pa: nat, flags: Word,
                                        r: nat, p: seq<Index>)
    requires Inv(s) && Isolated(s.ph) && LegalRun(s, run)
    requires var s1 := Run(s, run); IsSpace(s1.ph, space) && IsSpace(s1.ph, r)
    requires r != space && 1 <= PathOf(va)[0] < 256 && |p| == 4
    ensures var s1 := Run(s, run);
      && Resolve(VmMap(s1, space, va, pa, flags).0.ph.mem, r, p) == Resolve(s1.ph.mem, r, p)
      && Resolve(VmUnmap(s1, space, va).0.ph.mem, r, p) == Resolve(s1.ph.mem, r, p)
  {
    hide Run, LegalRun, VmMap, VmUnmap, Linked;
    RunKeepsInv(s, run);
    RunKeepsIsolated(s, run);
    var s1 := Run(s, run);
    MapExact(s1, space, va, pa, flags, r, p);
    UnmapExact(s1, space, va, r, p);
    assert !Shares(s1.ph.mem, space, r, PathOf(va)[0]);
  }

  /** The action unmaps page p in the space. */
  predicate Unmaps(a: Action, space: nat, p: seq<Index>) { a.UnmapPage? && a.space == space && PathOf(a.va) == p }

  /** A page in a private slot stays mapped as it is until its own space unmaps it. */
  lemma {:induction false} PrivatePageStep(s: State, a: Action, space: nat, p: seq<Index>)
    requires Inv(s) && Isolated(s.ph) && Legal(s, a) && IsSpace(s.ph, space) && |p| == 4 && 1 <= p[0] < 256
    requires Resolve(s.ph.mem, space, p).Some? && !Unmaps(a, space, p)
    ensures IsSpace(Step(s, a).ph, space) && Resolve(Step(s, a).ph.mem, space, p) == Resolve(s.ph.mem, space, p)
  {
    hide VmMap, VmUnmap, VmCreateSpace, VmHandleFault, Linked, Resolve, PathOf;
    StepKeepsInv(s, a);
    match a
    case MapPage(other, va, pa, flags) =>
      MapKeepsRegisters(s, other, va, pa, flags);
      if other != 0 {
        MapExact(s, other, va, pa, flags, space, p);
        if Shares(s.ph.mem, other, space, p[0]) { SharedSlotAgrees(s.ph.mem, other, space, p); }
      }
    case UnmapPage(other, va) =>
      UnmapKeepsRegisters(s, other, va);
      if other != 0 { UnmapExact(s, other, va, space, p); }
    case NewSpace =>
      CreateExact(s, space, p);
    case Touch(va, err) =>
      FaultExact(s, va, err, space, p);
      if VmHandleFault(s, va, err).1 { HeapPathOf(va); HeapSlotIs(va); }
    case Switch(other) =>
    case Evict(path) =>
    case _ =>
      FrameStepSameTables(s, a);
      SameTablesResolve(s.ph, Step(s, a).ph.mem, space, p);
  }

  lemma {:induction false} HeapSlotIs(va: nat)
    requires InHeap(va) && HeapPageOf(va) < HEAP_PAGES && PathOf(va) == HeapPath(HeapPageOf(va))
    ensures PathOf(va)[0] == 256
  {
  }

  lemma {:induction false} PrivatePageStays(s: State, run: seq<Action>, space: nat, p: seq<Index>)
    requires Inv(s) && Isolated(s.ph) && LegalRun(s, run) && IsSpace(s.ph, space) && |p| == 4 && 1 <= p[0] < 256
    requires Resolve(s.ph.mem, space, p).Some? && forall i :: 0 <= i < |run| ==> !Unmaps(run[i], space, p)
    ensures IsSpace(Run(s, run).ph, space) && Resolve(Run(s, run).ph.mem, space, p) == Resolve(s.ph.mem, space, p)
    decreases |run|
  {
    hide Resolve, Linked, Isolated;
    if run != [] {
      StepKeepsInv(s, run[0]);
      StepKeepsIsolated(s, run[0]);
      PrivatePageStep(s, run[0], space, p);
      PrivatePageStays(Step(s, run[0]), run[1..], space, p);
    }
  }

  /**
   * A word stored through a private page of a space reads back after any run - switches
   * to other spaces, their own mappings at the same address, faults - that neither unmaps
   * that page in that space nor frees or stores to its frame, once the space is current.
   */
  lemma {:induction false} StoredReadsBack(s: State, run: seq<Action>, space: nat, va: nat, err: nat, i: Index, v: Word)
    requires Inv(s) && Isolated(s.ph) && IsSpace(s.ph, space) && 1 <= PathOf(va)[0] < 256
    requires Resolve(s.ph.mem, space, PathOf(va)).Some?
    requires var f := Resolve(s.ph.mem, space, PathOf(va)).value.frame;
      && f < FRAME_COUNT && s.ph.own[f] == Data && Untouched(run, f)
      && LegalRun(Step(s, Poke(f, i, v)), run)
    requires forall k :: 0 <= k < |run| ==> !Unmaps(run[k], space, PathOf(va))
    ensures var m := Resolve(s.ph.mem, space, PathOf(va)).value; var s2 := Run(Step(s, Poke(m.frame, i, v)), run);
      && Inv(s2) && IsSpace(s2.ph, space)
      && var (s3, out) := Access(VmSwitch(s2, space), va, err);
         out == Hit(m) && s3.cr3 == space && s3.ph.mem[m.frame][i] == v
  {
    hide Resolve, Linked, Isolated, Access, PathOf, Run, LegalRun, Untouched;
    var m := Resolve(s.ph.mem, space, PathOf(va)).value;
    var a := Poke(m.frame, i, v);
    var s1 := Step(s, a);
    StepKeepsInv(s, a);
    StepKeepsIsolated(s, a);
    PrivatePageStep(s, a, space, PathOf(va));
    RunKeepsInv(s1, run);
    PrivatePageStays(s1, run, space, PathOf(va));
    RunOwnership(s1, run, m.frame);
    SwitchSees(Run(s1, run), space, va, err);
  }

  // ---- Ownership of frames ----

  /** f keeps its purpose and, unless it is a table, its contents. */
  predicate Kept(ph: Phys, ph': Phys, f: nat)
    requires Sized(ph) && Sized(ph') && f < FRAME_COUNT
  {
    && (ph.own[f] != Free ==> ph'.own[f] == ph.own[f])
    && (ph.own[f] != Free && !ph.own[f].Table? ==> ph'.mem[f] == ph.mem[f])
  }

  /** f does not become a heap page. */
  predicate NoNewHeapPage(ph: Phys, ph': Phys, f: nat)
    requires Sized(ph) && Sized(ph') && f < FRAME_COUNT
  {
    ph'.own[f].HeapPage? ==> ph.own[f] == ph'.own[f]
  }

  lemma {:induction false} MapOwnership(s: State, space: nat, va: nat, pa: nat, flags: Word, f: nat)
    requires PhysInv(s.ph) && IsSpace(s.ph, space) && f < FRAME_COUNT
    ensures var ph' := VmMap(s, space, va, pa, flags).0.ph; Kept(s.ph, ph', f) && NoNewHeapPage(s.ph, ph', f)
  {
    hide VmMap, Linked, PathOf, Leaf;
    var ph, t := MapShape(s, space, va, pa, flags);
  }

  lemma {:induction false} UnmapOwnership(s: State, space: nat, va: nat, f: nat)
    requires PhysInv(s.ph) && IsSpace(s.ph, space) && f < FRAME_COUNT
    ensures var ph' := VmUnmap(s, space, va).0.ph; Kept(s.ph, ph', f) && NoNewHeapPage(s.ph, ph', f)
  {
    UnmapKeepsInv(s, space, va);
    WalkFinds(s.ph, space, PathOf(va));
    if Leaf(s.ph.mem, space, PathOf(va)).Some? {
      LeafPath(s.ph, space, PathOf(va));
    }
  }

  /**
   * A fault takes only free frames. If it fails, no frame becomes a heap page:
   * the data frame has been returned.
   */
  lemma {:induction false} FaultOwnership(s: State, va: nat, err: nat, f: nat)
    requires Inv(s) && f < FRAME_COUNT
    ensures var (s', ok) := VmHandleFault(s, va, err);
      && Kept(s.ph, s'.ph, f)
      && (!ok || f != LowestFree(s.ph.used).value ==> NoNewHeapPage(s.ph, s'.ph, f))
  {
    hide VmMap, VmHandleFault, Linked;
    FaultUnfolds(s, va, err);
    if Tries(s, va, err) {
      var claimed := LowestFree(s.ph.used).value;
      PreparedFacts(s, va, err);
      MapOwnership(Prepared(s, va, claimed), s.cr3, va - va % PAGE_SIZE, claimed * PAGE_SIZE, TABLE_FLAGS, f);
    }
  }

  /** Every step leaves alone each frame in use, except the one it frees or stores to. */
  lemma {:induction false} StepOwnership(s: State, a: Action, f: nat)
    requires Inv(s) && Legal(s, a) && f < FRAME_COUNT
    ensures Sized(Step(s, a).ph)
    ensures a != FreeData(f) && !(a.Poke? && a.frame == f) ==> Kept(s.ph, Step(s, a).ph, f)
    ensures !a.Touch? ==> NoNewHeapPage(s.ph, Step(s, a).ph, f)
  {
    hide VmMap, VmUnmap, VmCreateSpace, VmHandleFault, Linked;
    StepKeepsInv(s, a);
    match a
    case MapPage(space, va, pa, flags) =>
      MapKeepsRegisters(s, space, va, pa, flags);
      if space != 0 { MapOwnership(s, space, va, pa, flags, f); }
    case UnmapPage(space, va) =>
      UnmapKeepsRegisters(s, space, va);
      if space != 0 { UnmapOwnership(s, space, va, f); }
    case NewSpace =>
      CreateKeepsInv(s);
    case Touch(va, err) =>
      FaultOwnership(s, va, err, f);
    case _ =>
  }

  /** The run neither frees nor stores to frame f. */
  predicate Untouched(run: seq<Action>, f: nat) {
    forall i :: 0 <= i < |run| ==> run[i] != FreeData(f) && !(run[i].Poke? && run[i].frame == f)
  }

  /**
   * Over every run a frame in use keeps its purpose, and a frame that is not a
   * table its contents, as long as its owner does not free it or store to it.
   */
  lemma {:induction false} RunOwnership(s: State, run: seq<Action>, f: nat)
    requires Inv(s) && LegalRun(s, run) && f < FRAME_COUNT && s.ph.own[f] != Free && Untouched(run, f)
    ensures Kept(s.ph, Run(s, run).ph, f)
    decreases |run|
  {
    if run != [] {
      StepKeepsInv(s, run[0]);
      StepOwnership(s, run[0], f);
      assert Untouched(run[1..], f);
      RunOwnership(Step(s, run[0]), run[1..], f);
    }
  }

  // ---- The identity map ----

  /** Directory entry i of the identity map: (i << 21) | 0x83. */
  function LargePage(i: Index): Word { Word(true, 1, true, 0, 512 * i, 0) }

  lemma {:induction false} LargePageNumber(i: Index)
    ensures ToBits(LargePage(i)) == i * 0x20_0000 + 0x83
  {
  }

  /** Frame f lies in a large page of the directory pd. */
  predicate LargeMapped(ph: Phys, pd: nat, f: nat)
    requires Sized(ph) && pd < FRAME_COUNT && f < FRAME_COUNT
  {
    ph.mem[pd][f / 512] == LargePage(f / 512)
  }

  /**
   * Every space reaches the directory pd through slot 0 of its root and entry 0 of
   * pdpt, and pd maps all frames that were ever free, and the tables, by large pages.
   */
  ghost predicate LowMap(ph: Phys, pdpt: nat, pd: nat) {
    && IsTable(ph, pdpt) && IsTable(ph, pd) && ph.own[pdpt].path == [0] && ph.own[pd].path == [0, 0]
    && (forall r: nat :: IsSpace(ph, r) ==> Down(ph.mem[r][0]) && ph.mem[r][0].frame == pdpt)
    && Down(ph.mem[pdpt][0]) && ph.mem[pdpt][0].frame == pd
    && (forall f :: 0 <= f < FRAME_COUNT && ph.own[f] != Reserved ==> LargeMapped(ph, pd, f))
  }

  lemma {:induction false} LowMapTranslates(ph: Phys, pdpt: nat, pd: nat, r: nat, pa: nat)
    requires LowMap(ph, pdpt, pd) && IsSpace(ph, r) && pa < MAX_PHYS && ph.own[pa / PAGE_SIZE] != Reserved
    ensures AddressOf(ph.mem, r, pa) == Some(pa)
  {
    hide AddressOf;
    var f := pa / PAGE_SIZE;
    assert LargeMapped(ph, pd, f);
    assert pa / 0x20_0000 == f / 512 && f / 512 % 512 == f / 512;
    assert PathOf(pa)[0] == 0 && PathOf(pa)[1] == 0;
    LargePageAddress(ph.mem, r, pdpt, pd, pa);
    assert pa == pa / 0x20_0000 * 0x20_0000 + pa % 0x20_0000;
  }

  lemma {:induction false} FaultRoots(s: State, va: nat, err: nat, r: nat)
    requires Inv(s)
    ensures IsSpace(VmHandleFault(s, va, err).0.ph, r) ==> IsSpace(s.ph, r)
  {
    hide VmMap, VmHandleFault, Linked;
    FaultUnfolds(s, va, err);
    if Tries(s, va, err) {
      var f := LowestFree(s.ph.used).value;
      PreparedFacts(s, va, err);
      MapKeepsRoots(Prepared(s, va, f), s.cr3, va - va % PAGE_SIZE, f * PAGE_SIZE, TABLE_FLAGS, r);
    }
  }

  lemma {:induction false} StepRoots(s: State, a: Action, r: nat)
    requires Inv(s) && Legal(s, a)
    ensures IsSpace(Step(s, a).ph, r) ==> IsSpace(s.ph, r) || (a == NewSpace && r == VmCreateSpace(s).1 != 0)
  {
    hide VmMap, VmUnmap, VmCreateSpace, VmHandleFault, Linked;
    match a
    case MapPage(space, va, pa, flags) =>
      MapKeepsRegisters(s, space, va, pa, flags);
      if space != 0 { MapKeepsRoots(s, space, va, pa, flags, r); }
    case UnmapPage(space, va) =>
      UnmapKeepsRegisters(s, space, va);
      if space != 0 { UnmapKeepsInv(s, space, va); }
    case NewSpace =>
      CreateKeepsInv(s);
    case Touch(va, err) =>
      FaultRoots(s, va, err, r);
    case _ =>
  }

  lemma {:induction false} StepKeepsLowMap(s: State, a: Action, pdpt: nat, pd: nat)
    requires Inv(s) && Legal(s, a) && LowMap(s.ph, pdpt, pd)
    ensures LowMap(Step(s, a).ph, pdpt, pd)
  {
    hide Linked, Step, VmCreateSpace;
    StepKeepsInv(s, a);
    var s' := Step(s, a);
    forall r: nat | IsSpace(s'.ph, r)
      ensures Down(s'.ph.mem[r][0]) && s'.ph.mem[r][0].frame == pdpt
    {
      StepRoots(s, a, r);
      if !IsSpace(s.ph, r) {
        NewSpaceStep(s);
      }
    }
    forall f | 0 <= f < FRAME_COUNT && s'.ph.own[f] != Reserved
      ensures LargeMapped(s'.ph, pd, f)
    {
      StepOwnership(s, a, f);
      assert LargeMapped(s.ph, pd, f);
    }
  }

  lemma {:induction false} NewSpaceStep(s: State)
    requires Inv(s)
    ensures var (s', f) := VmCreateSpace(s);
      Step(s, NewSpace) == s' && (f != 0 ==> f < FRAME_COUNT && s'.ph.mem[f] == RootFrom(s.ph.mem[s.kernel]))
  {
    hide VmCreateSpace;
    CreateKeepsInv(s);
  }

  lemma {:induction false} RunKeepsLowMap(s: State, run: seq<Action>, pdpt: nat, pd: nat)
    requires Inv(s) && LegalRun(s, run) && LowMap(s.ph, pdpt, pd)
    ensures LowMap(Run(s, run).ph, pdpt, pd)
    decreases |run|
  {
    if run != [] {
      StepKeepsInv(s, run[0]);
      StepKeepsLowMap(s, run[0], pdpt, pd);
      RunKeepsLowMap(Step(s, run[0]), run[1..], pdpt, pd);
    }
  }

  /**
   * After every run each address in a frame that is not reserved - in particular in
   * each free frame - is translated to itself, in every space there is.
   */
  lemma {:induction false} IdentityForever(s: State, run: seq<Action>, pdpt: nat, pd: nat, r: nat, pa: nat)
    requires Inv(s) && LegalRun(s, run) && LowMap(s.ph, pdpt, pd)
    requires IsSpace(Run(s, run).ph, r) && pa < MAX_PHYS && Run(s, run).ph.own[pa / PAGE_SIZE] != Reserved
    ensures AddressOf(Run(s, run).ph.mem, r, pa) == Some(pa)
  {
    RunKeepsInv(s, run);
    RunKeepsLowMap(s, run, pdpt, pd);
    LowMapTranslates(Run(s, run).ph, pdpt, pd, r, pa);
  }
}
