// The demand-paged heap region refines a flat array of zero-initialised words.
module VmHeapRegion {
  import opened Words
  import opened FrameSpec
  import opened Paging
  import opened VmSpec
  import opened VmMapping
  import opened VmSpaces
  import opened VmFaults
  import opened VmRun
  import opened VmGuarantees
  import opened VmHeapTables

  const HEAP_WORDS: nat := 0x20_0000

  /** The offset of a 64-bit word in the 16MB region. */
  type WordOffset = n: nat | n < 0x20_0000

  // ---- The relation to a flat array ----

  /** All spaces use the same tables for the heap's slot. */
  ghost predicate HeapShared(ph: Phys)
    requires Sized(ph)
  {
    forall r: nat, q: nat {:trigger IsSpace(ph, r), IsSpace(ph, q)} ::
      IsSpace(ph, r) && IsSpace(ph, q) ==> Shares(ph.mem, r, q, 256)
  }

  function PageMapping(ph: Phys, kernel: nat, page: nat): Option<Mapping>
    requires Sized(ph) && page < HEAP_PAGES
  {
    Resolve(ph.mem, kernel, HeapPath(page))
  }

  /** A frame that serves a heap page is what that page is mapped to. */
  ghost predicate PagesOwned(ph: Phys, kernel: nat)
    requires Sized(ph)
  {
    forall f :: 0 <= f < FRAME_COUNT && ph.own[f].HeapPage? ==>
      ph.own[f].page < HEAP_PAGES && PageMapping(ph, kernel, ph.own[f].page) == Some(Mapping(f, Pte(f, TABLE_FLAGS)))
  }

  /** A mapped heap page is mapped to a frame that serves this page and no other. */
  ghost predicate PagesMapped(ph: Phys, kernel: nat)
    requires Sized(ph)
  {
    forall page :: 0 <= page < HEAP_PAGES && PageMapping(ph, kernel, page).Some? ==>
      var f := PageMapping(ph, kernel, page).value.frame; f < FRAME_COUNT && ph.own[f] == HeapPage(page)
  }

  /** The word of the region at a word offset: pages not mapped yet read as zero. */
  function HeapWord(ph: Phys, kernel: nat, at: nat): Word
    requires Sized(ph) && at < HEAP_WORDS
  {
    var m := PageMapping(ph, kernel, at / 512);
    if m.Some? && m.value.frame < FRAME_COUNT then ph.mem[m.value.frame][at % 512] else ZERO
  }

  ghost predicate Shows(ph: Phys, kernel: nat, flat: seq<Word>)
    requires Sized(ph)
  {
    |flat| == HEAP_WORDS && forall at :: 0 <= at < HEAP_WORDS ==> flat[at] == HeapWord(ph, kernel, at)
  }

  ghost predicate HeapInv(s: State) {
    && Inv(s) && Coherent(s) && HeapClear(s.ph) && HeapShared(s.ph)
    && PagesOwned(s.ph, s.kernel) && PagesMapped(s.ph, s.kernel)
  }

  /** Distinct heap pages never share a frame. */
  lemma {:induction false} DistinctPages(s: State, page: nat, page': nat)
    requires HeapInv(s) && page < HEAP_PAGES && page' < HEAP_PAGES && page != page'
    requires PageMapping(s.ph, s.kernel, page).Some? && PageMapping(s.ph, s.kernel, page').Some?
    ensures PageMapping(s.ph, s.kernel, page).value.frame != PageMapping(s.ph, s.kernel, page').value.frame
  {
  }

  // ---- Steps that leave the region alone ----

  ghost predicate SameRegion(ph: Phys, ph': Phys, kernel: nat) {
    && Sized(ph) && Sized(ph')
    && (forall f :: 0 <= f < FRAME_COUNT && (ph.own[f].HeapPage? || ph'.own[f].HeapPage?) ==>
          ph'.own[f] == ph.own[f] && ph'.mem[f] == ph.mem[f])
    && (forall page :: 0 <= page < HEAP_PAGES ==> PageMapping(ph', kernel, page) == PageMapping(ph, kernel, page))
  }

  lemma {:induction false} SameRegionKeeps(ph: Phys, ph': Phys, kernel: nat, flat: seq<Word>)
    requires SameRegion(ph, ph', kernel) && PagesOwned(ph, kernel) && PagesMapped(ph, kernel)
    ensures PagesOwned(ph', kernel) && PagesMapped(ph', kernel)
    ensures Shows(ph, kernel, flat) ==> Shows(ph', kernel, flat)
  {
  }

  lemma {:induction false} HeapPathInjective(page: nat, page': nat)
    requires page < HEAP_PAGES && page' < HEAP_PAGES && HeapPath(page) == HeapPath(page')
    ensures page == page'
  {
  }

  /** On canonical addresses the heap's index paths belong to heap addresses only. */
  lemma {:induction false} HeapPathInHeap(va: nat, page: nat)
    requires Canonical(va) && page < HEAP_PAGES && PathOf(va) == HeapPath(page)
    ensures InHeap(va)
  {
    var q4, q3, q2 := va / 0x80_0000_0000, va / 0x4000_0000, va / 0x20_0000;
    Quotients(va);
    assert PathOf(va)[0] == 256 && PathOf(va)[1] == 0 && PathOf(va)[2] < 8;
    HeapAddress(va, q4, q3, q2);
  }

  lemma {:induction false} HeapAddress(va: nat, q4: nat, q3: nat, q2: nat)
    requires Canonical(va) && q4 == va / 0x80_0000_0000 && q2 == va / 0x20_0000
    requires q4 == q3 / 512 && q3 == q2 / 512 && q4 % 512 == 256 && q3 % 512 == 0 && q2 % 512 < 8
    ensures InHeap(va)
  {
    assert q4 == 512 * 0xFFFF + 256;
    assert q2 < 512 * 512 * q4 + 8;
  }

  /** What callers owe, with this region left to the fault handler. */
  predicate Outside(s: State, a: Action) {
    Legal(s, a) &&
    match a
    case MapPage(space, va, pa, flags) => !InHeap(va)
    case UnmapPage(space, va) => !InHeap(va)
    case NewSpace => s.kernel < FRAME_COUNT && Down(s.ph.mem[s.kernel][256])
    case Poke(f, i, v) => s.ph.own[f] == Data
    case _ => true
  }

  lemma {:induction false} StepKeepsMapping(s: State, a: Action, page: nat)
    requires HeapInv(s) && Outside(s, a) && !a.Touch? && page < HEAP_PAGES
    ensures Sized(Step(s, a).ph)
    ensures PageMapping(Step(s, a).ph, s.kernel, page) == PageMapping(s.ph, s.kernel, page)
  {
    hide VmMap, VmUnmap, VmCreateSpace, Linked, Resolve, PathOf, HeapPath;
    StepKeepsInv(s, a);
    var p := HeapPath(page);
    match a
    case MapPage(space, va, pa, flags) =>
      MapKeepsRegisters(s, space, va, pa, flags);
      if space != 0 {
        MapExact(s, space, va, pa, flags, s.kernel, p);
        if PathOf(va) == p { HeapPathInHeap(va, page); }
      }
    case UnmapPage(space, va) =>
      UnmapKeepsRegisters(s, space, va);
      if space != 0 {
        UnmapExact(s, space, va, s.kernel, p);
        if PathOf(va) == p { HeapPathInHeap(va, page); }
      }
    case NewSpace =>
      CreateExact(s, s.kernel, p);
    case Switch(space) =>
    case Evict(path) =>
    case AllocData => FrameStepKeepsMapping(s, a, p);
    case FreeData(f) => FrameStepKeepsMapping(s, a, p);
    case Poke(f, i, v) => FrameStepKeepsMapping(s, a, p);
  }

  lemma {:induction false} FrameStepKeepsMapping(s: State, a: Action, p: seq<Index>)
    requires Inv(s) && Legal(s, a) && FrameStep(a) && |p| == 4
    ensures Sized(Step(s, a).ph) && Resolve(Step(s, a).ph.mem, s.kernel, p) == Resolve(s.ph.mem, s.kernel, p)
  {
    FrameStepSameTables(s, a);
    SameTablesResolve(s.ph, Step(s, a).ph.mem, s.kernel, p);
  }

  lemma {:induction false} StepSameRegion(s: State, a: Action)
    requires HeapInv(s) && Outside(s, a) && !a.Touch?
    ensures SameRegion(s.ph, Step(s, a).ph, s.kernel)
  {
    hide Step, Linked, Resolve, Coherent;
    StepKeepsInv(s, a);
    forall f | 0 <= f < FRAME_COUNT && (s.ph.own[f].HeapPage? || Step(s, a).ph.own[f].HeapPage?)
      ensures Step(s, a).ph.own[f] == s.ph.own[f] && Step(s, a).ph.mem[f] == s.ph.mem[f]
    {
      StepOwnership(s, a, f);
    }
    forall page | 0 <= page < HEAP_PAGES
      ensures PageMapping(Step(s, a).ph, s.kernel, page) == PageMapping(s.ph, s.kernel, page)
    {
      StepKeepsMapping(s, a, page);
    }
  }

  lemma {:induction false} StepKeepsHeapShared(s: State, a: Action)
    requires HeapInv(s) && Outside(s, a)
    ensures Sized(Step(s, a).ph) && HeapShared(Step(s, a).ph)
  {
    hide Step, Linked, Resolve, VmCreateSpace, Coherent;
    StepKeepsInv(s, a);
    var ph' := Step(s, a).ph;
    forall r: nat, q: nat | IsSpace(ph', r) && IsSpace(ph', q)
      ensures Shares(ph'.mem, r, q, 256)
    {
      StepRoots(s, a, r);
      StepRoots(s, a, q);
      if a == NewSpace { NewSpaceStep(s); }
      if IsSpace(s.ph, r) { EvolvesKeepsShares(s.ph, ph', r, s.kernel, 256); }
      if IsSpace(s.ph, q) { EvolvesKeepsShares(s.ph, ph', s.kernel, q, 256); }
      assert a == NewSpace ==> ph'.mem[s.kernel][256] == s.ph.mem[s.kernel][256];
    }
  }

  lemma {:induction false} StepKeepsKernel(s: State, a: Action)
    requires Inv(s) && Legal(s, a)
    ensures Step(s, a).kernel == s.kernel
  {
    hide VmMap, VmUnmap, VmCreateSpace, VmHandleFault;
    match a
    case MapPage(space, va, pa, flags) => MapKeepsRegisters(s, space, va, pa, flags);
    case UnmapPage(space, va) => UnmapKeepsRegisters(s, space, va);
    case NewSpace => CreateKeepsInv(s);
    case Touch(va, err) => FaultTlb(s, va, err);
    case _ =>
  }

  // ---- Faults ----

  /** The current space maps a heap page as the kernel space does. */
  lemma {:induction false} CurrentAgrees(s: State, page: nat)
    requires HeapInv(s) && page < HEAP_PAGES
    ensures Resolve(s.ph.mem, s.cr3, HeapPath(page)) == PageMapping(s.ph, s.kernel, page)
  {
  }

  /** A handled fault gives one unmapped page a zeroed frame; the region reads as before. */
  lemma {:induction false} HandledFaultShows(s: State, va: nat, err: nat, flat: seq<Word>)
    requires HeapInv(s) && VmHandleFault(s, va, err).1
    ensures var s' := VmHandleFault(s, va, err).0;
      PagesOwned(s'.ph, s.kernel) && PagesMapped(s'.ph, s.kernel)
      && (Shows(s.ph, s.kernel, flat) ==> Shows(s'.ph, s.kernel, flat))
  {
    hide VmHandleFault, Linked, Resolve, Coherent, PathOf, HeapPath, CanHandle;
    FaultFrame(s, va, err);
    var f, hit := LowestFree(s.ph.used).value, HeapPageOf(va);
    var s' := VmHandleFault(s, va, err).0;
    HeapPathOf(va);
    HandledPageWasFree(s, va, err);
    forall page | 0 <= page < HEAP_PAGES
      ensures PageMapping(s'.ph, s.kernel, page) ==
        if page == hit then Some(Mapping(f, Pte(f, TABLE_FLAGS))) else PageMapping(s.ph, s.kernel, page)
    {
      FaultExact(s, va, err, s.kernel, HeapPath(page));
      if HeapPath(page) == PathOf(va) { HeapPathInjective(page, hit); }
      HeapSlot(page);
    }
    forall g | 0 <= g < FRAME_COUNT && s'.ph.own[g].HeapPage? && g != f
      ensures s.ph.own[g] == s'.ph.own[g] && s.ph.mem[g] == s'.ph.mem[g]
    {
      FaultOwnership(s, va, err, g);
    }
    forall g | 0 <= g < FRAME_COUNT && s.ph.own[g].HeapPage?
      ensures s.ph.own[g] == s'.ph.own[g] && s.ph.mem[g] == s'.ph.mem[g]
    {
      FaultOwnership(s, va, err, g);
    }
    if Shows(s.ph, s.kernel, flat) {
      forall at | 0 <= at < HEAP_WORDS
        ensures flat[at] == HeapWord(s'.ph, s.kernel, at)
      {
        assert flat[at] == HeapWord(s.ph, s.kernel, at);
        assert 0 <= at / 512 < HEAP_PAGES;
      }
    }
  }

  /** A fault that is not handled leaves the region alone. */
  lemma {:induction false} UnhandledFaultSame(s: State, va: nat, err: nat)
    requires HeapInv(s) && !VmHandleFault(s, va, err).1
    ensures SameRegion(s.ph, VmHandleFault(s, va, err).0.ph, s.kernel)
  {
    hide VmHandleFault, Linked, Resolve, Coherent, HeapPath, PathOf;
    var s' := VmHandleFault(s, va, err).0;
    forall f | 0 <= f < FRAME_COUNT && (s.ph.own[f].HeapPage? || s'.ph.own[f].HeapPage?)
      ensures s'.ph.own[f] == s.ph.own[f] && s'.ph.mem[f] == s.ph.mem[f]
    {
      FaultOwnership(s, va, err, f);
    }
    forall page | 0 <= page < HEAP_PAGES
      ensures PageMapping(s'.ph, s.kernel, page) == PageMapping(s.ph, s.kernel, page)
    {
      FaultExact(s, va, err, s.kernel, HeapPath(page));
    }
  }

  lemma {:induction false} HeapSlot(page: nat)
    requires page < HEAP_PAGES
    ensures HeapPath(page)[0] == 256
  {
  }

  lemma {:induction false} HandledPageWasFree(s: State, va: nat, err: nat)
    requires HeapInv(s) && VmHandleFault(s, va, err).1
    ensures InHeap(va) && HeapPageOf(va) < HEAP_PAGES
    ensures PageMapping(s.ph, s.kernel, HeapPageOf(va)) == None
  {
    hide VmHandleFault, Linked, Resolve, Coherent, PathOf, HeapPath;
    FaultHandledIff(s, va, err);
    HeapPathOf(va);
    CurrentAgrees(s, HeapPageOf(va));
  }

  // ---- Accesses ----

  lemma {:induction false} AccessUnfolds(s: State, va: nat, err: nat)
    requires Inv(s) && Coherent(s)
    ensures var (s', out) := Access(s, va, err);
      && s'.kernel == s.kernel && s'.cr3 == s.cr3
      && (if Resolve(s.ph.mem, s.cr3, PathOf(va)).Some? then s'.ph == s.ph
          else s'.ph == VmHandleFault(s, va, err).0.ph && (out.Hit? <==> VmHandleFault(s, va, err).1))
  {
    hide VmHandleFault, Linked, Resolve, PathOf;
    FaultTlb(s, va, err);
    AccessRetrySucceeds(s, va, err);
  }

  /** An access leaves the region as it reads, whether or not it goes through. */
  lemma {:induction false} AccessShows(s: State, va: nat, err: nat, flat: seq<Word>)
    requires HeapInv(s) && Canonical(va) && Shows(s.ph, s.kernel, flat)
    ensures var s' := Access(s, va, err).0; HeapInv(s') && s'.kernel == s.kernel && Shows(s'.ph, s.kernel, flat)
  {
    hide VmHandleFault, Access, Linked, Resolve, Coherent, PathOf, PagesOwned, PagesMapped, Shows, HeapClear;
    AccessUnfolds(s, va, err);
    StepKeepsInv(s, Touch(va, err));
    StepKeepsCoherent(s, Touch(va, err));
    StepKeepsClear(s, Touch(va, err));
    StepKeepsHeapShared(s, Touch(va, err));
    if Resolve(s.ph.mem, s.cr3, PathOf(va)).None? {
      if VmHandleFault(s, va, err).1 {
        HandledFaultShows(s, va, err, flat);
      } else {
        UnhandledFaultSame(s, va, err);
        SameRegionKeeps(s.ph, VmHandleFault(s, va, err).0.ph, s.kernel, flat);
      }
    }
  }

  /** The steps of a run that also uses the region: other steps, loads and stores of words. */
  datatype HeapAction = Other(a: Action) | Load(at: WordOffset) | Store(at: WordOffset, value: Word)

  datatype Output = Done | Value(w: Word) | Stopped

  function WordAddress(at: nat): nat { HEAP_BASE + 8 * at }

  predicate HeapLegal(s: State, h: HeapAction) {
    ValidSpace(s, s.kernel) && ValidSpace(s, s.cr3) && (h.Other? ==> Outside(s, h.a))
  }

  /** A load faults with error code 0, a store with the write bit (2). */
  function HeapStep(s: State, h: HeapAction): (r: (State, Output))
    requires HeapLegal(s, h)
  {
    match h
    case Other(a) =>
      (Step(s, a), if a.Touch? && !Access(s, a.va, a.err).1.Hit? then Stopped else Done)
    case Load(at) =>
      var (s', out) := Access(s, WordAddress(at), 0);
      if out.Hit? && out.m.frame < FRAME_COUNT then (s', Value(s'.ph.mem[out.m.frame][at % 512]))
      else (s', Stopped)
    case Store(at, v) =>
      var (s', out) := Access(s, WordAddress(at), 2);
      if out.Hit? && out.m.frame < FRAME_COUNT
      then (s'.(ph := s'.ph.(mem := SetEntry(s'.ph.mem, out.m.frame, at % 512, v))), Done)
      else (s', Stopped)
  }

  /** The same step on a flat array. */
  function FlatStep(flat: seq<Word>, h: HeapAction): (r: (seq<Word>, Output))
    requires |flat| == HEAP_WORDS
    ensures |r.0| == HEAP_WORDS
  {
    match h
    case Other(a) => (flat, Done)
    case Load(at) => (flat, Value(flat[at]))
    case Store(at, v) => (flat[at := v], Done)
  }

  /** The access to a heap word ends at the frame that serves its page. */
  lemma {:induction false} WordAccess(s: State, at: nat, err: nat, flat: seq<Word>)
    requires HeapInv(s) && at < HEAP_WORDS && Shows(s.ph, s.kernel, flat)
    requires Access(s, WordAddress(at), err).1.Hit?
    ensures var (s', out) := Access(s, WordAddress(at), err);
      && HeapInv(s') && s'.kernel == s.kernel && Shows(s'.ph, s.kernel, flat)
      && PageMapping(s'.ph, s.kernel, at / 512) == Some(out.m)
      && out.m.frame < FRAME_COUNT && s'.ph.own[out.m.frame] == HeapPage(at / 512)
      && flat[at] == s'.ph.mem[out.m.frame][at % 512]
  {
    hide Access, Linked, Resolve, PathOf, HeapPath, PagesOwned, Coherent;
    var va := WordAddress(at);
    assert InHeap(va) && HeapPageOf(va) == at / 512;
    HeapPathOf(va);
    AccessShows(s, va, err, flat);
    AccessRetrySucceeds(s, va, err);
    var (s', out) := Access(s, va, err);
    CurrentAgrees(s', at / 512);
    assert flat[at] == HeapWord(s'.ph, s.kernel, at);
  }

  lemma {:induction false} StoreShows(s: State, f: nat, at: nat, v: Word, flat: seq<Word>)
    requires HeapInv(s) && at < HEAP_WORDS && Shows(s.ph, s.kernel, flat)
    requires f < FRAME_COUNT && s.ph.own[f] == HeapPage(at / 512)
    ensures var s' := Step(s, Poke(f, at % 512, v));
      HeapInv(s') && s'.kernel == s.kernel && Shows(s'.ph, s.kernel, flat[at := v])
  {
    hide Linked, Resolve, HeapPath, Coherent, HeapShared, HeapClear;
    var a := Poke(f, at % 512, v);
    StepKeepsInv(s, a);
    StepKeepsCoherent(s, a);
    StepKeepsClear(s, a);
    var s' := Step(s, a);
    forall page | 0 <= page < HEAP_PAGES
      ensures PageMapping(s'.ph, s.kernel, page) == PageMapping(s.ph, s.kernel, page)
    {
      FrameStepKeepsMapping(s, a, HeapPath(page));
    }
    PokeKeepsHeapShared(s, a);
    forall x | 0 <= x < HEAP_WORDS
      ensures flat[at := v][x] == HeapWord(s'.ph, s.kernel, x)
    {
      assert flat[x] == HeapWord(s.ph, s.kernel, x);
      assert PageMapping(s'.ph, s.kernel, x / 512) == PageMapping(s.ph, s.kernel, x / 512);
      assert x == x / 512 * 512 + x % 512;
    }
  }

  lemma {:induction false} PokeKeepsHeapShared(s: State, a: Action)
    requires Inv(s) && HeapShared(s.ph) && Legal(s, a) && a.Poke?
    ensures HeapShared(Step(s, a).ph)
  {
    FrameStepSameTables(s, a);
    var ph' := Step(s, a).ph;
    forall r: nat, q: nat | IsSpace(ph', r) && IsSpace(ph', q)
      ensures Shares(ph'.mem, r, q, 256)
    {
      assert IsSpace(s.ph, r) && IsSpace(s.ph, q);
    }
  }

  /**
   * One step on the machine is one step on the flat array; a step that stops the
   * kernel leaves the array as it was.
   */
  lemma {:induction false} HeapStepRefines(s: State, h: HeapAction, flat: seq<Word>)
    requires HeapInv(s) && Shows(s.ph, s.kernel, flat) && HeapLegal(s, h)
    ensures var (s', out) := HeapStep(s, h);
      && HeapInv(s') && s'.kernel == s.kernel
      && (if out == Stopped then Shows(s'.ph, s.kernel, flat)
          else Shows(s'.ph, s.kernel, FlatStep(flat, h).0) && out == FlatStep(flat, h).1)
  {
    hide Access, Linked, Resolve, Coherent, PagesOwned, PagesMapped, Shows, HeapShared, HeapClear;
    match h
    case Other(a) =>
      if a.Touch? {
        AccessShows(s, a.va, a.err, flat);
      } else {
        StepKeepsInv(s, a);
        StepKeepsCoherent(s, a);
        StepKeepsClear(s, a);
        StepKeepsHeapShared(s, a);
        StepKeepsKernel(s, a);
        StepSameRegion(s, a);
        SameRegionKeeps(s.ph, Step(s, a).ph, s.kernel, flat);
      }
    case Load(at) =>
      AccessShows(s, WordAddress(at), 0, flat);
      if Access(s, WordAddress(at), 0).1.Hit? { WordAccess(s, at, 0, flat); }
    case Store(at, v) =>
      AccessShows(s, WordAddress(at), 2, flat);
      var (s', out) := Access(s, WordAddress(at), 2);
      if out.Hit? {
        WordAccess(s, at, 2, flat);
        StoreShows(s', out.m.frame, at, v, flat);
      }
  }

  // ---- When a step stops the kernel ----

  /** A heap page is not mapped and there are too few frames for it and its missing tables. */
  ghost predicate Starved(s: State, page: nat) {
    && Sized(s.ph) && s.kernel < FRAME_COUNT && s.cr3 < FRAME_COUNT && page < HEAP_PAGES
    && PageMapping(s.ph, s.kernel, page) == None
    && Missing(s.ph.mem, s.cr3, HeapPath(page)).Some?
    && CountFree(s.ph.used) <= Missing(s.ph.mem, s.cr3, HeapPath(page)).value
  }

  /** What can be checked before the step: the kernel stops exactly then. */
  ghost predicate StopsAt(s: State, h: HeapAction) {
    match h
    case Load(at) => Starved(s, at / 512)
    case Store(at, _) => Starved(s, at / 512)
    case Other(a) =>
      && a.Touch? && Sized(s.ph) && Resolve(s.ph.mem, s.cr3, PathOf(a.va)).None?
      && (a.err % 2 == 1 || a.err / 8 % 2 == 1 || a.err / 16 % 2 == 1
          || !InHeap(a.va) || Starved(s, HeapPageOf(a.va)))
  }

  lemma {:induction false} HeapAccessHalts(s: State, va: nat, err: nat)
    requires HeapInv(s) && InHeap(va) && !Refused(err)
    ensures Access(s, va, err).1.Hit? <==> !Starved(s, HeapPageOf(va))
  {
    hide Access, Linked, Resolve, Coherent, PathOf, HeapPath, PagesOwned, PagesMapped, HeapClear, HeapShared, Missing;
    var page := HeapPageOf(va);
    HeapPathOf(va);
    HeapSlot(page);
    CurrentAgrees(s, page);
    AccessRetrySucceeds(s, va, err);
    assert s.ph.own[s.cr3].path + HeapPath(page) == HeapPath(page);
    ClearMissing(s.ph, s.cr3, HeapPath(page));
  }

  /**
   * A load or store stops the kernel exactly if its page is unmapped and there are
   * too few frames; any other access, exactly if it is untranslated and not a
   * non-present data access to the region, or starved like one.
   */
  lemma {:induction false} HeapStopsIff(s: State, h: HeapAction)
    requires HeapInv(s) && HeapLegal(s, h)
    ensures HeapStep(s, h).1 == Stopped <==> StopsAt(s, h)
  {
    hide Access, Linked, Resolve, Coherent, PathOf, PagesOwned, PagesMapped, HeapClear, HeapShared, Starved, HeapWord;
    match h
    case Load(at) =>
      HeapAccessHalts(s, WordAddress(at), 0);
      if Access(s, WordAddress(at), 0).1.Hit? { WordAccess(s, at, 0, FlatOf(s)); }
    case Store(at, _) =>
      HeapAccessHalts(s, WordAddress(at), 2);
      if Access(s, WordAddress(at), 2).1.Hit? { WordAccess(s, at, 2, FlatOf(s)); }
    case Other(a) =>
      if a.Touch? {
        AccessRetrySucceeds(s, a.va, a.err);
        if InHeap(a.va) && !Refused(a.err) {
          HeapAccessHalts(s, a.va, a.err);
          HeapPathOf(a.va);
        }
      }
  }

  // ---- Runs ----

  /** The region as a flat array. */
  ghost function FlatOf(s: State): (flat: seq<Word>)
    requires Sized(s.ph)
    ensures Shows(s.ph, s.kernel, flat)
  {
    seq(HEAP_WORDS, at requires 0 <= at < HEAP_WORDS => HeapWord(s.ph, s.kernel, at))
  }

  lemma {:induction false} HeapStepKeepsInv(s: State, h: HeapAction)
    requires HeapInv(s) && HeapLegal(s, h)
    ensures HeapInv(HeapStep(s, h).0)
  {
    hide HeapStep, Linked, Coherent, PagesOwned, PagesMapped, HeapShared, HeapWord, HeapClear;
    HeapStepRefines(s, h, FlatOf(s));
  }

  predicate HeapLegalRun(s: State, run: seq<HeapAction>)
    decreases |run|
  {
    run == [] || (HeapLegal(s, run[0]) &&
      (HeapStep(s, run[0]).1 == Stopped || HeapLegalRun(HeapStep(s, run[0]).0, run[1..])))
  }

  /** What the machine gives out, up to the step that stops the kernel, if any does. */
  function Outputs(s: State, run: seq<HeapAction>): (out: seq<Output>)
    requires HeapLegalRun(s, run)
    ensures |out| <= |run|
    decreases |run|
  {
    if run == [] then []
    else
      var (s', o) := HeapStep(s, run[0]);
      if o == Stopped then [o] else [o] + Outputs(s', run[1..])
  }

  /** The state in which step k of the run is made. */
  function StateAt(s: State, run: seq<HeapAction>, k: nat): State
    requires HeapLegalRun(s, run) && k < |Outputs(s, run)|
    decreases k
  {
    if k == 0 then s else StateAt(HeapStep(s, run[0]).0, run[1..], k - 1)
  }

  /** The state the run ends in: after its last step, or after the one that stopped the kernel. */
  function HeapRun(s: State, run: seq<HeapAction>): (s': State)
    requires HeapLegalRun(s, run)
    decreases |run|
  {
    if run == [] then s
    else
      var (s', o) := HeapStep(s, run[0]);
      if o == Stopped then s' else HeapRun(s', run[1..])
  }

  lemma {:induction false} HeapRunKeepsInv(s: State, run: seq<HeapAction>)
    requires HeapInv(s) && HeapLegalRun(s, run)
    ensures HeapInv(HeapRun(s, run))
    decreases |run|
  {
    hide HeapStep, HeapLegal, HeapInv;
    if run != [] {
      HeapStepKeepsInv(s, run[0]);
      var (s', o) := HeapStep(s, run[0]);
      if o != Stopped { HeapRunKeepsInv(s', run[1..]); }
    }
  }

  /** What a flat array gives out. */
  function FlatOutputs(flat: seq<Word>, run: seq<HeapAction>): (out: seq<Output>)
    requires |flat| == HEAP_WORDS
    ensures |out| == |run|
    decreases |run|
  {
    if run == [] then []
    else
      var (flat', o) := FlatStep(flat, run[0]);
      [o] + FlatOutputs(flat', run[1..])
  }

  /**
   * In every run in which only the fault handler maps heap pages, and spaces are
   * created only once the kernel space has the heap's slot, every step gives what a
   * flat array gives - each load the last word stored at that offset, from whatever
   * space, or zero - except the step, if any, that stops the kernel; and a step
   * stops the kernel exactly if `StopsAt` holds where it is made.
   */
  lemma {:induction false} RegionRefinesFlatArray(s: State, run: seq<HeapAction>, flat: seq<Word>)
    requires HeapInv(s) && HeapLegalRun(s, run) && Shows(s.ph, s.kernel, flat)
    ensures var out := Outputs(s, run);
      && (|out| == |run| || (out != [] && out[|out| - 1] == Stopped))
      && forall k :: 0 <= k < |out| ==>
           out[k] == if StopsAt(StateAt(s, run, k), run[k]) then Stopped else FlatOutputs(flat, run)[k]
    decreases |run|
  {
    hide HeapLegal, HeapStep, FlatStep, HeapInv, HeapWord, StopsAt;
    if run != [] {
      var (s', o) := HeapStep(s, run[0]);
      HeapStopsIff(s, run[0]);
      HeapStepRefines(s, run[0], flat);
      if o != Stopped {
        RegionRefinesFlatArray(s', run[1..], FlatStep(flat, run[0]).0);
        var out, rest := Outputs(s, run), Outputs(s', run[1..]);
        assert out == [o] + rest;
        forall k | 0 <= k < |out|
          ensures out[k] == if StopsAt(StateAt(s, run, k), run[k]) then Stopped else FlatOutputs(flat, run)[k]
        {
          if k > 0 { assert out[k] == rest[k - 1] && run[k] == run[1..][k - 1]; }
        }
      }
    }
  }

  /** The flat array after a run. */
  function FlatAfter(flat: seq<Word>, run: seq<HeapAction>): (r: seq<Word>)
    requires |flat| == HEAP_WORDS
    ensures |r| == HEAP_WORDS
    decreases |run|
  {
    if run == [] then flat else FlatAfter(FlatStep(flat, run[0]).0, run[1..])
  }

  /** A run that does not stop leaves the region as the flat array is left. */
  lemma {:induction false} RunShows(s: State, run: seq<HeapAction>, flat: seq<Word>)
    requires HeapInv(s) && HeapLegalRun(s, run) && Shows(s.ph, s.kernel, flat) && Stopped !in Outputs(s, run)
    ensures var s' := HeapRun(s, run); Sized(s'.ph) && Shows(s'.ph, s'.kernel, FlatAfter(flat, run))
    decreases |run|
  {
    hide Linked, Coherent, HeapClear, HeapShared, PagesOwned, PagesMapped, HeapStep, HeapLegal, FlatStep, HeapWord;
    if run != [] {
      var (s', o) := HeapStep(s, run[0]);
      HeapStepRefines(s, run[0], flat);
      assert Outputs(s, run)[0] == o && o != Stopped;
      assert Outputs(s, run) == [o] + Outputs(s', run[1..]);
      RunShows(s', run[1..], FlatStep(flat, run[0]).0);
    }
  }

  /** Before the first fault the region is all zeros. */
  lemma {:induction false} UntouchedRegion(s: State)
    requires Inv(s) && !s.ph.mem[s.kernel][256].present
    requires forall r: nat :: IsSpace(s.ph, r) ==> r == s.kernel
    requires forall f :: 0 <= f < FRAME_COUNT ==> !s.ph.own[f].HeapPage?
    requires Coherent(s) && HeapClear(s.ph)
    ensures HeapInv(s) && Shows(s.ph, s.kernel, seq(HEAP_WORDS, _ => ZERO))
  {
  }
}
