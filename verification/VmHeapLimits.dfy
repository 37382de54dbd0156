// The limits of the demand-paged heap region: why spaces must not be created
// before the kernel space has the heap's slot, and how many frames faults take.
module VmHeapLimits {
  import opened Words
  import opened FrameSpec
  import opened Paging
  import opened VmSpec
  import opened VmMapping
  import opened VmSpaces
  import opened VmFaults
  import opened VmRun
  import opened VmGuarantees
  import opened VmHeapTables
  import opened VmHeapRegion

  // ---- Frames taken by one fault ----

  lemma {:induction false} MapConsumes(s: State, space: nat, va: nat, pa: nat, flags: Word)
    requires PhysInv(s.ph) && IsSpace(s.ph, space) && VmMap(s, space, va, pa, flags).1
    ensures Missing(s.ph.mem, space, PathOf(va)).Some?
    ensures CountFree(VmMap(s, space, va, pa, flags).0.ph.used) ==
      CountFree(s.ph.used) - Missing(s.ph.mem, space, PathOf(va)).value
  {
    WalkSucceedsIff(s.ph, space, PathOf(va));
  }

  /** A handled fault takes one data frame and one frame for each table it had to add. */
  lemma {:induction false} FaultConsumes(s: State, va: nat, err: nat)
    requires Inv(s) && VmHandleFault(s, va, err).1
    ensures Missing(s.ph.mem, s.cr3, PathOf(va)).Some?
    ensures CountFree(VmHandleFault(s, va, err).0.ph.used) ==
      CountFree(s.ph.used) - 1 - Missing(s.ph.mem, s.cr3, PathOf(va)).value
  {
    hide VmMap, VmHandleFault, Linked, PathOf, Missing, Resolve;
    FaultUnfolds(s, va, err);
    var f := LowestFree(s.ph.used).value;
    PreparedFacts(s, va, err);
    HeapPathOf(va);
    var s1 := Prepared(s, va, f);
    MapConsumes(s1, s.cr3, va - va % PAGE_SIZE, f * PAGE_SIZE, TABLE_FLAGS);
    SameTablesMissing(s.ph, s1.ph.mem, s.cr3, PathOf(va));
    CountFreeUpdate(s.ph.used, f, true);
  }

  // ---- Creating a space too early ----

  /** In a space without the heap's slot, the first access to a heap word is repaired and finds zero. */
  lemma {:induction false} FirstAccess(s: State, err: nat)
    requires Inv(s) && Coherent(s) && !s.ph.mem[s.cr3][256].present && 4 <= CountFree(s.ph.used) && !Refused(err)
    ensures var (s', out) := Access(s, WordAddress(0), err);
      && out.Hit? && out.m.frame < FRAME_COUNT
      && s'.ph.own[out.m.frame].HeapPage? && s'.ph.mem[out.m.frame][0] == ZERO
      && CountFree(s'.ph.used) == CountFree(s.ph.used) - 4
      && s'.cr3 == s.cr3 && s'.kernel == s.kernel
  {
    hide VmHandleFault, Linked, Coherent;
    var va := WordAddress(0);
    HeapPathOf(va);
    var p := HeapPath(0);
    HeapSlot(0);
    assert Resolve(s.ph.mem, s.cr3, p) == None && Missing(s.ph.mem, s.cr3, p) == Some(3);
    FaultHandledIff(s, va, err);
    AccessUnfolds(s, va, err);
    AccessRetrySucceeds(s, va, err);
    FaultFrame(s, va, err);
    FaultConsumes(s, va, err);
    FaultExact(s, va, err, s.cr3, p);
  }

  /**
   * The heap's first address with bits 48..63 clear: not canonical, but the walk,
   * which ignores those bits, takes it for the heap's first page.
   */
  const ALIAS: nat := 0x8000_0000_0000

  /**
   * Unmapping a heap page by its alias takes the mapping away and leaves it in the
   * TLB, as invlpg does nothing on an address that is not canonical.
   */
  lemma {:induction false} AliasLeavesStale(s: State)
    requires Inv(s) && Coherent(s) && !s.ph.mem[s.cr3][256].present && 4 <= CountFree(s.ph.used)
    ensures var s1 := Access(s, WordAddress(0), 0).0;
      && Inv(s1) && Coherent(s1) && IsTable(s1.ph, s1.cr3)
      && !Canonical(ALIAS) && !Coherent(VmUnmap(s1, s1.cr3, ALIAS).0)
  {
    hide Access, Linked, Coherent, VmUnmap, CountFree, VmHandleFault, Resolve, Leaf;
    var s1, out := Access(s, WordAddress(0), 0).0, Access(s, WordAddress(0), 0).1;
    FirstAccess(s, 0);
    AccessKeepsInv(s, WordAddress(0), 0);
    AccessRetrySucceeds(s, WordAddress(0), 0);
    HitIsCached(s, WordAddress(0), 0);
    assert PathOf(ALIAS) == HeapPath(0) == PathOf(WordAddress(0));
    UnmapCoherentIff(s1, s1.cr3, ALIAS);
    FirstAccessLeaf(s, 0);
  }

  lemma {:induction false} HitIsCached(s: State, va: nat, err: nat)
    requires Inv(s) && Access(s, va, err).1.Hit?
    ensures PathOf(va) in Access(s, va, err).0.tlb
  {
    hide VmHandleFault, PathOf, Resolve;
  }

  lemma {:induction false} FirstAccessLeaf(s: State, err: nat)
    requires Inv(s) && Coherent(s) && !s.ph.mem[s.cr3][256].present && 4 <= CountFree(s.ph.used) && !Refused(err)
    ensures var s1 := Access(s, WordAddress(0), err).0; Leaf(s1.ph.mem, s1.cr3, HeapPath(0)).Some?
  {
    hide VmHandleFault, VmMap, Linked, Coherent, PathOf, CountFree, Leaf;
    var va := WordAddress(0);
    HeapPathOf(va);
    HeapSlot(0);
    assert Resolve(s.ph.mem, s.cr3, HeapPath(0)) == None;
    FirstAccess(s, err);
    AccessUnfolds(s, va, err);
    FaultUnfolds(s, va, err);
    FaultFrame(s, va, err);
    PreparedFacts(s, va, err);
    var f := LowestFree(s.ph.used).value;
    MapReachesLeaf(Prepared(s, va, f), s.cr3, va - va % PAGE_SIZE, f * PAGE_SIZE, TABLE_FLAGS);
  }

  /** The first access from one space leaves a space without the slot as it is. */
  lemma {:induction false} FirstAccessElsewhere(s: State, err: nat, r: nat)
    requires Inv(s) && Coherent(s) && IsSpace(s.ph, r) && r != s.cr3
    requires !s.ph.mem[s.cr3][256].present
    ensures var s' := Access(s, WordAddress(0), err).0; Inv(s') && IsSpace(s'.ph, r) && s'.ph.mem[r] == s.ph.mem[r]
  {
    hide VmHandleFault, VmMap, Linked, Coherent, Resolve, PathOf, LowestFree, Evolves;
    var va := WordAddress(0);
    StepKeepsInv(s, Touch(va, err));
    AccessUnfolds(s, va, err);
    FaultUnfolds(s, va, err);
    if Tries(s, va, err) {
      var f := LowestFree(s.ph.used).value;
      PreparedFacts(s, va, err);
      MapKeepsRoots(Prepared(s, va, f), s.cr3, va - va % PAGE_SIZE, f * PAGE_SIZE, TABLE_FLAGS, r);
    }
  }

  /**
   * If a space is created while the kernel space lacks the heap's slot, a word
   * stored from the kernel space reads as zero from the new space: the region is
   * no longer one flat array.
   */
  lemma {:induction false} CreatedTooEarly(s: State, v: Word)
    requires Inv(s) && Coherent(s) && s.cr3 == s.kernel && !s.ph.mem[s.kernel][256].present
    requires 9 <= CountFree(s.ph.used) && v != ZERO
    ensures var (s1, space) := VmCreateSpace(s);
      && Inv(s1)
      && var (s2, stored) := HeapStep(s1, Store(0, v));
         && stored == Done && Inv(s2) && IsSpace(s2.ph, space)
         && HeapStep(VmSwitch(s2, space), Load(0)).1 == Value(ZERO)
  {
    hide Access, Linked, Resolve, Coherent, VmCreateSpace, CountFree, VmMap, VmUnmap, PathOf, LowestFree;
    hide Accounted, Evolves;
    StepKeepsInv(s, NewSpace);
    StepKeepsCoherent(s, NewSpace);
    NewSpaceStep(s);
    CreateKeepsInv(s);
    CreateTakesOne(s);
    var (s1, space) := VmCreateSpace(s);
    FirstAccess(s1, 2);
    FirstAccessElsewhere(s1, 2, space);
    StepKeepsCoherent(s1, Touch(WordAddress(0), 2));
    var (t, out) := Access(s1, WordAddress(0), 2);
    var poke := Poke(out.m.frame, 0, v);
    StepKeepsInv(t, poke);
    FrameStepSameTables(t, poke);
    var s3 := VmSwitch(Step(t, poke), space);
    SwitchIsCoherent(Step(t, poke), space);
    FirstAccess(s3, 0);
  }

  /** Up to the step that stops the kernel, if any, the outputs are those of the flat array. */
  predicate Agrees(out: seq<Output>, flat: seq<Output>) {
    |out| <= |flat| && forall k :: 0 <= k < |out| ==> out[k] == Stopped || out[k] == flat[k]
  }

  /** Every run that follows finds the region to be one flat array, from whatever space. */
  ghost predicate FlatForever(s: State) {
    Sized(s.ph) && forall run :: HeapLegalRun(s, run) ==> Agrees(Outputs(s, run), FlatOutputs(FlatOf(s), run))
  }

  lemma {:induction false} InvFlatForever(s: State)
    requires HeapInv(s)
    ensures FlatForever(s)
  {
    hide Linked, Coherent, HeapShared, PagesOwned, PagesMapped, HeapClear, HeapWord;
    hide StopsAt, HeapLegalRun, Outputs, FlatOutputs;
    forall run | HeapLegalRun(s, run)
      ensures Agrees(Outputs(s, run), FlatOutputs(FlatOf(s), run))
    {
      RegionRefinesFlatArray(s, run, FlatOf(s));
    }
  }

  /** A store, a switch to another space, and a load of the same word. */
  function StoreThere(v: Word, space: nat): seq<HeapAction> { [Store(0, v), Other(Switch(space)), Load(0)] }

  lemma {:induction false} StoreThereOutputs(s: State, v: Word, space: nat)
    requires HeapLegal(s, Store(0, v)) && HeapStep(s, Store(0, v)).1 == Done
    requires var s2 := HeapStep(s, Store(0, v)).0;
      Sized(s2.ph) && IsSpace(s2.ph, space) && IsSpace(s2.ph, s2.kernel) && IsSpace(s2.ph, s2.cr3)
    ensures HeapLegalRun(s, StoreThere(v, space))
    ensures var s3 := VmSwitch(HeapStep(s, Store(0, v)).0, space);
      && HeapLegal(s3, Load(0))
      && Outputs(s, StoreThere(v, space)) == [Done, Done, HeapStep(s3, Load(0)).1]
  {
    hide HeapStep;
    var run := StoreThere(v, space);
    var s2 := HeapStep(s, Store(0, v)).0;
    var s3 := VmSwitch(s2, space);
    SwitchStep(s2, space);
    assert run[1..][1..] == [Load(0)] && run[1..][0] == Other(Switch(space)) && run[1..][1..][1..] == [];
    var out := HeapStep(s3, Load(0)).1;
    assert HeapLegalRun(s3, [Load(0)]);
    assert Outputs(s3, [Load(0)]) == [out];
    assert Outputs(s2, run[1..]) == [Done] + [out];
    assert Outputs(s, run) == [Done] + ([Done] + [out]);
  }

  lemma {:induction false} SwitchStep(s: State, space: nat)
    requires Sized(s.ph) && IsSpace(s.ph, space) && IsSpace(s.ph, s.kernel) && IsSpace(s.ph, s.cr3)
    ensures HeapLegal(s, Other(Switch(space))) && HeapStep(s, Other(Switch(space))) == (VmSwitch(s, space), Done)
    ensures HeapLegal(VmSwitch(s, space), Load(0))
  {
  }

  lemma {:induction false} StoreThereFlat(flat: seq<Word>, v: Word, space: nat)
    requires |flat| == HEAP_WORDS
    ensures FlatOutputs(flat, StoreThere(v, space)) == [Done, Done, Value(v)]
  {
    var run, flat' := StoreThere(v, space), flat[0 := v];
    assert run[1..][1..] == [Load(0)] && run[1..][0] == Other(Switch(space)) && run[1..][1..][1..] == [];
    assert FlatOutputs(flat', [Load(0)]) == [Value(v)];
    assert FlatOutputs(flat', run[1..]) == [Done] + [Value(v)];
    assert FlatOutputs(flat, run) == [Done] + ([Done] + [Value(v)]);
  }

  /**
   * The region stays one flat array in all that follows the creation of a space
   * exactly if the kernel space had the heap's slot by then.
   */
  lemma {:induction false} FlatForeverIff(s: State)
    requires HeapInv(s) && 9 <= CountFree(s.ph.used)
    ensures VmCreateSpace(s).1 != 0
    ensures FlatForever(VmCreateSpace(s).0) <==> Down(s.ph.mem[s.kernel][256])
  {
    hide HeapLegalRun, Outputs, FlatOutputs, HeapStep, VmCreateSpace, HeapWord, Resolve, Linked, CountFree;
    CreateTakesOne(s);
    NewSpaceStep(s);
    StepKeepsInv(s, NewSpace);
    var (s1, space) := VmCreateSpace(s);
    if Down(s.ph.mem[s.kernel][256]) {
      NewSpaceHeapStep(s);
      HeapStepKeepsInv(s, Other(NewSpace));
      InvFlatForever(s1);
    } else {
      assert NotLarge(s.ph, s.kernel, 256);
      assert Shares(s.ph.mem, s.kernel, s.cr3, 256);
      var v, flat := TABLE_FLAGS, FlatOf(s1);
      CreatedTooEarly(s, v);
      StoreThereOutputs(s1, v, space);
      StoreThereFlat(flat, v, space);
      var out := Outputs(s1, StoreThere(v, space));
      assert out[2] == Value(ZERO) && FlatOutputs(flat, StoreThere(v, space))[2] == Value(v);
    }
  }

  lemma {:induction false} NewSpaceHeapStep(s: State)
    requires Inv(s) && Down(s.ph.mem[s.kernel][256])
    ensures HeapLegal(s, Other(NewSpace)) && HeapStep(s, Other(NewSpace)).0 == VmCreateSpace(s).0
  {
  }

  lemma {:induction false} SwitchIsCoherent(s: State, space: nat)
    requires Sized(s.ph) && space != 0
    ensures Coherent(VmSwitch(s, space))
  {
  }

  lemma {:induction false} CreateTakesOne(s: State)
    requires Inv(s) && CountFree(s.ph.used) > 0
    ensures VmCreateSpace(s).1 != 0 && CountFree(VmCreateSpace(s).0.ph.used) == CountFree(s.ph.used) - 1
  {
    CreateKeepsInv(s);
    CountFreeUpdate(s.ph.used, VmCreateSpace(s).1, true);
  }

  // ---- Frames taken by all faults together ----

  /** The paths of the ten tables that serve the region. */
  predicate HeapTablePath(p: seq<Index>) {
    p == [256] || p == [256, 0] || (|p| == 3 && p[..2] == [256, 0] && p[2] < 8)
  }

  /** A frame that was free is still free, or serves the region. */
  predicate ForHeap(o: Owner) {
    o.Free? || (o.HeapPage? && o.page < HEAP_PAGES) || (o.Table? && HeapTablePath(o.path))
  }

  /** The tables a walk adds have the prefixes of its path as their paths. */
  lemma {:induction false} WalkAdds(ph: Phys, t: nat, path: seq<Index>, f: nat)
    requires PhysInv(ph) && IsTable(ph, t) && 1 <= |path| && |ph.own[t].path| + |path| == 4
    requires f < FRAME_COUNT && ph.own[f] == Free
    ensures var o := Walk(ph, t, path, true).0.own[f];
      o.Free? || (o.Table? && |ph.own[t].path| < |o.path| < 4 && o.path == (ph.own[t].path + path)[..|o.path|])
    decreases |path|
  {
    if |path| > 1 {
      DescendFacts(ph, t, path[0], true, t);
      var (ph', next) := Descend(ph, t, path[0], true);
      var full := ph.own[t].path + path;
      assert full == ph.own[t].path + [path[0]] + path[1..];
      assert full[..|ph.own[t].path| + 1] == ph.own[t].path + [path[0]];
      if next.Some? {
        if ph'.own[f] == Free {
          WalkAdds(ph', next.value, path[1..], f);
        } else {
          WalkGrows(ph', next.value, path[1..], true, next.value);
        }
      }
    }
  }

  lemma {:induction false} HeapPrefix(page: nat, n: nat)
    requires page < HEAP_PAGES && 1 <= n < 4
    ensures HeapTablePath(HeapPath(page)[..n])
  {
  }

  lemma {:induction false} FaultTakesForHeap(s: State, va: nat, err: nat, f: nat)
    requires Inv(s) && f < FRAME_COUNT && s.ph.own[f] == Free
    ensures ForHeap(VmHandleFault(s, va, err).0.ph.own[f])
  {
    hide VmHandleFault, Linked, PathOf, HeapPath, HeapTablePath;
    FaultUnfolds(s, va, err);
    if Tries(s, va, err) {
      var claimed := LowestFree(s.ph.used).value;
      PreparedFacts(s, va, err);
      MappedFacts(s, va, err);
      HeapPathOf(va);
      var s1 := Prepared(s, va, claimed);
      if f != claimed {
        WalkAdds(s1.ph, s.cr3, PathOf(va), f);
        var o := Walk(s1.ph, s.cr3, PathOf(va), true).0.own[f];
        if o.Table? {
          assert [] + PathOf(va) == PathOf(va);
          HeapPrefix(HeapPageOf(va), |o.path|);
        }
      }
    }
  }

  /** Within the shared slot a path belongs to one table. */
  lemma {:induction false} OneTablePerPath(ph: Phys, x: nat, y: nat)
    requires PhysInv(ph) && HeapShared(ph) && IsTable(ph, x) && IsTable(ph, y)
    requires ph.own[x].path == ph.own[y].path != [] && ph.own[x].path[0] == 256
    ensures x == y
    decreases |ph.own[x].path|
  {
    assert LinkUp(ph, x) && LinkUp(ph, y);
    var px, py := ph.own[x].parent, ph.own[y].parent;
    if |ph.own[x].path| == 1 {
      assert IsSpace(ph, px) && IsSpace(ph, py);
    } else {
      OneTablePerPath(ph, px, py);
    }
  }

  // ---- Counting ----

  /** Numbers the pages and tables of the region. */
  function Number(o: Owner): nat
    requires ForHeap(o) && !o.Free?
  {
    if o.HeapPage? then o.page
    else if |o.path| == 1 then 0 else if |o.path| == 2 then 1 else 2 + o.path[2]
  }

  function UpTo(n: nat): (r: set<nat>)
    ensures |r| == n && forall k: nat :: k in r <==> k < n
  {
    if n == 0 then {} else UpTo(n - 1) + {n - 1}
  }

  /** Frames with different numbers are at most as many as the numbers they may have. */
  lemma {:induction false} NumberedCount(own: seq<Owner>, fs: set<nat>, numbers: set<nat>)
    requires forall f :: f in fs ==> f < |own| && ForHeap(own[f]) && !own[f].Free? && Number(own[f]) in numbers
    requires forall f, g :: f in fs && g in fs && Number(own[f]) == Number(own[g]) ==> f == g
    ensures |fs| <= |numbers|
    decreases fs
  {
    if f :| f in fs {
      NumberedCount(own, fs - {f}, numbers - {Number(own[f])});
    }
  }

  /** The frames that hold pages of the region. */
  ghost function PageFrames(ph: Phys): set<nat>
    requires Sized(ph)
  {
    set f: nat | f < FRAME_COUNT && ph.own[f].HeapPage?
  }

  /** The frames that hold tables of the region. */
  ghost function TableFrames(ph: Phys): set<nat>
    requires Sized(ph)
  {
    set f: nat | f < FRAME_COUNT && ph.own[f].Table? && HeapTablePath(ph.own[f].path)
  }

  lemma {:induction false} PagesCount(s: State, numbers: set<nat>)
    requires HeapInv(s) && forall f :: f in PageFrames(s.ph) ==> s.ph.own[f].page in numbers
    ensures |PageFrames(s.ph)| <= |numbers|
  {
    hide Linked, Coherent, HeapShared, PagesMapped, HeapTablePath, HeapClear;
    NumberedCount(s.ph.own, PageFrames(s.ph), numbers);
  }

  lemma {:induction false} TablesCount(s: State, numbers: set<nat>)
    requires HeapInv(s) && forall f :: f in TableFrames(s.ph) ==> Number(s.ph.own[f]) in numbers
    ensures |TableFrames(s.ph)| <= |numbers|
  {
    hide Linked, Coherent, HeapShared, PagesMapped, PagesOwned, HeapClear;
    var fs := TableFrames(s.ph);
    forall f, g | f in fs && g in fs && Number(s.ph.own[f]) == Number(s.ph.own[g])
      ensures f == g
    {
      SameNumberSamePath(s.ph.own[f].path, s.ph.own[g].path);
      OneTablePerPath(s.ph, f, g);
    }
    NumberedCount(s.ph.own, fs, numbers);
  }

  /** 4096 pages and ten tables. */
  lemma {:induction false} ServingBounds(s: State)
    requires HeapInv(s)
    ensures |PageFrames(s.ph)| <= 4096 && |TableFrames(s.ph)| <= 10
  {
    hide Linked, Coherent, HeapShared, PagesMapped, HeapClear, UpTo;
    PagesCount(s, UpTo(4096));
    TablesCount(s, UpTo(10));
  }

  lemma {:induction false} SameNumberSamePath(p: seq<Index>, q: seq<Index>)
    requires HeapTablePath(p) && HeapTablePath(q) && Number(Table(p, 0)) == Number(Table(q, 0))
    ensures p == q && p != [] && p[0] == 256
  {
  }

  // ---- The budget of a whole run ----

  predicate IsAccess(h: HeapAction) { h.Load? || h.Store? || h.a.Touch? }

  /** The frames that were free before and are not after. */
  ghost function Claimed(ph: Phys, ph': Phys): set<nat>
    requires Sized(ph) && Sized(ph')
  {
    set f: nat | f < FRAME_COUNT && ph.own[f].Free? && !ph'.own[f].Free?
  }

  lemma {:induction false} HeapStepSized(s: State, h: HeapAction)
    requires HeapLegal(s, h)
    ensures Sized(HeapStep(s, h).0.ph)
  {
    hide Access, Step;
  }

  /** The frames that faults have taken over the run, one set for each step. */
  ghost function Taken(s: State, run: seq<HeapAction>): seq<set<nat>>
    requires HeapLegalRun(s, run)
    decreases |run|
  {
    if run == [] then []
    else
      var (s', o) := HeapStep(s, run[0]);
      HeapStepSized(s, run[0]);
      var now := if IsAccess(run[0]) then Claimed(s.ph, s'.ph) else {};
      [now] + if o == Stopped then [] else Taken(s', run[1..])
  }

  function Total(sets: seq<set<nat>>): nat {
    if sets == [] then 0 else |sets[0]| + Total(sets[1..])
  }

  /** A frame that serves the region, as a page or as a table. */
  predicate Serves(o: Owner) { ForHeap(o) && !o.Free? }

  /** Every step leaves alone the frames that serve the region; an access takes frames for it only. */
  lemma {:induction false} HeapStepServes(s: State, h: HeapAction, f: nat)
    requires HeapInv(s) && HeapLegal(s, h) && f < FRAME_COUNT
    ensures Sized(HeapStep(s, h).0.ph)
    ensures Serves(s.ph.own[f]) ==> HeapStep(s, h).0.ph.own[f] == s.ph.own[f]
    ensures IsAccess(h) && s.ph.own[f].Free? ==> ForHeap(HeapStep(s, h).0.ph.own[f])
    ensures IsAccess(h) && !s.ph.own[f].Free? ==> HeapStep(s, h).0.ph.own[f] == s.ph.own[f]
  {
    hide Linked, Access, Step, Resolve, HeapInv, HeapTablePath;
    HeapStepSized(s, h);
    InvOf(s);
    match h
    case Load(at) => AccessServes(s, WordAddress(at), 0, f);
    case Store(at, v) => AccessServes(s, WordAddress(at), 2, f);
    case Other(a) =>
      if a.Touch? { AccessServes(s, a.va, a.err, f); TouchStep(s, a); } else { StepOwnership(s, a, f); }
  }

  lemma {:induction false} InvOf(s: State)
    requires HeapInv(s)
    ensures Inv(s) && Coherent(s)
  {
  }

  lemma {:induction false} TouchStep(s: State, a: Action)
    requires Legal(s, a) && a.Touch?
    ensures Step(s, a) == Access(s, a.va, a.err).0
  {
  }

  lemma {:induction false} AccessServes(s: State, va: nat, err: nat, f: nat)
    requires HeapInv(s) && f < FRAME_COUNT
    ensures var o := Access(s, va, err).0.ph.own[f];
      if s.ph.own[f].Free? then ForHeap(o) else o == s.ph.own[f]
  {
    hide VmHandleFault, Linked, PathOf, HeapTablePath, Resolve, Coherent, HeapShared, PagesOwned, PagesMapped, HeapClear;
    AccessUnfolds(s, va, err);
    FaultOwnership(s, va, err, f);
    if s.ph.own[f] == Free { FaultTakesForHeap(s, va, err, f); }
  }

  ghost function Union(sets: seq<set<nat>>): set<nat> {
    if sets == [] then {} else sets[0] + Union(sets[1..])
  }

  /** A frame that serves the region does so to the end; no later fault takes it again. */
  lemma {:induction false} RunServes(s: State, run: seq<HeapAction>, f: nat)
    requires HeapInv(s) && HeapLegalRun(s, run) && f < FRAME_COUNT && Serves(s.ph.own[f])
    ensures Sized(HeapRun(s, run).ph) && HeapRun(s, run).ph.own[f] == s.ph.own[f]
    ensures f !in Union(Taken(s, run))
    decreases |run|
  {
    hide HeapStep, HeapLegal, Serves;
    InvOf(s);
    if run != [] {
      HeapStepServes(s, run[0], f);
      HeapStepKeepsInv(s, run[0]);
      var (s', o) := HeapStep(s, run[0]);
      assert !s.ph.own[f].Free? by { ServesNotFree(s.ph.own[f]); }
      if o != Stopped { RunServes(s', run[1..], f); }
    }
  }

  lemma {:induction false} ServesNotFree(o: Owner)
    requires Serves(o)
    ensures !o.Free?
  {
  }

  /** What faults take, step by step, is disjoint, and serves the region to the end. */
  lemma {:induction false} TakenServes(s: State, run: seq<HeapAction>)
    requires HeapInv(s) && HeapLegalRun(s, run)
    ensures Sized(HeapRun(s, run).ph)
    ensures forall f :: f in Union(Taken(s, run)) ==> f < FRAME_COUNT && Serves(HeapRun(s, run).ph.own[f])
    ensures Total(Taken(s, run)) == |Union(Taken(s, run))|
    decreases |run|
  {
    hide HeapStep, HeapLegal, Serves, ForHeap, HeapInv;
    HeapRunKeepsInv(s, run);
    InvOf(HeapRun(s, run));
    if run != [] {
      var (s', o) := HeapStep(s, run[0]);
      HeapStepKeepsInv(s, run[0]);
      InvOf(s);
      InvOf(s');
      var now := Taken(s, run)[0];
      var rest := if o == Stopped then [] else Taken(s', run[1..]);
      assert Taken(s, run) == [now] + rest;
      if o != Stopped { TakenServes(s', run[1..]); }
      forall f | f in now
        ensures f < FRAME_COUNT && Serves(HeapRun(s, run).ph.own[f]) && f !in Union(rest)
      {
        HeapStepServes(s, run[0], f);
        assert Serves(s'.ph.own[f]) by { ServesIs(s'.ph.own[f]); }
        if o != Stopped { RunServes(s', run[1..], f); }
      }
      assert |now + Union(rest)| == |now| + |Union(rest)|;
    }
  }

  lemma {:induction false} ServesIs(o: Owner)
    requires ForHeap(o) && !o.Free?
    ensures Serves(o)
  {
  }

  /**
   * Over every run - whatever else is mapped, unmapped, created, allocated or freed
   * in between - faults take at most 4096 frames for the region's pages and 10 for
   * its tables, each once, and all of them serve the region to the end.
   */
  lemma {:induction false} FaultBudget(s: State, run: seq<HeapAction>)
    requires HeapInv(s) && HeapLegalRun(s, run)
    ensures Sized(HeapRun(s, run).ph)
    ensures var ph', fs := HeapRun(s, run).ph, Union(Taken(s, run));
      && fs <= PageFrames(ph') + TableFrames(ph') && |PageFrames(ph')| <= 4096 && |TableFrames(ph')| <= 10
      && Total(Taken(s, run)) == |fs| <= 4106
  {
    hide HeapRun, HeapLegalRun, HeapInv, Taken;
    TakenServes(s, run);
    HeapRunKeepsInv(s, run);
    ServingBounds(HeapRun(s, run));
    var ph', fs := HeapRun(s, run).ph, Union(Taken(s, run));
    SubsetSize(fs, PageFrames(ph') + TableFrames(ph'));
  }

  lemma {:induction false} SubsetSize(a: set<nat>, b: set<nat>)
    requires a <= b
    ensures |a| <= |b|
  {
    assert b == a + (b - a);
  }

  // ---- The fault counter ----

  lemma {:induction false} FaultCounted(s: State, va: nat, err: nat)
    requires Inv(s) && s.faults < WORD_LIMIT
    ensures var (s', ok) := VmHandleFault(s, va, err); s'.faults == (s.faults + if ok then 1 else 0) % WORD_LIMIT
  {
    hide VmMap, VmHandleFault, Linked, PathOf, Mapped, Evolves, Accounted;
    FaultUnfolds(s, va, err);
    if Tries(s, va, err) { MappedFacts(s, va, err); }
  }

  lemma {:induction false} FaultBringsPage(s: State, va: nat, err: nat)
    requires Inv(s)
    ensures var (s', ok) := VmHandleFault(s, va, err);
      |PageFrames(s'.ph)| == |PageFrames(s.ph)| + if ok then 1 else 0
  {
    hide VmHandleFault, Linked, PathOf, Accounted, LowestFree;
    var (s', ok) := VmHandleFault(s, va, err);
    if ok { FaultFrame(s, va, err); }
    var added := if ok then {LowestFree(s.ph.used).value} else {};
    forall f: nat | f < FRAME_COUNT
      ensures s'.ph.own[f].HeapPage? <==> s.ph.own[f].HeapPage? || f in added
    {
      FaultOwnership(s, va, err, f);
    }
    assert PageFrames(s'.ph) == PageFrames(s.ph) + added;
  }

  /** A repaired fault is counted and brings in one page; any other is not and brings in none. */
  lemma {:induction false} FaultCounts(s: State, va: nat, err: nat)
    requires Inv(s) && s.faults < WORD_LIMIT
    ensures var (s', ok) := VmHandleFault(s, va, err);
      && s'.faults == (s.faults + if ok then 1 else 0) % WORD_LIMIT
      && |PageFrames(s'.ph)| == |PageFrames(s.ph)| + if ok then 1 else 0
  {
    hide VmHandleFault, Linked, PageFrames;
    FaultCounted(s, va, err);
    FaultBringsPage(s, va, err);
  }

  lemma {:induction false} StepCounts(s: State, h: HeapAction)
    requires HeapInv(s) && HeapLegal(s, h) && s.faults < WORD_LIMIT
    ensures var s' := HeapStep(s, h).0;
      && Sized(s'.ph) && |PageFrames(s'.ph)| >= |PageFrames(s.ph)|
      && s'.faults == (s.faults + |PageFrames(s'.ph)| - |PageFrames(s.ph)|) % WORD_LIMIT
  {
    hide VmHandleFault, Linked, Resolve, PathOf, HeapInv, Step, PageFrames, Access;
    InvOf(s);
    HeapStepSized(s, h);
    match h
    case Load(at) => AccessCounts(s, WordAddress(at), 0);
    case Store(at, v) => AccessCounts(s, WordAddress(at), 2); StoreKeepsPages(s, at, v);
    case Other(a) =>
      if a.Touch? { AccessCounts(s, a.va, a.err); TouchStep(s, a); } else { OtherCounts(s, a); }
  }

  lemma {:induction false} AccessCounts(s: State, va: nat, err: nat)
    requires Inv(s) && Coherent(s) && s.faults < WORD_LIMIT
    ensures var s' := Access(s, va, err).0;
      && |PageFrames(s'.ph)| >= |PageFrames(s.ph)|
      && s'.faults == (s.faults + |PageFrames(s'.ph)| - |PageFrames(s.ph)|) % WORD_LIMIT
  {
    hide VmHandleFault, Linked, Resolve, PathOf, PageFrames;
    FaultCounts(s, va, err);
    FaultTlb(s, va, err);
    AccessRetrySucceeds(s, va, err);
  }

  lemma {:induction false} StoreKeepsPages(s: State, at: WordOffset, v: Word)
    requires HeapLegal(s, Store(at, v))
    ensures var s', s1 := HeapStep(s, Store(at, v)).0, Access(s, WordAddress(at), 2).0;
      Sized(s'.ph) && PageFrames(s'.ph) == PageFrames(s1.ph) && s'.faults == s1.faults
  {
    hide Access;
  }

  lemma {:induction false} OtherCounts(s: State, a: Action)
    requires Inv(s) && Outside(s, a) && !a.Touch?
    ensures Sized(Step(s, a).ph) && PageFrames(Step(s, a).ph) == PageFrames(s.ph) && Step(s, a).faults == s.faults
  {
    hide VmMap, VmUnmap, VmCreateSpace, Linked, PathOf;
    var s' := Step(s, a);
    forall f: nat | f < FRAME_COUNT
      ensures s'.ph.own[f].HeapPage? <==> s.ph.own[f].HeapPage?
    {
      StepOwnership(s, a, f);
    }
    match a
    case MapPage(space, va, pa, flags) => MapKeepsRegisters(s, space, va, pa, flags);
    case UnmapPage(space, va) => UnmapKeepsRegisters(s, space, va);
    case NewSpace => CreateKeepsInv(s);
    case _ =>
  }

  lemma {:induction false} CountsAdd(x: nat, y: nat, z: nat, before: nat, mid: nat, after: nat)
    requires before <= mid <= after
    requires y == (x + mid - before) % WORD_LIMIT && z == (y + after - mid) % WORD_LIMIT
    ensures z == (x + after - before) % WORD_LIMIT
  {
    ModuloAdds(x, mid - before, after - mid, WORD_LIMIT);
  }

  /** Over every run the fault counter grows by exactly the number of pages brought in, modulo 2^64. */
  lemma {:induction false} CounterCountsPages(s: State, run: seq<HeapAction>)
    requires HeapInv(s) && HeapLegalRun(s, run) && s.faults < WORD_LIMIT
    ensures var s' := HeapRun(s, run);
      && Sized(s'.ph) && |PageFrames(s'.ph)| >= |PageFrames(s.ph)|
      && s'.faults == (s.faults + |PageFrames(s'.ph)| - |PageFrames(s.ph)|) % WORD_LIMIT
    decreases |run|
  {
    hide HeapStep, HeapLegal, HeapInv, PageFrames;
    InvOf(s);
    if run != [] {
      var (s', o) := HeapStep(s, run[0]);
      StepCounts(s, run[0]);
      HeapStepKeepsInv(s, run[0]);
      if o != Stopped {
        CounterCountsPages(s', run[1..]);
        var before, mid, after := |PageFrames(s.ph)|, |PageFrames(s'.ph)|, |PageFrames(HeapRun(s', run[1..]).ph)|;
        CountsAdd(s.faults, s'.faults, HeapRun(s', run[1..]).faults, before, mid, after);
      }
    }
  }

  lemma {:induction false} ModuloAdds(x: nat, y: nat, z: nat, m: nat)
    requires m > 0
    ensures ((x + y) % m + z) % m == (x + y + z) % m
  {
    var q, r := (x + y) / m, (x + y) % m;
    var q', r' := (r + z) / m, (r + z) % m;
    assert x + y + z == r' + m * (q + q') by { assert m * (q + q') == m * q + m * q'; }
    Quotient(q + q', r', m);
  }
}
