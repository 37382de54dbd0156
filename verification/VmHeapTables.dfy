// The tables below the heap's root slot: no large page ever stands there, so a
// walk to a heap page is only ever held up by missing tables, at most three.
module VmHeapTables {
  import opened Words
  import opened FrameSpec
  import opened Paging
  import opened VmSpec
  import opened VmMapping
  import opened VmSpaces
  import opened VmFaults
  import opened VmRun

  /** Entry i of table t, if it is above the last level and below slot 256, is not a large page. */
  predicate NotLarge(ph: Phys, t: nat, i: Index)
    requires IsTable(ph, t)
  {
    var path := ph.own[t].path;
    |path| < 3 && (path + [i])[0] == 256 && ph.mem[t][i].present ==> !ph.mem[t][i].huge
  }

  ghost predicate HeapClear(ph: Phys)
    requires Sized(ph)
  {
    forall t: nat, i: Index {:trigger NotLarge(ph, t, i)} :: IsTable(ph, t) ==> NotLarge(ph, t, i)
  }

  /** The walk to a page of slot 256 is never blocked. */
  lemma {:induction false} ClearMissing(ph: Phys, t: nat, path: seq<Index>)
    requires PhysInv(ph) && HeapClear(ph) && IsTable(ph, t) && 1 <= |path| && |ph.own[t].path| + |path| == 4
    requires (ph.own[t].path + path)[0] == 256
    ensures Missing(ph.mem, t, path).Some?
    decreases |path|
  {
    if |path| > 1 {
      assert (ph.own[t].path + [path[0]])[0] == (ph.own[t].path + path)[0];
      assert NotLarge(ph, t, path[0]) && LinkDown(ph, t, path[0]);
      if ph.mem[t][path[0]].present {
        assert ph.own[t].path + [path[0]] + path[1..] == ph.own[t].path + path;
        ClearMissing(ph, ph.mem[t][path[0]].frame, path[1..]);
      }
    }
  }

  // ---- Every step keeps it ----

  lemma {:induction false} AddTableKeepsClear(ph: Phys, t: nat, i: Index, f: nat)
    requires IsTable(ph, t) && HeapClear(ph) && f < FRAME_COUNT && ph.own[f] == Free
    ensures HeapClear(AddTable(ph, t, i, f))
  {
    var ph' := AddTable(ph, t, i, f);
    forall x: nat, j: Index | IsTable(ph', x)
      ensures NotLarge(ph', x, j)
    {
      if x != f { assert NotLarge(ph, x, j); }
    }
  }

  lemma {:induction false} WalkKeepsClear(ph: Phys, t: nat, path: seq<Index>, create: bool)
    requires PhysInv(ph) && HeapClear(ph) && IsTable(ph, t) && 1 <= |path| && |ph.own[t].path| + |path| == 4
    ensures HeapClear(Walk(ph, t, path, create).0)
    decreases |path|
  {
    hide Linked, HeapClear, Grown, AddTable;
    if |path| > 1 {
      DescendFacts(ph, t, path[0], create, t);
      var (ph', next) := Descend(ph, t, path[0], create);
      if ph' != ph { AddTableKeepsClear(ph, t, path[0], LowestFree(ph.used).value); }
      if next.Some? { WalkKeepsClear(ph', next.value, path[1..], create); }
    }
  }

  /** Last-level entries do not matter. */
  lemma {:induction false} LeafWriteKeepsClear(ph: Phys, t: nat, i: Index, e: Word)
    requires IsTable(ph, t) && HeapClear(ph) && |ph.own[t].path| == 3
    ensures HeapClear(ph.(mem := SetEntry(ph.mem, t, i, e)))
  {
    var ph' := ph.(mem := SetEntry(ph.mem, t, i, e));
    forall x: nat, j: Index | IsTable(ph', x)
      ensures NotLarge(ph', x, j)
    {
      assert NotLarge(ph, x, j);
    }
  }

  lemma {:induction false} SameTablesKeepsClear(ph: Phys, ph': Phys)
    requires SameTables(ph, ph') && HeapClear(ph)
    ensures HeapClear(ph')
  {
    forall x: nat, j: Index | IsTable(ph', x)
      ensures NotLarge(ph', x, j)
    {
      assert NotLarge(ph, x, j);
    }
  }

  lemma {:induction false} MapKeepsClear(s: State, space: nat, va: nat, pa: nat, flags: Word)
    requires PhysInv(s.ph) && HeapClear(s.ph) && IsSpace(s.ph, space)
    ensures HeapClear(VmMap(s, space, va, pa, flags).0.ph)
  {
    hide Linked, HeapClear, Grown, PathOf, Walk;
    var path := PathOf(va);
    WalkGrows(s.ph, space, path, true, space);
    WalkKeepsClear(s.ph, space, path, true);
    var (ph, end) := Walk(s.ph, space, path, true);
    if end.Some? {
      WalkReaches(s.ph, space, path, true);
      TablesStay(s.ph, ph, space);
      LeafPath(ph, space, path);
      LeafWriteKeepsClear(ph, end.value, path[3], Pte(pa / PAGE_SIZE, flags));
    }
  }

  lemma {:induction false} UnmapKeepsClear(s: State, space: nat, va: nat)
    requires PhysInv(s.ph) && HeapClear(s.ph) && IsSpace(s.ph, space)
    ensures HeapClear(VmUnmap(s, space, va).0.ph)
  {
    hide Linked, HeapClear, PathOf, Walk;
    WalkFinds(s.ph, space, PathOf(va));
    if Leaf(s.ph.mem, space, PathOf(va)).Some? {
      LeafPath(s.ph, space, PathOf(va));
      LeafWriteKeepsClear(s.ph, Leaf(s.ph.mem, space, PathOf(va)).value, PathOf(va)[3], ZERO);
    }
  }

  lemma {:induction false} CreateKeepsClear(s: State)
    requires Inv(s) && HeapClear(s.ph)
    ensures HeapClear(VmCreateSpace(s).0.ph)
  {
    hide Linked, VmCreateSpace;
    CreateKeepsInv(s);
    var (s', f) := VmCreateSpace(s);
    forall x: nat, j: Index | IsTable(s'.ph, x)
      ensures NotLarge(s'.ph, x, j)
    {
      if f != 0 && x == f { assert NotLarge(s.ph, s.kernel, j); } else { assert NotLarge(s.ph, x, j); }
    }
  }

  lemma {:induction false} FaultKeepsClear(s: State, va: nat, err: nat)
    requires Inv(s) && HeapClear(s.ph)
    ensures HeapClear(VmHandleFault(s, va, err).0.ph)
  {
    hide VmMap, VmHandleFault, Linked, HeapClear;
    FaultUnfolds(s, va, err);
    if Tries(s, va, err) {
      var f := LowestFree(s.ph.used).value;
      PreparedFacts(s, va, err);
      MappedFacts(s, va, err);
      var s1, s2 := Prepared(s, va, f), Mapped(s, va, f).0;
      SameTablesKeepsClear(s.ph, s1.ph);
      MapKeepsClear(s1, s.cr3, va - va % PAGE_SIZE, f * PAGE_SIZE, TABLE_FLAGS);
      ReleaseKeepsInv(s2.ph, f);
      SameTablesKeepsClear(s2.ph, Release(s2.ph, f));
    }
  }

  /** No step ever puts a large page below the heap's slot. */
  lemma {:induction false} StepKeepsClear(s: State, a: Action)
    requires Inv(s) && HeapClear(s.ph) && Legal(s, a)
    ensures HeapClear(Step(s, a).ph)
  {
    hide VmMap, VmUnmap, VmCreateSpace, VmHandleFault, Linked, HeapClear;
    match a
    case MapPage(space, va, pa, flags) =>
      MapKeepsRegisters(s, space, va, pa, flags);
      if space != 0 { MapKeepsClear(s, space, va, pa, flags); }
    case UnmapPage(space, va) =>
      UnmapKeepsRegisters(s, space, va);
      if space != 0 { UnmapKeepsClear(s, space, va); }
    case NewSpace =>
      CreateKeepsClear(s);
    case Touch(va, err) =>
      FaultKeepsClear(s, va, err);
    case Switch(space) =>
    case Evict(path) =>
    case _ =>
      FrameStepSameTables(s, a);
      SameTablesKeepsClear(s.ph, Step(s, a).ph);
  }
}
