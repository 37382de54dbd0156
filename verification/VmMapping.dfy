// vm_map and vm_unmap are exact: which translations change, in which spaces, and
// when a mapping can be made.
module VmMapping {
  import opened Words
  import opened FrameSpec
  import opened Paging
  import opened VmSpec

  // ---- vm_map ----

  lemma {:induction false} MapKeepsRegisters(s: State, space: nat, va: nat, pa: nat, flags: Word)
    requires ValidSpace(s, space)
    ensures var (s', ok) := VmMap(s, space, va, pa, flags);
      s' == s.(ph := s'.ph, tlb := if ok then Invalidate(s.tlb, va) else s.tlb)
    ensures space == 0 ==> VmMap(s, space, va, pa, flags) == (s, false)
  {
  }

  lemma {:induction false} UnmapKeepsRegisters(s: State, space: nat, va: nat)
    requires ValidSpace(s, space)
    ensures var s' := VmUnmap(s, space, va).0;
      s' == s.(ph := s'.ph, tlb := Invalidate(s.tlb, va)) || s' == s.(ph := s'.ph)
    ensures space == 0 ==> VmUnmap(s, space, va) == (s, 0)
  {
  }

  /**
   * What vm_map does to memory: it grows the tables to some ph and, if it succeeds,
   * writes one entry of a last-level table t.
   */
  lemma {:induction false} MapShape(s: State, space: nat, va: nat, pa: nat, flags: Word) returns (ph: Phys, t: nat)
    requires PhysInv(s.ph) && IsSpace(s.ph, space)
    ensures PhysInv(ph) && Grown(s.ph, ph, space)
    ensures var (s', ok) := VmMap(s, space, va, pa, flags);
      if ok then
        && IsTable(ph, t) && |ph.own[t].path| == 3
        && Leaf(ph.mem, space, PathOf(va)) == Some(t)
        && s'.ph == ph.(mem := SetEntry(ph.mem, t, PathOf(va)[3], Pte(pa / PAGE_SIZE, flags)))
      else s'.ph == ph
  {
    t := 0;
    var path := PathOf(va);
    var r := VmMap(s, space, va, pa, flags);
    if r.0.ph == s.ph {
      ph := s.ph;
    } else {
      ph := Walk(s.ph, space, path, true).0;
      WalkGrows(s.ph, space, path, true, space);
    }
    if r.1 {
      ph := Walk(s.ph, space, path, true).0;
      t := Walk(s.ph, space, path, true).1.value;
      WalkGrows(s.ph, space, path, true, space);
      WalkReaches(s.ph, space, path, true);
      LeafPath(ph, space, path);
    }
  }

  lemma {:induction false} MapKeepsInv(s: State, space: nat, va: nat, pa: nat, flags: Word)
    requires PhysInv(s.ph) && IsSpace(s.ph, space)
    ensures PhysInv(VmMap(s, space, va, pa, flags).0.ph)
  {
    hide VmMap, Linked, Grown;
    var ph, t := MapShape(s, space, va, pa, flags);
    if VmMap(s, space, va, pa, flags).1 {
      LeafWriteKeepsInv(ph, t, PathOf(va)[3], Pte(pa / PAGE_SIZE, flags));
    }
  }

  /** vm_map makes no new root and changes no root but its own. */
  lemma {:induction false} MapKeepsRoots(s: State, space: nat, va: nat, pa: nat, flags: Word, r: nat)
    requires PhysInv(s.ph) && IsSpace(s.ph, space)
    ensures IsSpace(VmMap(s, space, va, pa, flags).0.ph, r) <==> IsSpace(s.ph, r)
    ensures IsSpace(s.ph, r) && r != space ==> VmMap(s, space, va, pa, flags).0.ph.mem[r] == s.ph.mem[r]
  {
    hide VmMap, Linked, PathOf, Leaf;
    var ph, t := MapShape(s, space, va, pa, flags);
  }

  /**
   * A successful vm_map changes one page, to `pa`, in the spaces that share its
   * slot with `space` (before the call); a failed one changes no translation.
   */
  lemma {:induction false} MapExact(s: State, space: nat, va: nat, pa: nat, flags: Word, r: nat, p: seq<Index>)
    requires PhysInv(s.ph) && IsSpace(s.ph, space) && IsSpace(s.ph, r) && |p| == 4
    ensures var (s', ok) := VmMap(s, space, va, pa, flags);
      Resolve(s'.ph.mem, r, p) ==
        if ok && p == PathOf(va) && Shares(s.ph.mem, space, r, p[0])
        then EntryMapping(Pte(pa / PAGE_SIZE, flags)) else Resolve(s.ph.mem, r, p)
    ensures VmMap(s, space, va, pa, flags).1 ==> Resolve(s.ph.mem, space, PathOf(va)) == None
  {
    var path := PathOf(va);
    var (ph, end) := Walk(s.ph, space, path, true);
    WalkGrows(s.ph, space, path, true, space);
    WalkKeepsResolve(s.ph, space, path, true, r, p);
    if end.Some? {
      WalkReaches(s.ph, space, path, true);
      LeafPath(ph, space, path);
      ResolveAtLeaf(ph.mem, space, path);
      WalkKeepsResolve(s.ph, space, path, true, space, path);
      if VmMap(s, space, va, pa, flags).1 {
        LeafWriteExact(ph, space, end.value, path, Pte(pa / PAGE_SIZE, flags), r, p);
        GrownKeepsShares(s.ph, ph, space, r, p[0]);
      }
    }
  }

  lemma {:induction false} SameIndices(p: seq<Index>, q: seq<Index>)
    requires |p| == |q| == 4 && p[..3] == q[..3] && p[3] == q[3]
    ensures p == q
  {
  }

  /** Writing the entry that `space` reaches along `path` changes that page in the sharing spaces. */
  lemma {:induction false} LeafWriteExact(ph: Phys, space: nat, t: nat, path: seq<Index>, e: Word, r: nat, p: seq<Index>)
    requires PhysInv(ph) && IsSpace(ph, space) && IsSpace(ph, r) && |p| == |path| == 4
    requires Leaf(ph.mem, space, path) == Some(t)
    ensures IsTable(ph, t)
    ensures Resolve(SetEntry(ph.mem, t, path[3], e), r, p) ==
      if p == path && Shares(ph.mem, space, r, p[0]) then EntryMapping(e) else Resolve(ph.mem, r, p)
  {
    LeafPath(ph, space, path);
    ResolveAfterLeafWrite(ph, t, path[3], e, r, p);
    if p == path {
      LeafShared(ph, space, r, p);
    } else if Leaf(ph.mem, r, p) == Some(t) && p[3] == path[3] {
      LeafPath(ph, r, p);
      assert ph.own[t].path == p[..3] && ph.own[t].path == path[..3];
      SameIndices(p, path);
    }
  }

  // ---- When vm_map succeeds ----

  /** How many tables the walk has to add; None if a large page is in the way. */
  function Missing(mem: Memory, t: nat, path: seq<Index>): (n: Option<nat>)
    requires |mem| == FRAME_COUNT && t < FRAME_COUNT && 1 <= |path| <= 4
    ensures n.Some? ==> n.value < |path|
    decreases |path|
  {
    if |path| == 1 then Some(0)
    else
      var e := mem[t][path[0]];
      if !e.present then Some(|path| - 1)
      else if e.huge || e.frame >= FRAME_COUNT then None
      else Missing(mem, e.frame, path[1..])
  }

  /** A walk succeeds exactly if nothing blocks it and there are frames for all missing tables. */
  lemma {:induction false} WalkSucceedsIff(ph: Phys, t: nat, path: seq<Index>)
    requires PhysInv(ph) && IsTable(ph, t) && 1 <= |path| && |ph.own[t].path| + |path| == 4
    ensures var n := Missing(ph.mem, t, path);
      var (ph', end) := Walk(ph, t, path, true);
      && (end.Some? <==> n.Some? && n.value <= CountFree(ph.used))
      && (end.Some? ==> CountFree(ph'.used) == CountFree(ph.used) - n.value)
    decreases |path|
  {
    hide Linked, CountFree, Grown;
    if |path| > 1 {
      DescendFacts(ph, t, path[0], true, t);
      var (ph', next) := Descend(ph, t, path[0], true);
      CountFreeZero(ph.used);
      if next.Some? {
        if !ph.mem[t][path[0]].present {
          CountFreeUpdate(ph.used, next.value, true);
          assert ph'.mem[next.value] == ZeroFrame();
        }
        WalkSucceedsIff(ph', next.value, path[1..]);
      }
    }
  }

  /** What a caller can check before the call: vm_map succeeds exactly then. */
  ghost predicate CanMap(s: State, space: nat, va: nat, pa: nat)
    requires ValidSpace(s, space)
  {
    && space != 0 && va % PAGE_SIZE == 0 && pa % PAGE_SIZE == 0 && pa < MAX_PHYS <= va
    && Resolve(s.ph.mem, space, PathOf(va)) == None
    && Missing(s.ph.mem, space, PathOf(va)).Some?
    && Missing(s.ph.mem, space, PathOf(va)).value <= CountFree(s.ph.used)
  }

  lemma {:induction false} MapSucceedsIff(s: State, space: nat, va: nat, pa: nat, flags: Word)
    requires PhysInv(s.ph) && IsSpace(s.ph, space)
    ensures VmMap(s, space, va, pa, flags).1 <==> CanMap(s, space, va, pa)
  {
    var path := PathOf(va);
    WalkSucceedsIff(s.ph, space, path);
    var (ph, end) := Walk(s.ph, space, path, true);
    if end.Some? {
      WalkReaches(s.ph, space, path, true);
      ResolveAtLeaf(ph.mem, space, path);
      WalkKeepsResolve(s.ph, space, path, true, space, path);
    }
  }

  // ---- vm_unmap ----

  /** A walk that adds nothing finds the table the processor would reach. */
  lemma {:induction false} WalkFinds(ph: Phys, t: nat, path: seq<Index>)
    requires PhysInv(ph) && IsTable(ph, t) && 1 <= |path| && |ph.own[t].path| + |path| == 4
    ensures Walk(ph, t, path, false) == (ph, Leaf(ph.mem, t, path))
    decreases |path|
  {
    if |path| > 1 {
      assert LinkDown(ph, t, path[0]);
      if Down(ph.mem[t][path[0]]) {
        WalkFinds(ph, ph.mem[t][path[0]].frame, path[1..]);
      }
    }
  }

  lemma {:induction false} UnmapKeepsInv(s: State, space: nat, va: nat)
    requires PhysInv(s.ph) && IsSpace(s.ph, space)
    ensures PhysInv(VmUnmap(s, space, va).0.ph)
    ensures VmUnmap(s, space, va).0.ph.own == s.ph.own && VmUnmap(s, space, va).0.ph.used == s.ph.used
  {
    WalkFinds(s.ph, space, PathOf(va));
    if Leaf(s.ph.mem, space, PathOf(va)).Some? {
      LeafPath(s.ph, space, PathOf(va));
      LeafWriteKeepsInv(s.ph, Leaf(s.ph.mem, space, PathOf(va)).value, PathOf(va)[3], ZERO);
    }
  }

  /** The page is mapped through a last-level entry, not by a large page. */
  predicate SmallMapped(ph: Phys, space: nat, p: seq<Index>)
    requires Sized(ph) && |p| == 4
  {
    Leaf(ph.mem, space, p).Some? && Resolve(ph.mem, space, p).Some?
  }

  /**
   * vm_unmap removes one small page, in the spaces sharing its slot, and returns
   * its address; a page that is not mapped, or is part of a large page, stays.
   */
  lemma {:induction false} UnmapExact(s: State, space: nat, va: nat, r: nat, p: seq<Index>)
    requires PhysInv(s.ph) && IsSpace(s.ph, space) && IsSpace(s.ph, r) && |p| == 4
    ensures var (s', pa) := VmUnmap(s, space, va);
      var gone := SmallMapped(s.ph, space, PathOf(va));
      && Resolve(s'.ph.mem, r, p) ==
           (if gone && p == PathOf(va) && Shares(s.ph.mem, space, r, p[0]) then None else Resolve(s.ph.mem, r, p))
      && pa == (if gone then Resolve(s.ph.mem, space, PathOf(va)).value.frame * PAGE_SIZE else 0)
  {
    var path := PathOf(va);
    WalkFinds(s.ph, space, path);
    var end := Leaf(s.ph.mem, space, path);
    if end.Some? {
      ResolveAtLeaf(s.ph.mem, space, path);
      LeafPath(s.ph, space, path);
      LeafWriteExact(s.ph, space, end.value, path, ZERO, r, p);
    }
  }

  /**
   * vm_unmap returns 0 exactly if there was nothing to unmap or the page was mapped
   * to frame 0: the answer does not tell the two apart.
   */
  lemma {:induction false} UnmapZeroIff(s: State, space: nat, va: nat)
    requires PhysInv(s.ph) && IsSpace(s.ph, space)
    ensures VmUnmap(s, space, va).1 == 0 <==>
      !SmallMapped(s.ph, space, PathOf(va)) || Resolve(s.ph.mem, space, PathOf(va)).value.frame == 0
  {
    UnmapExact(s, space, va, space, PathOf(va));
  }

  // ---- Round trip ----

  /**
   * A mapping made by vm_map is undone by vm_unmap. If flags makes it present, the
   * address that comes back is pa exactly if flags brought in no address bit that pa
   * lacks; if not, nothing was mapped and 0 comes back.
   */
  lemma {:induction false} MapUnmapRoundTrip(s: State, space: nat, va: nat, pa: nat, flags: Word, r: nat, p: seq<Index>)
    requires PhysInv(s.ph) && IsSpace(s.ph, space) && IsSpace(s.ph, r) && |p| == 4
    requires VmMap(s, space, va, pa, flags).1
    ensures IsTable(VmMap(s, space, va, pa, flags).0.ph, space)
    ensures var s1 := VmMap(s, space, va, pa, flags).0;
      var (s2, back) := VmUnmap(s1, space, va);
      && Resolve(s2.ph.mem, r, p) == Resolve(s.ph.mem, r, p)
      && back == (if flags.present then Or(pa / PAGE_SIZE, flags.frame) * PAGE_SIZE else 0)
      && (flags.present ==> (back == pa <==> Or(pa / PAGE_SIZE, flags.frame) == pa / PAGE_SIZE))
      && (flags.present && flags.frame == 0 ==> back == pa)
  {
    hide VmMap, VmUnmap, Linked, PathOf;
    var path := PathOf(va);
    var s1 := VmMap(s, space, va, pa, flags).0;
    assert pa % PAGE_SIZE == 0 by { MapSucceedsIff(s, space, va, pa, flags); }
    MapKeepsInv(s, space, va, pa, flags);
    MapExact(s, space, va, pa, flags, r, p);
    MapExact(s, space, va, pa, flags, space, path);
    MapKeepsShares(s, space, va, pa, flags, r, path[0]);
    MapKeepsRoots(s, space, va, pa, flags, r);
    MapKeepsRoots(s, space, va, pa, flags, space);
    MapReachesLeaf(s, space, va, pa, flags);
    UnmapExact(s1, space, va, r, p);
    if p == path && Shares(s.ph.mem, space, r, p[0]) {
      SharedSlotAgrees(s.ph.mem, space, r, p);
    }
  }

  /** Mapping frame 0 succeeds like any other mapping, and unmapping it then returns 0. */
  lemma {:induction false} UnmapFrameZero(s: State, space: nat, va: nat)
    requires PhysInv(s.ph) && IsSpace(s.ph, space) && CanMap(s, space, va, 0)
    ensures var (s1, ok) := VmMap(s, space, va, 0, TABLE_FLAGS);
      && ok && IsTable(s1.ph, space) && SmallMapped(s1.ph, space, PathOf(va)) && VmUnmap(s1, space, va).1 == 0
  {
    hide VmMap, VmUnmap, Linked, PathOf;
    MapSucceedsIff(s, space, va, 0, TABLE_FLAGS);
    MapUnmapRoundTrip(s, space, va, 0, TABLE_FLAGS, space, PathOf(va));
    MapExact(s, space, va, 0, TABLE_FLAGS, space, PathOf(va));
    MapReachesLeaf(s, space, va, 0, TABLE_FLAGS);
  }

  /** A page of frame 0 with flags that hold the address of the frame behind the last one. */
  const BEYOND := TABLE_FLAGS.(frame := FRAME_COUNT)

  /**
   * vm_map checks pa against 1GB but not flags: with these flags it maps a frame past
   * that limit, and vm_unmap returns another address than was given.
   */
  lemma {:induction false} FlagsSlipThrough(s: State, space: nat, va: nat)
    requires PhysInv(s.ph) && IsSpace(s.ph, space) && CanMap(s, space, va, 0)
    ensures var (s1, ok) := VmMap(s, space, va, 0, BEYOND);
      && ok && IsTable(s1.ph, space)
      && Resolve(s1.ph.mem, space, PathOf(va)) == Some(Mapping(FRAME_COUNT, BEYOND))
      && VmUnmap(s1, space, va).1 == MAX_PHYS != 0
  {
    hide VmMap, VmUnmap, Linked, PathOf;
    MapSucceedsIff(s, space, va, 0, BEYOND);
    MapUnmapRoundTrip(s, space, va, 0, BEYOND, space, PathOf(va));
    MapExact(s, space, va, 0, BEYOND, space, PathOf(va));
  }

  lemma {:induction false} MapKeepsShares(s: State, space: nat, va: nat, pa: nat, flags: Word, r: nat, i: Index)
    requires PhysInv(s.ph) && IsSpace(s.ph, space) && IsSpace(s.ph, r)
    ensures Shares(VmMap(s, space, va, pa, flags).0.ph.mem, space, r, i) <==> Shares(s.ph.mem, space, r, i)
  {
    hide VmMap, Linked, PathOf, Leaf;
    var ph, t := MapShape(s, space, va, pa, flags);
    GrownKeepsShares(s.ph, ph, space, r, i);
  }

  lemma {:induction false} MapReachesLeaf(s: State, space: nat, va: nat, pa: nat, flags: Word)
    requires PhysInv(s.ph) && IsSpace(s.ph, space)
    requires VmMap(s, space, va, pa, flags).1
    ensures Leaf(VmMap(s, space, va, pa, flags).0.ph.mem, space, PathOf(va)).Some?
  {
    hide VmMap, Linked;
    var ph, t := MapShape(s, space, va, pa, flags);
    LeafAfterLeafWrite(ph, t, PathOf(va)[3], Pte(pa / PAGE_SIZE, flags), space, PathOf(va));
  }

  lemma {:induction false} LeafAfterLeafWrite(ph: Phys, t: nat, i: Index, e: Word, x: nat, p: seq<Index>)
    requires PhysInv(ph) && IsTable(ph, t) && |ph.own[t].path| == 3
    requires IsTable(ph, x) && 1 <= |p| && |ph.own[x].path| + |p| == 4
    ensures Leaf(SetEntry(ph.mem, t, i, e), x, p) == Leaf(ph.mem, x, p)
    decreases |p|
  {
    if |p| > 1 && Down(ph.mem[x][p[0]]) {
      assert LinkDown(ph, x, p[0]);
      LeafAfterLeafWrite(ph, t, i, e, ph.mem[x][p[0]].frame, p[1..]);
    }
  }
}
