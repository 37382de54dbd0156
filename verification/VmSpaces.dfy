// Address spaces: creation, sharing and isolation, and what frame-level
// operations leave alone.
module VmSpaces {
  import opened Words
  import opened FrameSpec
  import opened Paging
  import opened VmSpec
  import opened VmMapping

  // ---- Changes outside the tables ----

  /** The tables of ph, their purposes and contents, are those of ph'. */
  ghost predicate SameTables(ph: Phys, ph': Phys) {
    && Sized(ph) && Sized(ph')
    && (forall f :: 0 <= f < FRAME_COUNT && (ph.own[f].Table? || ph'.own[f].Table?) ==>
          ph'.own[f] == ph.own[f] && ph'.mem[f] == ph.mem[f])
  }

  lemma {:induction false} SameTablesInv(ph: Phys, ph': Phys)
    requires PhysInv(ph) && SameTables(ph, ph') && Accounted(ph')
    ensures PhysInv(ph')
  {
    forall x: nat, j: Index | IsTable(ph', x)
      ensures LinkDown(ph', x, j)
    {
      assert LinkDown(ph, x, j);
    }
    forall c: nat | IsTable(ph', c)
      ensures LinkUp(ph', c)
    {
      assert LinkUp(ph, c);
    }
  }

  lemma {:induction false} SameTablesResolve(ph: Phys, mem: Memory, x: nat, p: seq<Index>)
    requires PhysInv(ph) && |mem| == FRAME_COUNT
    requires forall f :: 0 <= f < FRAME_COUNT && ph.own[f].Table? ==> mem[f] == ph.mem[f]
    requires IsTable(ph, x) && 1 <= |p| && |ph.own[x].path| + |p| == 4
    ensures Resolve(mem, x, p) == Resolve(ph.mem, x, p)
    decreases |p|
  {
    if |p| > 1 && Down(ph.mem[x][p[0]]) {
      assert LinkDown(ph, x, p[0]);
      SameTablesResolve(ph, mem, ph.mem[x][p[0]].frame, p[1..]);
    }
  }

  // ---- vm_create_space ----

  lemma {:induction false} CreateKeepsInv(s: State)
    requires Inv(s)
    ensures PhysInv(VmCreateSpace(s).0.ph)
    ensures var (s', f) := VmCreateSpace(s);
      f != 0 ==>
        && f < FRAME_COUNT && s.ph.own[f] == Free
        && s'.ph.mem == s.ph.mem[f := RootFrom(s.ph.mem[s.kernel])]
        && s'.ph.own == s.ph.own[f := Table([], 0)]
    ensures VmCreateSpace(s).1 == 0 <==> CountFree(s.ph.used) == 0
    ensures VmCreateSpace(s).1 == 0 ==> VmCreateSpace(s).0 == s
    ensures VmCreateSpace(s).0 == s.(ph := VmCreateSpace(s).0.ph)
  {
    var (s', f) := VmCreateSpace(s);
    CountFreeZero(s.ph.used);
    if f != 0 {
      forall x: nat, j: Index | IsTable(s'.ph, x)
        ensures LinkDown(s'.ph, x, j)
      {
        if x == f { assert LinkDown(s.ph, s.kernel, j); } else { assert LinkDown(s.ph, x, j); }
      }
      forall c: nat | IsTable(s'.ph, c)
        ensures LinkUp(s'.ph, c)
      {
        if c != f { assert LinkUp(s.ph, c); }
      }
    }
  }

  /**
   * A new space changes no other space; it translates slot 0 and the upper half
   * like the kernel space and nothing else.
   */
  lemma {:induction false} CreateExact(s: State, r: nat, p: seq<Index>)
    requires Inv(s) && IsSpace(s.ph, r) && |p| == 4
    ensures var (s', f) := VmCreateSpace(s);
      && Resolve(s'.ph.mem, r, p) == Resolve(s.ph.mem, r, p)
      && (f != 0 ==>
            Resolve(s'.ph.mem, f, p) == if p[0] == 0 || p[0] >= 256 then Resolve(s.ph.mem, s.kernel, p) else None)
  {
    var (s', f) := VmCreateSpace(s);
    if f != 0 {
      CreateKeepsInv(s);
      SameTablesResolve(s.ph, s'.ph.mem, r, p);
      SameTablesResolve(s.ph, s'.ph.mem, s.kernel, p);
      assert s'.ph.mem[f] == RootFrom(s.ph.mem[s.kernel]);
    }
  }

  /** The new space shares a slot with the kernel space exactly if it was copied and present. */
  lemma {:induction false} CreateShares(s: State, i: Index)
    requires Inv(s) && VmCreateSpace(s).1 != 0
    ensures var (s', f) := VmCreateSpace(s);
      Shares(s'.ph.mem, s.kernel, f, i) <==> (i == 0 || i >= 256) && Down(s.ph.mem[s.kernel][i])
  {
  }

  // ---- How the upper tables evolve ----

  /**
   * From ph to ph' tables stay tables and no present entry above the last level
   * changes.
   */
  ghost predicate Evolves(ph: Phys, ph': Phys) {
    && Sized(ph) && Sized(ph')
    && (forall t: nat :: IsTable(ph, t) ==> ph'.own[t] == ph.own[t])
    && (forall t: nat, j: Index :: IsTable(ph, t) && |ph.own[t].path| < 3 && ph.mem[t][j].present ==>
          ph'.mem[t][j] == ph.mem[t][j])
  }

  lemma {:induction false} EvolvesTransitive(a: Phys, b: Phys, c: Phys)
    requires Evolves(a, b) && Evolves(b, c)
    ensures Evolves(a, c)
  {
  }

  /** Sharing a slot is for good. */
  lemma {:induction false} EvolvesKeepsShares(ph: Phys, ph': Phys, r: nat, s: nat, i: Index)
    requires Evolves(ph, ph') && IsSpace(ph, r) && IsSpace(ph, s) && Shares(ph.mem, r, s, i)
    ensures IsSpace(ph', r) && IsSpace(ph', s) && Shares(ph'.mem, r, s, i)
  {
  }

  lemma {:induction false} MapEvolves(s: State, space: nat, va: nat, pa: nat, flags: Word)
    requires PhysInv(s.ph) && IsSpace(s.ph, space)
    ensures Evolves(s.ph, VmMap(s, space, va, pa, flags).0.ph)
  {
    hide VmMap, Linked, PathOf, Leaf;
    var ph, t := MapShape(s, space, va, pa, flags);
  }

  lemma {:induction false} UnmapEvolves(s: State, space: nat, va: nat)
    requires PhysInv(s.ph) && IsSpace(s.ph, space)
    ensures Evolves(s.ph, VmUnmap(s, space, va).0.ph)
  {
    WalkFinds(s.ph, space, PathOf(va));
    if Leaf(s.ph.mem, space, PathOf(va)).Some? {
      LeafPath(s.ph, space, PathOf(va));
    }
  }

  // ---- Isolation ----

  /** Distinct spaces share no table below the private slots 1..255. */
  ghost predicate Isolated(ph: Phys)
    requires Sized(ph)
  {
    forall r: nat, s: nat, i: Index {:trigger Shares(ph.mem, r, s, i)} ::
      IsSpace(ph, r) && IsSpace(ph, s) && r != s && 1 <= i < 256 ==> !Shares(ph.mem, r, s, i)
  }

  lemma {:induction false} MapKeepsIsolated(s: State, space: nat, va: nat, pa: nat, flags: Word)
    requires PhysInv(s.ph) && IsSpace(s.ph, space) && Isolated(s.ph)
    ensures Isolated(VmMap(s, space, va, pa, flags).0.ph)
  {
    var ph' := VmMap(s, space, va, pa, flags).0.ph;
    forall r: nat, q: nat, i: Index | IsSpace(ph', r) && IsSpace(ph', q) && r != q && 1 <= i < 256
      ensures !Shares(ph'.mem, r, q, i)
    {
      MapKeepsRoots(s, space, va, pa, flags, r);
      MapKeepsRoots(s, space, va, pa, flags, q);
      if r == space {
        MapKeepsShares(s, space, va, pa, flags, q, i);
      } else if q == space {
        MapKeepsShares(s, space, va, pa, flags, r, i);
        assert !Shares(s.ph.mem, q, r, i);
      } else {
        assert !Shares(s.ph.mem, r, q, i);
      }
    }
  }

  lemma {:induction false} UnmapKeepsRoots(s: State, space: nat, va: nat, r: nat)
    requires PhysInv(s.ph) && IsSpace(s.ph, space) && IsSpace(s.ph, r)
    ensures VmUnmap(s, space, va).0.ph.mem[r] == s.ph.mem[r]
  {
    WalkFinds(s.ph, space, PathOf(va));
    if Leaf(s.ph.mem, space, PathOf(va)).Some? {
      LeafPath(s.ph, space, PathOf(va));
    }
  }

  lemma {:induction false} CreateKeepsIsolated(s: State)
    requires Inv(s) && Isolated(s.ph)
    ensures Isolated(VmCreateSpace(s).0.ph)
  {
    CreateKeepsInv(s);
    var (s', f) := VmCreateSpace(s);
    forall r: nat, q: nat, i: Index | IsSpace(s'.ph, r) && IsSpace(s'.ph, q) && r != q && 1 <= i < 256
      ensures !Shares(s'.ph.mem, r, q, i)
    {
      if r != f && q != f { assert !Shares(s.ph.mem, r, q, i); }
    }
  }
}
