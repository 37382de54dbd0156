// The page-fault handler: what a fault changes, and when it is handled.
module VmFaults {
  import opened Words
  import opened FrameSpec
  import opened Paging
  import opened VmSpec
  import opened VmMapping
  import opened VmSpaces

  /** The heap page that holds an address. */
  function HeapPageOf(va: nat): nat
    requires InHeap(va)
  {
    (va - HEAP_BASE) / PAGE_SIZE
  }

  /** The index path of a heap page: slot 256, first gigabyte, 8 last-level tables. */
  function HeapPath(page: nat): (p: seq<Index>)
    requires page < HEAP_PAGES
    ensures |p| == 4
  {
    [256, 0, page / 512, page % 512]
  }

  /** Each table index is nine bits above the next. */
  lemma {:induction false} Quotients(va: nat)
    ensures va / 0x20_0000 == va / 4096 / 512
    ensures va / 0x4000_0000 == va / 0x20_0000 / 512
    ensures va / 0x80_0000_0000 == va / 0x4000_0000 / 512
  {
  }

  /** The top index of a canonical address tells which half it lies in, so it is not lost. */
  lemma {:induction false} CanonicalTop(x: nat, y: nat)
    requires (x < 0x100 || 0x1FF_FF00 <= x < 0x200_0000) && (y < 0x100 || 0x1FF_FF00 <= y < 0x200_0000)
    requires x % 512 == y % 512
    ensures x == y
  {
    var top := 512 * 0xFFFF;
    assert x >= 0x1FF_FF00 ==> x % 512 == x - top;
    assert y >= 0x1FF_FF00 ==> y % 512 == y - top;
  }

  /**
   * The four indices identify the page of a canonical address. Of other addresses
   * the walk ignores bits 48..63, so they alias canonical ones.
   */
  lemma {:induction false} PathsAreDistinct(va: nat, va': nat)
    requires Canonical(va) && Canonical(va') && PathOf(va) == PathOf(va')
    ensures va / 4096 == va' / 4096
  {
    Quotients(va);
    Quotients(va');
    var p, p' := PathOf(va), PathOf(va');
    assert p[0] == p'[0] && p[1] == p'[1] && p[2] == p'[2] && p[3] == p'[3];
    CanonicalTop(va / 0x80_0000_0000, va' / 0x80_0000_0000);
  }

  lemma {:induction false} HeapPathOf(va: nat)
    requires InHeap(va)
    ensures HeapPageOf(va) < HEAP_PAGES && PathOf(va) == HeapPath(HeapPageOf(va))
    ensures PathOf(va - va % PAGE_SIZE) == PathOf(va) && va - va % PAGE_SIZE >= MAX_PHYS
  {
    hide PathOf, HeapPath;
    var base := va - va % PAGE_SIZE;
    assert va / 4096 == base / 4096 == 0xF_FFF8_0000_0000 + HeapPageOf(va);
    HeapIndices(va, HeapPageOf(va));
    HeapIndices(base, HeapPageOf(va));
  }

  lemma {:induction false} HeapIndices(va: nat, page: nat)
    requires page < HEAP_PAGES && va / 4096 == 0xF_FFF8_0000_0000 + page
    ensures PathOf(va) == HeapPath(page)
  {
    Quotients(va);
    assert va / 0x20_0000 == 0x7FF_FC00_0000 + page / 512;
    assert va / 0x4000_0000 == 0x3_FFFE_0000;
    assert va / 0x80_0000_0000 == 0x1FF_FF00;
  }

  // ---- Claiming and releasing a frame that is not a table ----

  lemma {:induction false} ClaimKeepsInv(ph: Phys, f: nat, o: Owner, contents: Frame)
    requires PhysInv(ph) && f < FRAME_COUNT && ph.own[f] == Free && !o.Free? && !o.Table?
    ensures var ph' := Claim(ph, f, o); PhysInv(ph'.(mem := ph.mem[f := contents]))
    ensures var ph' := Claim(ph, f, o); SameTables(ph, ph'.(mem := ph.mem[f := contents]))
  {
    SameTablesInv(ph, Claim(ph, f, o).(mem := ph.mem[f := contents]));
  }

  lemma {:induction false} ReleaseKeepsInv(ph: Phys, f: nat)
    requires PhysInv(ph) && 0 < f < FRAME_COUNT && !ph.own[f].Table?
    ensures PhysInv(Release(ph, f)) && SameTables(ph, Release(ph, f))
  {
    SameTablesInv(ph, Release(ph, f));
  }

  lemma {:induction false} SameTablesEvolves(ph: Phys, ph': Phys)
    requires SameTables(ph, ph')
    ensures Evolves(ph, ph')
  {
  }

  // ---- The handler ----

  /** The state in which the handler calls vm_map: frame f claimed and zeroed. */
  function Prepared(s: State, va: nat, f: nat): (s': State)
    requires Sized(s.ph) && f < FRAME_COUNT && InHeap(va)
    ensures Sized(s'.ph)
  {
    var claimed := Claim(s.ph, f, HeapPage(HeapPageOf(va)));
    s.(ph := claimed.(mem := claimed.mem[f := ZeroFrame()]), inFault := true)
  }

  /** The handler gets as far as calling vm_map. */
  predicate Tries(s: State, va: nat, err: nat) {
    !s.inFault && !Refused(err) && InHeap(va) && LowestFree(s.ph.used).Some?
  }

  lemma {:induction false} PreparedFacts(s: State, va: nat, err: nat)
    requires Inv(s) && Tries(s, va, err)
    ensures var f := LowestFree(s.ph.used).value;
      && 0 < f < FRAME_COUNT && s.ph.own[f] == Free
      && PhysInv(Prepared(s, va, f).ph) && SameTables(s.ph, Prepared(s, va, f).ph)
  {
    var f := LowestFree(s.ph.used).value;
    ClaimKeepsInv(s.ph, f, HeapPage(HeapPageOf(va)), ZeroFrame());
  }

  /** The handler's call of vm_map. */
  function Mapped(s: State, va: nat, f: nat): (r: (State, bool))
    requires Sized(s.ph) && f < FRAME_COUNT && InHeap(va) && IsTable(Prepared(s, va, f).ph, s.cr3)
    ensures Sized(r.0.ph)
  {
    VmMap(Prepared(s, va, f), s.cr3, va - va % PAGE_SIZE, f * PAGE_SIZE, TABLE_FLAGS)
  }

  lemma {:induction false} FaultUnfolds(s: State, va: nat, err: nat)
    requires Inv(s)
    ensures !Tries(s, va, err) ==> VmHandleFault(s, va, err) == (s, false)
    ensures Tries(s, va, err) ==>
      var f := LowestFree(s.ph.used).value;
      && IsSpace(Prepared(s, va, f).ph, s.cr3)
      && var (s', ok) := Mapped(s, va, f);
         VmHandleFault(s, va, err) ==
           if ok then (s'.(faults := (s.faults + 1) % WORD_LIMIT, inFault := false), true)
           else (s'.(ph := Release(s'.ph, f), inFault := false), false)
  {
    if Tries(s, va, err) {
      PreparedFacts(s, va, err);
    }
  }

  /** vm_map leaves the claimed frame as it is. */
  lemma {:induction false} MapKeepsOwned(s: State, space: nat, va: nat, pa: nat, flags: Word, f: nat)
    requires PhysInv(s.ph) && IsSpace(s.ph, space) && f < FRAME_COUNT && !s.ph.own[f].Free?
    ensures var ph' := VmMap(s, space, va, pa, flags).0.ph;
      ph'.own[f] == s.ph.own[f] && (!s.ph.own[f].Table? ==> ph'.mem[f] == s.ph.mem[f])
  {
    hide VmMap, Linked, PathOf, Leaf;
    var ph, t := MapShape(s, space, va, pa, flags);
  }

  lemma {:induction false} MappedFacts(s: State, va: nat, err: nat)
    requires Inv(s) && Tries(s, va, err)
    ensures IsSpace(Prepared(s, va, LowestFree(s.ph.used).value).ph, s.cr3)
    ensures var f := LowestFree(s.ph.used).value; var s' := Mapped(s, va, f).0;
      && 0 < f < FRAME_COUNT
      && PhysInv(s'.ph) && Evolves(s.ph, s'.ph)
      && s'.ph.own[f] == HeapPage(HeapPageOf(va)) && s'.ph.mem[f] == ZeroFrame()
      && s'.kernel == s.kernel && s'.cr3 == s.cr3 && s'.faults == s.faults && s'.inFault
  {
    hide VmMap, Walk, PathOf, Linked;
    var f := LowestFree(s.ph.used).value;
    PreparedFacts(s, va, err);
    var s1 := Prepared(s, va, f);
    var page := va - va % PAGE_SIZE;
    MapKeepsInv(s1, s.cr3, page, f * PAGE_SIZE, TABLE_FLAGS);
    MapEvolves(s1, s.cr3, page, f * PAGE_SIZE, TABLE_FLAGS);
    MapKeepsOwned(s1, s.cr3, page, f * PAGE_SIZE, TABLE_FLAGS, f);
    MapKeepsRegisters(s1, s.cr3, page, f * PAGE_SIZE, TABLE_FLAGS);
    SameTablesEvolves(s.ph, s1.ph);
    EvolvesTransitive(s.ph, s1.ph, Mapped(s, va, f).0.ph);
  }

  lemma {:induction false} FaultKeepsInv(s: State, va: nat, err: nat)
    requires Inv(s)
    ensures Inv(VmHandleFault(s, va, err).0)
    ensures Evolves(s.ph, VmHandleFault(s, va, err).0.ph)
  {
    hide VmMap, VmHandleFault, Mapped;
    FaultUnfolds(s, va, err);
    if Tries(s, va, err) {
      var f := LowestFree(s.ph.used).value;
      MappedFacts(s, va, err);
      var (s2, ok) := Mapped(s, va, f);
      if !ok {
        ReleaseKeepsInv(s2.ph, f);
        SameTablesEvolves(s2.ph, Release(s2.ph, f));
        EvolvesTransitive(s.ph, s2.ph, Release(s2.ph, f));
      }
    }
  }

  /**
   * A handled fault maps exactly the faulting page, to a zeroed frame that was
   * free, in the spaces that share the heap slot with the current one. A fault
   * that is not handled changes no translation.
   */
  lemma {:induction false} FaultExact(s: State, va: nat, err: nat, r: nat, p: seq<Index>)
    requires Inv(s) && IsSpace(s.ph, r) && |p| == 4
    ensures var (s', ok) := VmHandleFault(s, va, err);
      && (!ok ==> Resolve(s'.ph.mem, r, p) == Resolve(s.ph.mem, r, p))
      && (ok ==>
            && Tries(s, va, err)
            && var f := LowestFree(s.ph.used).value;
               Resolve(s'.ph.mem, r, p) ==
                 if p == PathOf(va) && Shares(s.ph.mem, s.cr3, r, p[0]) then Some(Mapping(f, Pte(f, TABLE_FLAGS)))
                 else Resolve(s.ph.mem, r, p))
  {
    hide VmMap, VmHandleFault;
    FaultUnfolds(s, va, err);
    if Tries(s, va, err) {
      var f := LowestFree(s.ph.used).value;
      PreparedFacts(s, va, err);
      HeapPathOf(va);
      var s1 := Prepared(s, va, f);
      var (s2, ok) := Mapped(s, va, f);
      SameTablesResolve(s.ph, s1.ph.mem, r, p);
      MapExact(s1, s.cr3, va - va % PAGE_SIZE, f * PAGE_SIZE, TABLE_FLAGS, r, p);
      assert f * PAGE_SIZE / PAGE_SIZE == f;
    }
  }

  /** The frame a handled fault maps: free before, then zeroed and marked as that heap page. */
  lemma {:induction false} FaultFrame(s: State, va: nat, err: nat)
    requires Inv(s) && VmHandleFault(s, va, err).1
    ensures Tries(s, va, err)
    ensures var s' := VmHandleFault(s, va, err).0; var f := LowestFree(s.ph.used).value;
      && f < FRAME_COUNT && s.ph.own[f] == Free
      && s'.ph.own[f] == HeapPage(HeapPageOf(va)) && s'.ph.mem[f] == ZeroFrame()
  {
    FaultUnfolds(s, va, err);
    PreparedFacts(s, va, err);
    var f := LowestFree(s.ph.used).value;
    MapKeepsOwned(Prepared(s, va, f), s.cr3, va - va % PAGE_SIZE, f * PAGE_SIZE, TABLE_FLAGS, f);
  }

  /**
   * What a caller can check: the handler repairs a fault exactly then. Bit 0 of the
   * error code tells a protection fault, bit 3 a reserved bit, bit 4 a fetch.
   */
  ghost predicate CanHandle(s: State, va: nat, err: nat)
    requires Inv(s)
  {
    && err % 2 == 0 && err / 8 % 2 == 0 && err / 16 % 2 == 0
    && HEAP_BASE <= va < HEAP_BASE + HEAP_SIZE
    && Resolve(s.ph.mem, s.cr3, PathOf(va)) == None
    && Missing(s.ph.mem, s.cr3, PathOf(va)).Some?
    && Missing(s.ph.mem, s.cr3, PathOf(va)).value + 1 <= CountFree(s.ph.used)
  }

  lemma {:induction false} SameTablesMissing(ph: Phys, mem: Memory, x: nat, p: seq<Index>)
    requires PhysInv(ph) && |mem| == FRAME_COUNT
    requires forall f :: 0 <= f < FRAME_COUNT && ph.own[f].Table? ==> mem[f] == ph.mem[f]
    requires IsTable(ph, x) && 1 <= |p| && |ph.own[x].path| + |p| == 4
    ensures Missing(mem, x, p) == Missing(ph.mem, x, p)
    decreases |p|
  {
    if |p| > 1 && Down(ph.mem[x][p[0]]) {
      assert LinkDown(ph, x, p[0]);
      SameTablesMissing(ph, mem, ph.mem[x][p[0]].frame, p[1..]);
    }
  }

  lemma {:induction false} FaultHandledIff(s: State, va: nat, err: nat)
    requires Inv(s)
    ensures VmHandleFault(s, va, err).1 <==> CanHandle(s, va, err)
  {
    hide VmMap, VmHandleFault;
    FaultUnfolds(s, va, err);
    CountFreeZero(s.ph.used);
    if Tries(s, va, err) {
      MappedIff(s, va, err);
    }
  }

  lemma {:induction false} MappedIff(s: State, va: nat, err: nat)
    requires Inv(s) && Tries(s, va, err)
    ensures IsSpace(Prepared(s, va, LowestFree(s.ph.used).value).ph, s.cr3)
    ensures Mapped(s, va, LowestFree(s.ph.used).value).1 <==> CanHandle(s, va, err)
  {
    hide VmMap, PathOf, Resolve, Missing, Linked;
    var f := LowestFree(s.ph.used).value;
    PreparedFacts(s, va, err);
    HeapPathOf(va);
    var s1 := Prepared(s, va, f);
    MapSucceedsIff(s1, s.cr3, va - va % PAGE_SIZE, f * PAGE_SIZE, TABLE_FLAGS);
    SameTablesResolve(s.ph, s1.ph.mem, s.cr3, PathOf(va));
    SameTablesMissing(s.ph, s1.ph.mem, s.cr3, PathOf(va));
    CountFreeUpdate(s.ph.used, f, true);
  }
}
