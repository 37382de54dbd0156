// The virtual layer as the kernel runs it: page-table entries written in place,
// frames zeroed word by word, CR3, the TLB and the fault counters as fields. Every
// operation is proved to be the function of VmSpec with the same name.
module VirtualMemory {
  import opened Words
  import opened FrameSpec
  import opened FrameAllocation
  import opened Paging
  import opened VmSpec
  import opened VmMapping
  import opened VmSpaces
  import opened VmFaults

  class VirtualMemory {
    const mem: array<Frame>
    const pmm: FrameAllocator
    var kernelSpace: nat
    var cr3: nat
    var tlb: map<seq<Index>, Mapping>
    var faults: nat
    var inFault: bool
    ghost var own: seq<Owner>

    ghost function Physical(): Phys
      requires pmm.Sized()
      reads this, mem, pmm.bitmap
    {
      Phys(mem[..], pmm.Bits(), own)
    }

    ghost function Abstract(): State
      requires pmm.Sized()
      reads this, mem, pmm.bitmap
    {
      State(Physical(), kernelSpace, cr3, tlb, faults, inFault)
    }

    ghost predicate Valid()
      reads this, mem, pmm, pmm.bitmap
    {
      pmm.Valid() && PhysInv(Physical()) && IsSpace(Physical(), kernelSpace) && IsSpace(Physical(), cr3)
    }

    /**
     * vm_init: the current space becomes the kernel space. The frame allocator need not
     * be ready yet; `Startup.Start` makes the object valid.
     */
    constructor (mem: array<Frame>, pmm: FrameAllocator, cr3: nat)
      ensures this.mem == mem && this.pmm == pmm && kernelSpace == cr3 && this.cr3 == cr3
      ensures tlb == map[] && faults == 0 && !inFault
    {
      this.mem := mem;
      this.pmm := pmm;
      this.kernelSpace := cr3;
      this.cr3 := cr3;
      this.tlb := map[];
      this.faults := 0;
      this.inFault := false;
      this.own := [];
    }

    /** The loops that clear a frame before it is used. */
    method Clear(f: nat)
      requires f < mem.Length
      modifies mem
      ensures mem[..] == old(mem[..])[f := ZeroFrame()]
    {
      for i := 0 to 512
        invariant forall g :: 0 <= g < mem.Length && g != f ==> mem[g] == old(mem[..])[g]
        invariant forall j: Index :: j < i ==> mem[f][j] == ZERO
      {
        mem[f] := mem[f][i := ZERO];
      }
      assert mem[f] == ZeroFrame();
    }

    /** One level of vm_walk; 0 stands for NULL. */
    method NextTable(t: nat, i: Index, create: bool) returns (next: nat)
      requires Valid() && IsTable(Physical(), t) && |own[t].path| < 3
      modifies this, mem, pmm, pmm.bitmap
      ensures pmm.Valid()
      ensures var d := Descend(old(Physical()), t, i, create);
        Abstract() == old(Abstract()).(ph := d.0) && next == if d.1.Some? then d.1.value else 0
    {
      hide Linked, CountFree;
      var e := mem[t][i];
      if !e.present {
        if !create {
          return 0;
        }
        var pa := pmm.Alloc();
        if pa == 0 {
          return 0;
        }
        var f := pa / PAGE_SIZE;
        Clear(f);
        mem[t] := mem[t][i := Pte(f, TABLE_FLAGS)];
        own := own[f := Table(own[t].path + [i], t)];
        return f;
      } else if e.huge {
        return 0;
      }
      return e.frame;
    }

    /** One level of a walk along `path`, with the rest of the walk still to do. */
    method Level(t: nat, path: seq<Index>, create: bool) returns (next: nat)
      requires Valid() && IsTable(Physical(), t) && 2 <= |path| && |own[t].path| + |path| == 4
      modifies this, mem, pmm, pmm.bitmap
      ensures Valid() && Abstract() == old(Abstract()).(ph := Physical())
      ensures next == 0 ==> Walk(old(Physical()), t, path, create) == (Physical(), None)
      ensures next != 0 ==>
        && IsTable(Physical(), next) && |own[next].path| == |old(own)[t].path| + 1
        && Walk(old(Physical()), t, path, create) == Walk(Physical(), next, path[1..], create)
      ensures !create ==> Physical() == old(Physical())
    {
      hide Linked, CountFree, Descend, Grown;
      DescendFacts(Physical(), t, path[0], create, t);
      next := NextTable(t, path[0], create);
      ghost var d := Descend(old(Physical()), t, path[0], create);
      TablesStay(old(Physical()), Physical(), t);
      assert IsSpace(Physical(), kernelSpace) && IsSpace(Physical(), cr3);
      assert d.1.Some? ==> IsTable(Physical(), d.1.value) && d.1.value != 0;
    }

    /**
     * vm_walk: the last-level table for va, or 0. The entry for va is the one at
     * index va / 4096 % 512 of that table.
     */
    method WalkTables(space: nat, va: nat, create: bool) returns (t: nat)
      requires Valid() && (space == 0 || IsSpace(Physical(), space))
      modifies this, mem, pmm, pmm.bitmap
      ensures Valid() && Abstract() == old(Abstract()).(ph := Physical())
      ensures space == 0 ==> t == 0 && Physical() == old(Physical())
      ensures space != 0 ==>
        var w := Walk(old(Physical()), space, PathOf(va), create);
        Physical() == w.0 && t == (if w.1.Some? then w.1.value else 0) && (w.1.Some? ==> t != 0)
    {
      hide Linked, CountFree, Descend, Grown, Walk;
      t := space;
      if space == 0 {
        return;
      }
      var path := PathOf(va);
      t := Level(t, path, create);
      if t == 0 {
        return;
      }
      t := Level(t, path[1..], create);
      if t == 0 {
        return;
      }
      assert path[1..][1..] == path[2..];
      t := Level(t, path[2..], create);
      if t == 0 {
        return;
      }
      assert path[2..][1..] == path[3..];
      WalkEnds(Physical(), t, path[3..], create);
    }

    /** invlpg */
    method Invlpg(va: nat)
      modifies this`tlb
      ensures tlb == Invalidate(old(tlb), va)
    {
      if Canonical(va) {
        tlb := tlb - {PathOf(va)};
      }
    }

    method Map(space: nat, va: nat, pa: nat, flags: Word) returns (ok: bool)
      requires Valid() && (space == 0 || IsSpace(Physical(), space))
      modifies this, mem, pmm, pmm.bitmap
      ensures Valid() && (Abstract(), ok) == VmMap(old(Abstract()), space, va, pa, flags)
    {
      hide Linked, Accounted, CountFree, Walk, PathOf, Grown;
      if space == 0 {
        return false;
      }
      if va % PAGE_SIZE != 0 || pa % PAGE_SIZE != 0 {
        return false;
      }
      if pa >= MAX_PHYS {
        return false;
      }
      if va < MAX_PHYS {
        return false;
      }
      MapStaysValid(Abstract(), space, va, pa, flags);
      var t := WalkTables(space, va, true);
      if t == 0 {
        return false;
      }
      var i := PathOf(va)[3];
      if mem[t][i].present {
        return false;
      }
      mem[t] := mem[t][i := Pte(pa / PAGE_SIZE, flags)];
      Invlpg(va);
      return true;
    }

    method Unmap(space: nat, va: nat) returns (pa: nat)
      requires Valid() && (space == 0 || IsSpace(Physical(), space))
      modifies this, mem, pmm, pmm.bitmap
      ensures Valid() && (Abstract(), pa) == VmUnmap(old(Abstract()), space, va)
    {
      hide Linked, Accounted, CountFree, Walk, PathOf, Grown;
      if space == 0 {
        return 0;
      }
      UnmapStaysValid(Abstract(), space, va);
      var t := WalkTables(space, va, false);
      var i := PathOf(va)[3];
      if t == 0 || !mem[t][i].present {
        return 0;
      }
      pa := mem[t][i].frame * PAGE_SIZE;
      mem[t] := mem[t][i := ZERO];
      Invlpg(va);
    }

    /** Slot 0 and the upper half come from the kernel's root. */
    method CopyKernelSlots(space: nat)
      requires space < mem.Length && kernelSpace < mem.Length && space != kernelSpace && mem[space] == ZeroFrame()
      modifies mem
      ensures mem[..] == old(mem[..])[space := RootFrom(old(mem[..])[kernelSpace])]
    {
      ghost var before := mem[..];
      mem[space] := mem[space][0 := mem[kernelSpace][0]];
      for i := 256 to 512
        invariant forall g :: 0 <= g < mem.Length && g != space ==> mem[g] == before[g]
        invariant forall j: Index :: mem[space][j] == if j == 0 || 256 <= j < i then before[kernelSpace][j] else ZERO
      {
        mem[space] := mem[space][i := mem[kernelSpace][i]];
      }
      assert mem[space] == RootFrom(before[kernelSpace]);
    }

    method CreateSpace() returns (space: nat)
      requires Valid()
      modifies this, mem, pmm, pmm.bitmap
      ensures Valid() && (Abstract(), space) == VmCreateSpace(old(Abstract()))
    {
      hide Linked, Accounted, CountFree;
      LowestIsFree(Physical());
      if kernelSpace == 0 {
        return 0;
      }
      CreateStaysValid(Abstract());
      var pa := pmm.Alloc();
      if pa == 0 {
        return 0;
      }
      space := pa / PAGE_SIZE;
      Clear(space);
      CopyKernelSlots(space);
      own := own[space := Table([], 0)];
    }

    /** Writing CR3 drops all TLB entries. */
    method SwitchTo(space: nat)
      requires Valid() && (space == 0 || IsSpace(Physical(), space))
      modifies this
      ensures Valid() && Abstract() == VmSwitch(old(Abstract()), space)
      ensures if space == 0 then cr3 == old(cr3) && tlb == old(tlb) else cr3 == space && tlb == map[]
    {
      if space == 0 {
        return;
      }
      cr3 := space;
      tlb := map[];
    }

    /** vm_switch_kernel */
    method SwitchToKernel()
      requires Valid()
      modifies this
      ensures Valid() && cr3 == kernelSpace == old(kernelSpace) && tlb == map[]
      ensures Abstract() == VmSwitch(old(Abstract()), old(kernelSpace))
    {
      SwitchTo(kernelSpace);
    }

    /** The handler's first half: a zeroed frame for the faulting page, or 0. */
    method ClaimForFault(va: nat) returns (pa: nat)
      requires Valid() && inFault && InHeap(va)
      modifies this, mem, pmm, pmm.bitmap
      ensures pmm.Valid()
      ensures match LowestFree(old(Physical()).used)
        case None => pa == 0 && Abstract() == old(Abstract())
        case Some(f) =>
          pa == f * PAGE_SIZE && pa != 0 && f < FRAME_COUNT && Abstract() == Prepared(old(Abstract()), va, f)
    {
      hide Linked, Accounted, CountFree;
      LowestIsFree(Physical());
      pa := pmm.Alloc();
      if pa == 0 {
        return;
      }
      own := own[pa / PAGE_SIZE := HeapPage(HeapPageOf(va))];
      Clear(pa / PAGE_SIZE);
    }

    /** The handler's failure path: the frame goes back. */
    method ReturnFrame(pa: nat)
      requires Valid() && pa % PAGE_SIZE == 0 && 0 < pa < MAX_PHYS && !own[pa / PAGE_SIZE].Table?
      modifies this, pmm, pmm.bitmap
      ensures Valid() && Abstract() == old(Abstract()).(ph := Release(old(Physical()), pa / PAGE_SIZE))
    {
      hide Linked, Accounted, CountFree;
      ReleaseKeepsInv(Physical(), pa / PAGE_SIZE);
      pmm.Free(pa);
      own := own[pa / PAGE_SIZE := Free];
    }

    /** The handler between setting and clearing vm_in_fault: frame, mapping, and clean-up. */
    method Repair(va: nat, ghost start: State, ghost err: nat) returns (handled: bool)
      requires Valid() && Abstract() == start.(inFault := true) && Inv(start) && InHeap(va) && !Refused(err)
      modifies this, mem, pmm, pmm.bitmap
      ensures Valid() && inFault && (Abstract().(inFault := false), handled) == VmHandleFault(start, va, err)
    {
      hide Linked, Accounted, CountFree, VmMap, VmHandleFault, PathOf, Prepared, Evolves, SameTables, Mapped;
      FaultUnfolds(start, va, err);
      var frame := ClaimForFault(va);
      if frame == 0 {
        return false;
      }
      PreparedIgnoresFlag(start, va, frame / PAGE_SIZE);
      PreparedFacts(start, va, err);
      MappedFacts(start, va, err);
      MappedIs(start, va, frame / PAGE_SIZE);
      handled := Map(cr3, va - va % PAGE_SIZE, frame, TABLE_FLAGS);
      if !handled {
        ReturnFrame(frame);
      } else {
        faults := (faults + 1) % WORD_LIMIT;
      }
    }

    /** vm_handle_page_fault on the address in CR2 and the error code. */
    method HandlePageFault(va: nat, err: nat) returns (handled: bool)
      requires Valid() && va < WORD_LIMIT
      modifies this, mem, pmm, pmm.bitmap
      ensures Valid() && (Abstract(), handled) == VmHandleFault(old(Abstract()), va, err)
    {
      hide Linked, Accounted, CountFree, VmHandleFault;
      FaultIgnored(Abstract(), va, err);
      if inFault {
        return false;
      }
      if err % 2 == 1 {
        return false;
      }
      if err / 8 % 2 == 1 {
        return false;
      }
      if err / 16 % 2 == 1 {
        return false;
      }
      if va < HEAP_BASE || va >= HEAP_BASE + HEAP_SIZE {
        return false;
      }
      inFault := true;
      handled := Repair(va, old(Abstract()), err);
      inFault := false;
    }
  }

  lemma {:induction false} WalkEnds(ph: Phys, t: nat, path: seq<Index>, create: bool)
    requires IsTable(ph, t) && |path| == 1
    ensures Walk(ph, t, path, create) == (ph, Some(t))
  {
  }

  lemma {:induction false} LowestIsFree(ph: Phys)
    requires PhysInv(ph)
    ensures LowestFree(ph.used).Some? ==> var f := LowestFree(ph.used).value; 0 < f < FRAME_COUNT && ph.own[f] == Free
  {
  }

  lemma {:induction false} MapStaysValid(s: State, space: nat, va: nat, pa: nat, flags: Word)
    requires PhysInv(s.ph) && IsSpace(s.ph, space) && IsSpace(s.ph, s.kernel) && IsSpace(s.ph, s.cr3)
    ensures var ph' := VmMap(s, space, va, pa, flags).0.ph;
      PhysInv(ph') && IsSpace(ph', s.kernel) && IsSpace(ph', s.cr3)
  {
    MapKeepsInv(s, space, va, pa, flags);
    MapEvolves(s, space, va, pa, flags);
  }

  lemma {:induction false} UnmapStaysValid(s: State, space: nat, va: nat)
    requires PhysInv(s.ph) && IsSpace(s.ph, space) && IsSpace(s.ph, s.kernel) && IsSpace(s.ph, s.cr3)
    ensures var ph' := VmUnmap(s, space, va).0.ph;
      PhysInv(ph') && IsSpace(ph', s.kernel) && IsSpace(ph', s.cr3)
  {
    UnmapKeepsInv(s, space, va);
  }

  lemma {:induction false} CreateStaysValid(s: State)
    requires PhysInv(s.ph) && IsSpace(s.ph, s.kernel) && IsSpace(s.ph, s.cr3)
    ensures var ph' := VmCreateSpace(s).0.ph;
      PhysInv(ph') && IsSpace(ph', s.kernel) && IsSpace(ph', s.cr3)
  {
    CreateKeepsInv(s.(inFault := false));
  }

  lemma {:induction false} FaultIgnored(s: State, va: nat, err: nat)
    requires ValidSpace(s, s.cr3)
    ensures s.inFault || Refused(err) || !InHeap(va) ==> VmHandleFault(s, va, err) == (s, false)
  {
  }

  lemma {:induction false} PreparedIgnoresFlag(s: State, va: nat, f: nat)
    requires Sized(s.ph) && f < FRAME_COUNT && InHeap(va)
    ensures Prepared(s.(inFault := true), va, f) == Prepared(s, va, f)
    ensures Prepared(s, va, f).kernel == s.kernel && Prepared(s, va, f).cr3 == s.cr3 && Prepared(s, va, f).inFault
    ensures Prepared(s, va, f).faults == s.faults
  {
  }

  lemma {:induction false} MappedIs(s: State, va: nat, f: nat)
    requires Sized(s.ph) && f < FRAME_COUNT && InHeap(va) && IsTable(Prepared(s, va, f).ph, s.cr3)
    ensures Mapped(s, va, f) == VmMap(Prepared(s, va, f), s.cr3, va - va % PAGE_SIZE, f * PAGE_SIZE, TABLE_FLAGS)
  {
  }
}
