// pmm_init: mapping the boot information block, parsing it, setting up the bitmap
// and extending the identity map to all usable memory.
module PmmBoot {
  import opened Words
  import opened FrameSpec
  import opened MemoryMap
  import opened BootInfoSpec
  import BootInfo
  import opened FrameAllocation
  import opened Paging
  import opened VmSpec
  import opened VmSpaces
  import opened VmAddresses
  import opened VmGuarantees
  import opened VmRun
  import opened VmHeapRegion
  import opened VmHeapLimits
  import opened VmHeapSupply

  const LARGE: nat := 0x20_0000
  const MAX_RANGES: nat := 32

  /**
   * The tables the boot code leaves: a root, one table below slot 0 and one
   * directory below its entry 0, all in the first two megabytes; the directory
   * holds identity-mapping large pages only, the first of them present.
   */
  datatype BootTables = BootTables(root: nat, pdpt: nat, pd: nat)

  predicate Lone(f: Frame) { forall i: Index :: i != 0 ==> !f[i].present }

  predicate IdentityDirectory(f: Frame) { forall i: Index :: f[i].present ==> f[i] == LargePage(i) }

  ghost predicate BootShape(mem: Memory, b: BootTables) {
    && |mem| == FRAME_COUNT
    && 256 <= b.root < 512 && 256 <= b.pdpt < 512 && 256 <= b.pd < 512
    && b.root != b.pdpt && b.root != b.pd && b.pdpt != b.pd
    && Lone(mem[b.root]) && mem[b.root][0] == Pte(b.pdpt, TABLE_FLAGS)
    && Lone(mem[b.pdpt]) && mem[b.pdpt][0] == Pte(b.pd, TABLE_FLAGS)
    && IdentityDirectory(mem[b.pd]) && mem[b.pd][0].present
  }

  /** mem' is mem with some empty entries of the directory filled with identity-mapping pages. */
  ghost predicate Filled(mem: Memory, mem': Memory, pd: nat)
    requires |mem| == FRAME_COUNT && pd < FRAME_COUNT
  {
    && |mem'| == FRAME_COUNT
    && (forall f :: 0 <= f < FRAME_COUNT && f != pd ==> mem'[f] == mem[f])
    && (forall i: Index :: mem'[pd][i] == mem[pd][i] || (!mem[pd][i].present && mem'[pd][i] == LargePage(i)))
  }

  lemma {:induction false} FilledKeepsShape(mem: Memory, mem': Memory, b: BootTables)
    requires BootShape(mem, b) && Filled(mem, mem', b.pd)
    ensures BootShape(mem', b)
  {
  }

  /** The chain pml4[0] -> pdpt[0] is present. */
  predicate ChainPresent(mem: Memory, cr3: nat)
    requires TablesReadable(mem, cr3)
  {
    mem[cr3][0].present && mem[mem[cr3][0].frame][0].present
  }

  /** Present links lead to frames below 1GB. */
  predicate TablesReadable(mem: Memory, cr3: nat) {
    && |mem| == FRAME_COUNT && cr3 < FRAME_COUNT
    && (mem[cr3][0].present ==>
          && mem[cr3][0].frame < FRAME_COUNT
          && (Down(mem[mem[cr3][0].frame][0]) ==> mem[mem[cr3][0].frame][0].frame < FRAME_COUNT))
  }

  /** The directory below pml4[0] and pdpt[0]; None if the chain ends early or in a 1GB page. */
  function Directory(mem: Memory, cr3: nat): (pd: Option<nat>)
    requires TablesReadable(mem, cr3)
    ensures pd.Some? ==> pd.value < FRAME_COUNT
  {
    if ChainPresent(mem, cr3) && !mem[mem[cr3][0].frame][0].huge then Some(mem[mem[cr3][0].frame][0].frame) else None
  }

  /** The directory entries that meet [addr, addr + len). */
  predicate Covers(addr: nat, len: nat, i: nat) {
    len > 0 && addr / LARGE <= i <= (addr + len - 1) / LARGE
  }

  /** No small-page table stands in the range. */
  ghost predicate NoSmallTable(mem: Memory, pd: nat, addr: nat, len: nat)
    requires |mem| == FRAME_COUNT && pd < FRAME_COUNT
  {
    forall i: Index :: Covers(addr, len, i) && mem[pd][i].present ==> mem[pd][i].huge
  }

  /** When ensure_2mb_mapped succeeds. */
  ghost predicate Mappable(mem: Memory, cr3: nat, addr: nat, len: nat)
    requires TablesReadable(mem, cr3)
  {
    var pd := Directory(mem, cr3);
    || len == 0
    || (addr + len <= MAX_PHYS && ChainPresent(mem, cr3) && (pd.Some? ==> NoSmallTable(mem, pd.value, addr, len)))
  }

  /** What the boot-time mapping code may do: fill empty entries of the directory, if there is one. */
  ghost predicate Extended(mem: Memory, mem': Memory, cr3: nat)
    requires TablesReadable(mem, cr3)
  {
    match Directory(mem, cr3)
    case None => mem' == mem
    case Some(pd) => Filled(mem, mem', pd)
  }

  /** Filling the directory keeps the chain that leads to it, and what can still be mapped. */
  lemma {:induction false} ExtendedKeeps(mem: Memory, mem': Memory, cr3: nat)
    requires TablesReadable(mem, cr3) && Extended(mem, mem', cr3)
    ensures TablesReadable(mem', cr3) && Directory(mem', cr3) == Directory(mem, cr3)
    ensures ChainPresent(mem', cr3) <==> ChainPresent(mem, cr3)
    ensures forall addr: nat, len: nat :: Mappable(mem', cr3, addr, len) <==> Mappable(mem, cr3, addr, len)
  {
    if Directory(mem, cr3).Some? {
      ChainStays(mem, mem', cr3);
      forall addr: nat, len: nat
        ensures Mappable(mem', cr3, addr, len) <==> Mappable(mem, cr3, addr, len)
      {
      }
    }
  }

  lemma {:induction false} ChainStays(mem: Memory, mem': Memory, cr3: nat)
    requires TablesReadable(mem, cr3) && Directory(mem, cr3).Some?
    requires Filled(mem, mem', Directory(mem, cr3).value)
    ensures mem'[cr3][0] == mem[cr3][0] && mem'[mem[cr3][0].frame][0] == mem[mem[cr3][0].frame][0]
    ensures TablesReadable(mem', cr3) && Directory(mem', cr3) == Directory(mem, cr3)
  {
  }

  /** Exactly the empty ones of the listed directory entries are filled. */
  ghost predicate FilledAt(mem: Memory, mem': Memory, pd: nat, at: set<int>)
    requires |mem| == FRAME_COUNT && pd < FRAME_COUNT
  {
    && |mem'| == FRAME_COUNT
    && (forall f :: 0 <= f < FRAME_COUNT && f != pd ==> mem'[f] == mem[f])
    && (forall i: Index :: mem'[pd][i] == if i in at && !mem[pd][i].present then LargePage(i) else mem[pd][i])
  }

  ghost predicate ExtendedAt(mem: Memory, mem': Memory, cr3: nat, at: set<int>)
    requires TablesReadable(mem, cr3)
  {
    match Directory(mem, cr3)
    case None => mem' == mem
    case Some(pd) => FilledAt(mem, mem', pd, at)
  }

  lemma {:induction false} ExtendedAtIs(mem: Memory, mem': Memory, cr3: nat, at: set<int>)
    requires TablesReadable(mem, cr3) && ExtendedAt(mem, mem', cr3, at)
    ensures Extended(mem, mem', cr3)
  {
  }

  lemma {:induction false} ExtendedAtNone(mem: Memory, cr3: nat)
    requires TablesReadable(mem, cr3)
    ensures ExtendedAt(mem, mem, cr3, {})
  {
  }

  lemma {:induction false} ExtendedAtBoth(a: Memory, b: Memory, c: Memory, cr3: nat, at: set<int>, more: set<int>)
    requires TablesReadable(a, cr3) && ExtendedAt(a, b, cr3, at)
    requires TablesReadable(b, cr3) && ExtendedAt(b, c, cr3, more)
    ensures ExtendedAt(a, c, cr3, at + more)
  {
    ExtendedAtIs(a, b, cr3, at);
    ExtendedKeeps(a, b, cr3);
  }

  predicate Among(i: int, from: int, to: int) { from <= i < to }

  ghost function Between(from: int, to: int): set<int> { set i: Index | Among(i, from, to) }

  /** The entries ensure_2mb_mapped gets to: those that meet the range, before the first small-page table. */
  ghost function Attempted(mem: Memory, cr3: nat, addr: nat, len: nat): set<int>
    requires TablesReadable(mem, cr3)
  {
    match Directory(mem, cr3)
    case None => {}
    case Some(pd) =>
      set i: Index | addr + len <= MAX_PHYS && Covers(addr, len, i) && Unblocked(mem, pd, addr, len, i)
  }

  ghost predicate Unblocked(mem: Memory, pd: nat, addr: nat, len: nat, i: Index)
    requires |mem| == FRAME_COUNT && pd < FRAME_COUNT
  {
    forall j: Index :: j < i && Covers(addr, len, j) && mem[pd][j].present ==> mem[pd][j].huge
  }

  /** What is attempted does not depend on the entries filled before. */
  lemma {:induction false} AttemptedSame(mem: Memory, mem': Memory, cr3: nat, addr: nat, len: nat)
    requires TablesReadable(mem, cr3) && Extended(mem, mem', cr3) && TablesReadable(mem', cr3)
    ensures Attempted(mem', cr3, addr, len) == Attempted(mem, cr3, addr, len)
  {
    hide Covers;
    ExtendedKeeps(mem, mem', cr3);
  }

  /** On success it gets to all of them. */
  lemma {:induction false} AttemptedAll(mem: Memory, cr3: nat, addr: nat, len: nat)
    requires TablesReadable(mem, cr3) && Mappable(mem, cr3, addr, len) && Directory(mem, cr3).Some?
    ensures Attempted(mem, cr3, addr, len) == set i: Index | Covers(addr, len, i)
  {
  }

  /**
   * ensure_2mb_mapped: when it succeeds, and exactly which directory entries it fills,
   * also when it fails.
   */
  method EnsureMapped(mem: array<Frame>, cr3: nat, addr: nat, len: nat) returns (ok: bool)
    requires TablesReadable(mem[..], cr3)
    modifies mem
    ensures ExtendedAt(old(mem[..]), mem[..], cr3, Attempted(old(mem[..]), cr3, addr, len))
    ensures ok <==> Mappable(old(mem[..]), cr3, addr, len)
  {
    if len == 0 {
      return true;
    }
    if addr >= MAX_PHYS || len > MAX_PHYS - addr {
      return false;
    }
    var pml4 := mem[cr3];
    if !pml4[0].present {
      return false;
    }
    var pdpt := mem[pml4[0].frame];
    if !pdpt[0].present {
      return false;
    }
    if pdpt[0].huge {
      return true;
    }
    var pd := pdpt[0].frame;
    var first, last := addr / LARGE, (addr + len - 1) / LARGE;
    var idx := first;
    while true
      invariant first <= idx <= last < 512
      invariant FilledAt(old(mem[..]), mem[..], pd, Between(first, idx))
      invariant forall i: Index :: first <= i < idx && old(mem[..])[pd][i].present ==> old(mem[..])[pd][i].huge
      decreases last - idx
    {
      if mem[pd][idx].present {
        if !mem[pd][idx].huge {
          assert Covers(addr, len, idx);
          assert Attempted(old(mem[..]), cr3, addr, len) == Between(first, idx + 1);
          return false;
        }
      } else {
        mem[pd] := mem[pd][idx := LargePage(idx)];
      }
      if idx == last {
        break;
      }
      idx := idx + 1;
    }
    assert Attempted(old(mem[..]), cr3, addr, len) == Between(first, last + 1);
    return true;
  }

  /** The entries from 1 on that begin below `end`. */
  ghost function EntriesBelow(end: nat): set<int> { set i: Index | 0 < i && i * LARGE < end }

  /**
   * pmm_extend_identity: on success the directory's empty entries from 1 on that begin
   * below maxEnd are filled, and no others; entry 0 is left as the boot code made it.
   */
  method ExtendIdentity(mem: array<Frame>, cr3: nat, maxEnd: nat) returns (ok: bool)
    requires TablesReadable(mem[..], cr3)
    modifies mem
    ensures ExtendedAt(old(mem[..]), mem[..], cr3, if ok then EntriesBelow(maxEnd) else {})
    ensures ok <==> maxEnd == 0 || ChainPresent(old(mem[..]), cr3)
  {
    if maxEnd == 0 {
      return true;
    }
    var end := if maxEnd > MAX_PHYS then MAX_PHYS else maxEnd;
    var n := (end + LARGE - 1) / LARGE;
    if n > 512 {
      n := 512;
    }
    var pml4 := mem[cr3];
    if !pml4[0].present {
      return false;
    }
    var pdpt := mem[pml4[0].frame];
    if !pdpt[0].present {
      return false;
    }
    if pdpt[0].huge {
      return true;
    }
    var pd := pdpt[0].frame;
    for idx := 1 to n
      invariant FilledAt(old(mem[..]), mem[..], pd, Between(1, idx))
    {
      if !mem[pd][idx].present {
        mem[pd] := mem[pd][idx := LargePage(idx)];
      }
    }
    assert EntriesBelow(maxEnd) == Between(1, n);
    return true;
  }

  lemma {:induction false} BootChain(mem: Memory, b: BootTables)
    requires BootShape(mem, b)
    ensures TablesReadable(mem, b.root) && ChainPresent(mem, b.root) && Directory(mem, b.root) == Some(b.pd)
    ensures forall addr: nat, len: nat :: Mappable(mem, b.root, addr, len) <==> len == 0 || addr + len <= MAX_PHYS
  {
  }

  /** When pmm_init succeeds. */
  ghost predicate Bootable(mem: Memory, cr3: nat, mbInfo: nat, block: seq<Byte>)
    requires TablesReadable(mem, cr3) && Readable(block)
  {
    && mbInfo != 0 && Mappable(mem, cr3, mbInfo, 8)
    && ValidTotal(U32(block, 0)) && Mappable(mem, cr3, mbInfo, U32(block, 0))
    && Parse(mbInfo, block, MAX_RANGES).Some?
  }

  /** With the tables the boot code leaves, it depends on the block alone. */
  lemma {:induction false} BootableAtBoot(mem: Memory, b: BootTables, mbInfo: nat, block: seq<Byte>)
    requires BootShape(mem, b) && Readable(block)
    ensures TablesReadable(mem, b.root)
    ensures Bootable(mem, b.root, mbInfo, block) <==>
      && mbInfo != 0 && mbInfo + 8 <= MAX_PHYS && ValidTotal(U32(block, 0))
      && mbInfo + U32(block, 0) <= MAX_PHYS && Parse(mbInfo, block, MAX_RANGES).Some?
  {
    hide U32, Parse, Mappable, BootShape;
    BootChain(mem, b);
  }

  /** The entries attempted for the boot information block: for its first eight bytes, then for all of it. */
  ghost function InfoEntries(mem: Memory, cr3: nat, mbInfo: nat, block: seq<Byte>): set<int>
    requires TablesReadable(mem, cr3) && Readable(block)
  {
    if mbInfo == 0 then {}
    else
      Attempted(mem, cr3, mbInfo, 8) +
        if Mappable(mem, cr3, mbInfo, 8) && ValidTotal(U32(block, 0))
        then Attempted(mem, cr3, mbInfo, U32(block, 0)) else {}
  }

  /** The first part of pmm_init: the boot information block is mapped before it is read. */
  method MapInfo(mbInfo: nat, block: seq<Byte>, mem: array<Frame>, cr3: nat) returns (ok: bool)
    requires Readable(block) && TablesReadable(mem[..], cr3)
    modifies mem
    ensures ExtendedAt(old(mem[..]), mem[..], cr3, InfoEntries(old(mem[..]), cr3, mbInfo, block))
    ensures ok <==>
      && mbInfo != 0 && Mappable(old(mem[..]), cr3, mbInfo, 8)
      && ValidTotal(U32(block, 0)) && Mappable(old(mem[..]), cr3, mbInfo, U32(block, 0))
  {
    hide U32, Mappable, Covers, FilledAt, Directory, Attempted, ExtendedAt, Extended;
    ghost var m0 := mem[..];
    ExtendedAtNone(m0, cr3);
    if mbInfo == 0 {
      return false;
    }
    ok := EnsureMapped(mem, cr3, mbInfo, 8);
    ghost var m1, first := mem[..], Attempted(m0, cr3, mbInfo, 8);
    assert first + {} == first;
    ExtendedAtIs(m0, m1, cr3, first);
    ExtendedKeeps(m0, m1, cr3);
    if !ok {
      return;
    }
    var total := U32(block, 0);
    if total == 0 || total > MAX_TOTAL {
      return false;
    }
    ok := EnsureMapped(mem, cr3, mbInfo, total);
    AttemptedSame(m0, m1, cr3, mbInfo, total);
    ExtendedAtBoth(m0, m1, mem[..], cr3, first, Attempted(m0, cr3, mbInfo, total));
  }

  /** The range, cut off at 1GB, ends at or below `end`. */
  predicate EndsBy(r: Range, end: nat) { IsRange(r) && ClampedEnd(r.base, r.length) <= end }

  /** The loop of pmm_init that finds where usable memory ends, cut off at 1GB. */
  method HighestEnd(ranges: seq<Range>) returns (maxEnd: nat)
    requires forall i :: 0 <= i < |ranges| ==> IsRange(ranges[i])
    ensures forall i :: 0 <= i < |ranges| ==> EndsBy(ranges[i], maxEnd)
    ensures maxEnd == 0 || exists i :: 0 <= i < |ranges| && EndsBy(ranges[i], maxEnd) && !EndsBy(ranges[i], maxEnd - 1)
  {
    maxEnd := 0;
    for i := 0 to |ranges|
      invariant forall j :: 0 <= j < i ==> EndsBy(ranges[j], maxEnd)
      invariant maxEnd == 0 || exists j :: 0 <= j < i && EndsBy(ranges[j], maxEnd) && !EndsBy(ranges[j], maxEnd - 1)
    {
      var end := ClampedEnd(ranges[i].base, ranges[i].length);
      if end > maxEnd {
        maxEnd := end;
      }
    }
  }

  /** The entries from 1 on that begin below the end of some range. */
  ghost function IdentityEntries(ranges: seq<Range>): set<int> {
    set i: Index | 0 < i && exists j :: 0 <= j < |ranges| && i * LARGE < ranges[j].base + ranges[j].length
  }

  lemma {:induction false} IdentityEntriesAre(ranges: seq<Range>, maxEnd: nat)
    requires forall i :: 0 <= i < |ranges| ==> EndsBy(ranges[i], maxEnd)
    requires maxEnd == 0 || exists i :: 0 <= i < |ranges| && EndsBy(ranges[i], maxEnd) && !EndsBy(ranges[i], maxEnd - 1)
    ensures EntriesBelow(maxEnd) == IdentityEntries(ranges)
  {
    forall i: Index
      ensures i in EntriesBelow(maxEnd) <==> i in IdentityEntries(ranges)
    {
      if 0 < i && i * LARGE < maxEnd {
        var j :| 0 <= j < |ranges| && EndsBy(ranges[j], maxEnd) && !EndsBy(ranges[j], maxEnd - 1);
        assert i * LARGE < ranges[j].base + ranges[j].length;
      }
      if i in IdentityEntries(ranges) {
        var j :| 0 <= j < |ranges| && i * LARGE < ranges[j].base + ranges[j].length;
        assert EndsBy(ranges[j], maxEnd);
      }
    }
  }

  /** The last part of pmm_init: the bitmap and the identity map, from the ranges found. */
  method SetUp(ranges: seq<Range>, mbInfo: nat, infoEnd: nat, bssEnd: nat, mem: array<Frame>, cr3: nat,
               pmm: FrameAllocator)
    returns (ok: bool)
    requires (forall i :: 0 <= i < |ranges| ==> IsRange(ranges[i])) && mbInfo < WORD_LIMIT && infoEnd < WORD_LIMIT
    requires bssEnd + 4095 < WORD_LIMIT && pmm.Sized()
    requires TablesReadable(mem[..], cr3) && ChainPresent(mem[..], cr3)
    modifies mem, pmm, pmm.bitmap
    ensures ok && ExtendedAt(old(mem[..]), mem[..], cr3, IdentityEntries(ranges)) && pmm.Valid()
    ensures forall f :: 0 <= f < FRAME_COUNT ==> (!pmm.Used(f) <==> Usable(ranges, bssEnd, mbInfo, infoEnd, f))
  {
    hide Usable, Test, CountFree, FilledAt, Directory, ExtendedAt, ClampedEnd, EntriesBelow, IdentityEntries;
    var maxEnd := HighestEnd(ranges);
    pmm.BitmapInit(ranges, bssEnd, mbInfo, infoEnd);
    IdentityEntriesAre(ranges, maxEnd);
    ok := ExtendIdentity(mem, cr3, maxEnd);
  }

  /**
   * pmm_init. On success a frame is free exactly if the memory map offers it and
   * it meets nothing reserved. The directory entries filled are exactly the empty ones
   * among those attempted for the block and, on success, those from 1 on that begin
   * below the end of some available range. If the tables were those the boot code
   * leaves, and the kernel image holds them, the virtual layer can start.
   */
  method PmmInit(mbInfo: nat, block: seq<Byte>, bssEnd: nat, mem: array<Frame>, cr3: nat, ghost b: BootTables,
                 pmm: FrameAllocator)
    returns (ok: bool)
    requires Readable(block) && bssEnd + 4095 < WORD_LIMIT && TablesReadable(mem[..], cr3) && pmm.Sized()
    modifies mem, pmm, pmm.bitmap
    ensures ok <==> Bootable(old(mem[..]), cr3, mbInfo, block)
    ensures ExtendedAt(old(mem[..]), mem[..], cr3,
      InfoEntries(old(mem[..]), cr3, mbInfo, block)
      + if ok then IdentityEntries(Parse(mbInfo, block, MAX_RANGES).value) else {})
    ensures var pd := Directory(old(mem[..]), cr3);
      ok && pd.Some? ==> forall i: Index :: mem[pd.value][i].present <==>
        || old(mem[..])[pd.value][i].present || Covers(mbInfo, 8, i) || Covers(mbInfo, U32(block, 0), i)
        || i in IdentityEntries(Parse(mbInfo, block, MAX_RANGES).value)
    ensures ok ==> pmm.Valid()
    ensures ok ==> forall f :: 0 <= f < FRAME_COUNT ==>
      (!pmm.Used(f) <==> Usable(Parse(mbInfo, block, MAX_RANGES).value, bssEnd, mbInfo, mbInfo + U32(block, 0), f))
    ensures ok && BootShape(old(mem[..]), b) && cr3 == b.root && InImage(b, bssEnd) ==> Booted(mem[..], pmm.Bits(), b)
  {
    hide Parse, U32, Usable, Test, CountFree, FilledAt, Directory, ExtendedAt, Extended, BootShape, Mappable;
    hide InfoEntries, IdentityEntries, Covers;
    ghost var m0, info := mem[..], InfoEntries(mem[..], cr3, mbInfo, block);
    ok := MapInfo(mbInfo, block, mem, cr3);
    ghost var m1 := mem[..];
    assert info + {} == info;
    ExtendedAtIs(m0, m1, cr3, info);
    ExtendedKeeps(m0, m1, cr3);
    if !ok {
      return;
    }
    MappableFacts(m0, cr3, mbInfo, 8);
    MappableFacts(m0, cr3, mbInfo, U32(block, 0));
    var found := new Range[MAX_RANGES](_ => Range(0, 0));
    var infoEnd := new nat[1](_ => 0);
    var count := BootInfo.Mb2Init(mbInfo, block, found, MAX_RANGES, infoEnd);
    if count < 0 {
      return false;
    }
    var ranges := found[..count];
    ParseGood(mbInfo, block, MAX_RANGES);
    ok := SetUp(ranges, mbInfo, infoEnd[0], bssEnd, mem, cr3, pmm);
    ExtendedAtBoth(m0, m1, mem[..], cr3, info, IdentityEntries(ranges));
    PresentAtEnd(m0, mem[..], cr3, mbInfo, block, IdentityEntries(ranges));
    if BootShape(m0, b) && cr3 == b.root && InImage(b, bssEnd) {
      BootedFrom(m0, mem[..], pmm.Bits(), b, info + IdentityEntries(ranges), ranges, bssEnd, mbInfo, infoEnd[0]);
    }
  }

  lemma {:induction false} MappableFacts(mem: Memory, cr3: nat, addr: nat, len: nat)
    requires TablesReadable(mem, cr3) && Mappable(mem, cr3, addr, len) && len > 0
    ensures addr + len <= MAX_PHYS && ChainPresent(mem, cr3)
  {
  }

  /** Once the block could be mapped, the large pages present are those there were, the block's, and the rest filled. */
  lemma {:induction false} PresentAtEnd(mem: Memory, mem': Memory, cr3: nat, mbInfo: nat, block: seq<Byte>,
                                        more: set<int>)
    requires TablesReadable(mem, cr3) && Readable(block) && Bootable(mem, cr3, mbInfo, block)
    requires ExtendedAt(mem, mem', cr3, InfoEntries(mem, cr3, mbInfo, block) + more)
    ensures var pd := Directory(mem, cr3);
      pd.Some? ==> |mem'| == FRAME_COUNT && forall i: Index :: mem'[pd.value][i].present <==>
        || mem[pd.value][i].present || Covers(mbInfo, 8, i) || Covers(mbInfo, U32(block, 0), i) || i in more
  {
    hide U32, Parse, Mappable, Directory, Attempted, Covers;
    if Directory(mem, cr3).Some? {
      AttemptedAll(mem, cr3, mbInfo, 8);
      AttemptedAll(mem, cr3, mbInfo, U32(block, 0));
    }
  }

  /** From the usable frames and the extended directory to the state the virtual layer starts in. */
  lemma {:induction false} BootedFrom(mem: Memory, mem': Memory, used: seq<bool>, b: BootTables, at: set<int>,
                                      ranges: seq<Range>, bssEnd: nat, info: nat, infoEnd: nat)
    requires BootShape(mem, b) && TablesReadable(mem, b.root) && ExtendedAt(mem, mem', b.root, at)
    requires |used| == FRAME_COUNT && InImage(b, bssEnd) && IdentityEntries(ranges) <= at
    requires forall f :: 0 <= f < FRAME_COUNT ==> (!used[f] <==> Usable(ranges, bssEnd, info, infoEnd, f))
    ensures Booted(mem', used, b)
  {
    hide Usable, IdentityEntries, BootShape;
    BootChain(mem, b);
    ExtendedAtIs(mem, mem', b.root, at);
    FilledKeepsShape(mem, mem', b);
    BootFramesReserved(ranges, bssEnd, info, infoEnd, 0);
    BootFramesReserved(ranges, bssEnd, info, infoEnd, b.root);
    BootFramesReserved(ranges, bssEnd, info, infoEnd, b.pdpt);
    BootFramesReserved(ranges, bssEnd, info, infoEnd, b.pd);
    ShapeBounds(mem', b);
    forall f | 0 <= f < FRAME_COUNT && !used[f]
      ensures mem'[b.pd][f / 512] == LargePage(f / 512)
    {
      if f >= 512 { UsableInEntries(ranges, bssEnd, info, infoEnd, f); }
      assert mem'[b.pd][f / 512].present;
    }
  }

  lemma {:induction false} ShapeBounds(mem: Memory, b: BootTables)
    requires BootShape(mem, b)
    ensures |mem| == FRAME_COUNT && b.root < 512 && b.pdpt < 512 && b.pd < 512
    ensures mem[b.pd][0].present && forall i: Index :: mem[b.pd][i].present ==> mem[b.pd][i] == LargePage(i)
  {
  }

  /** The boot tables lie in the kernel image, below the end of .bss. */
  predicate InImage(b: BootTables, bssEnd: nat) {
    b.root * 4096 < bssEnd && b.pdpt * 4096 < bssEnd && b.pd * 4096 < bssEnd
  }

  /** A usable frame above the first two megabytes lies in an entry of the extended identity map. */
  lemma {:induction false} UsableInEntries(ranges: seq<Range>, bssEnd: nat, info: nat, infoEnd: nat, f: nat)
    requires 512 <= f < FRAME_COUNT && Usable(ranges, bssEnd, info, infoEnd, f)
    ensures f / 512 in IdentityEntries(ranges)
  {
    var j :| 0 <= j < |ranges| && Inside(f, ranges[j].base, ranges[j].length);
    assert f / 512 * LARGE < ranges[j].base + ranges[j].length;
  }

  // ---- The state the virtual layer starts in ----

  ghost function BootOwner(used: seq<bool>, b: BootTables, f: nat): Owner
    requires f < |used|
  {
    if f == b.root then Table([], 0)
    else if f == b.pdpt then Table([0], b.root)
    else if f == b.pd then Table([0, 0], b.pdpt)
    else if used[f] then Reserved else Free
  }

  ghost function BootState(mem: Memory, used: seq<bool>, b: BootTables): State {
    var own := seq(|used|, f requires 0 <= f < |used| => BootOwner(used, b, f));
    State(Phys(mem, used, own), b.root, b.root, map[], 0, false)
  }

  /** What pmm_init establishes for a kernel image that holds the boot tables. */
  ghost predicate Booted(mem: Memory, used: seq<bool>, b: BootTables) {
    && BootShape(mem, b) && |used| == FRAME_COUNT
    && used[0] && used[b.root] && used[b.pdpt] && used[b.pd]
    && forall f :: 0 <= f < FRAME_COUNT && !used[f] ==> mem[b.pd][f / 512] == LargePage(f / 512)
  }

  /** The low megabyte and the kernel image, with the boot tables in it, are not usable. */
  lemma {:induction false} BootFramesReserved(ranges: seq<Range>, bssEnd: nat, info: nat, infoEnd: nat, f: nat)
    requires f < 256 || f * 4096 < bssEnd
    ensures !Usable(ranges, bssEnd, info, infoEnd, f)
  {
  }

  lemma {:induction false} BootLinked(mem: Memory, used: seq<bool>, b: BootTables)
    requires Booted(mem, used, b)
    ensures PhysInv(BootState(mem, used, b).ph)
  {
    var ph := BootState(mem, used, b).ph;
    forall t: nat, i: Index | IsTable(ph, t)
      ensures LinkDown(ph, t, i)
    {
      assert t == b.root || t == b.pdpt || t == b.pd;
      if t == b.pd && ph.mem[t][i].present { assert ph.mem[t][i] == LargePage(i); }
    }
    forall c: nat | IsTable(ph, c)
      ensures LinkUp(ph, c)
    {
      assert c == b.root || c == b.pdpt || c == b.pd;
    }
  }

  /** The flat array the heap region starts as. */
  function Zeros(): (flat: seq<Word>)
    ensures |flat| == HEAP_WORDS
  {
    seq(HEAP_WORDS, _ => ZERO)
  }

  /**
   * The state after pmm_init satisfies every invariant that the runs of the
   * virtual layer start from, and its heap region is all zeros.
   */
  lemma {:induction false} BootEstablishes(mem: Memory, used: seq<bool>, b: BootTables)
    requires Booted(mem, used, b)
    ensures var s := BootState(mem, used, b);
      Inv(s) && Coherent(s) && Isolated(s.ph) && LowMap(s.ph, b.pdpt, b.pd) && HeapInv(s)
    ensures var s := BootState(mem, used, b); Shows(s.ph, s.kernel, Zeros())
  {
    hide Linked, Resolve;
    BootLinked(mem, used, b);
    UntouchedRegion(BootState(mem, used, b));
  }

  /**
   * From boot on, after every run: the TLB agrees with the tables, private slots are
   * private, and every address in a frame that is not reserved is translated to itself
   * in every space.
   */
  lemma {:induction false} BootedRun(mem: Memory, used: seq<bool>, b: BootTables, run: seq<Action>)
    requires Booted(mem, used, b)
    ensures Inv(BootState(mem, used, b))
    ensures LegalRun(BootState(mem, used, b), run) ==>
      var s := Run(BootState(mem, used, b), run);
      && Inv(s) && Coherent(s) && Isolated(s.ph)
      && forall r: nat, pa: nat :: IsSpace(s.ph, r) && pa < MAX_PHYS && s.ph.own[pa / PAGE_SIZE] != Reserved ==>
           AddressOf(s.ph.mem, r, pa) == Some(pa)
  {
    hide Linked, Resolve, LowMap;
    BootEstablishes(mem, used, b);
    var s0 := BootState(mem, used, b);
    if LegalRun(s0, run) {
      RunKeepsInv(s0, run);
      RunKeepsCoherent(s0, run);
      RunKeepsIsolated(s0, run);
      var s := Run(s0, run);
      forall r: nat, pa: nat | IsSpace(s.ph, r) && pa < MAX_PHYS && s.ph.own[pa / PAGE_SIZE] != Reserved
        ensures AddressOf(s.ph.mem, r, pa) == Some(pa)
      {
        IdentityForever(s0, run, b.pdpt, b.pd, r, pa);
      }
    }
  }

  /**
   * From boot on, every step of every run gives what a flat array gives that starts
   * as zeros, unless it stops the kernel: for want of frames, or as an access that
   * is not a non-present data access to the region.
   */
  lemma {:induction false} BootedRegion(mem: Memory, used: seq<bool>, b: BootTables, run: seq<HeapAction>)
    requires Booted(mem, used, b)
    ensures HeapInv(BootState(mem, used, b))
    ensures var s := BootState(mem, used, b);
      HeapLegalRun(s, run) ==>
        var out := Outputs(s, run);
        && (|out| == |run| || (out != [] && out[|out| - 1] == Stopped))
        && forall k :: 0 <= k < |out| ==>
             out[k] == if StopsAt(StateAt(s, run, k), run[k]) then Stopped else FlatOutputs(Zeros(), run)[k]
  {
    hide HeapInv, Shows, Outputs, FlatOutputs, HeapLegalRun, StopsAt, StateAt;
    BootEstablishes(mem, used, b);
    if HeapLegalRun(BootState(mem, used, b), run) {
      RegionRefinesFlatArray(BootState(mem, used, b), run, Zeros());
    }
  }

  /**
   * From boot on, loads and stores from the kernel space never stop the kernel and are
   * those of a flat array of zeros, for ever, exactly if at least 4106 frames are free.
   */
  lemma {:induction false} BootedSupply(mem: Memory, used: seq<bool>, b: BootTables)
    requires Booted(mem, used, b)
    ensures Sized(BootState(mem, used, b).ph) && FlatOf(BootState(mem, used, b)) == Zeros()
    ensures Sufficient(BootState(mem, used, b)) <==> REGION_FRAMES <= CountFree(used)
  {
    hide HeapInv, Sufficient, HeapWord, HeapTablePath, Booted, CountFree;
    BootEstablishes(mem, used, b);
    var s := BootState(mem, used, b);
    InvOf(s);
    SufficientIff(s);
    BootSupply(mem, used, b);
  }

  /** The same from every space, for runs that create n spaces, with n frames more. */
  lemma {:induction false} BootedSpaces(mem: Memory, used: seq<bool>, b: BootTables, run: seq<HeapAction>)
    requires Booted(mem, used, b) && UsesOrCreates(run) && REGION_FRAMES + Creations(run) <= CountFree(used)
    ensures var s := BootState(mem, used, b); HeapLegalRun(s, run) ==> Outputs(s, run) == FlatOutputs(Zeros(), run)
  {
    hide HeapInv, Shows, HeapLegalRun, Outputs, FlatOutputs, Supply, Booted, CountFree;
    BootEstablishes(mem, used, b);
    BootSupply(mem, used, b);
    var s := BootState(mem, used, b);
    if HeapLegalRun(s, run) { EnoughFrames(s, run, Zeros()); }
  }

  /** At boot no frame serves the region yet. */
  lemma {:induction false} BootSupply(mem: Memory, used: seq<bool>, b: BootTables)
    requires Booted(mem, used, b)
    ensures Sized(BootState(mem, used, b).ph) && |Supply(BootState(mem, used, b).ph)| == CountFree(used)
  {
    hide HeapInv, HeapTablePath, Booted, CountFree;
    BootEstablishes(mem, used, b);
    var s := BootState(mem, used, b);
    SupplySplits(s);
    assert PageFrames(s.ph) == {};
    BootTablesElsewhere(mem, used, b);
  }

  lemma {:induction false} BootTablesElsewhere(mem: Memory, used: seq<bool>, b: BootTables)
    requires Sized(BootState(mem, used, b).ph)
    ensures TableFrames(BootState(mem, used, b).ph) == {}
  {
  }
}
