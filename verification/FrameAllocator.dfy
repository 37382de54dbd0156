// The physical frame allocator: a bitmap with a free counter and a search hint,
// proved against the scan from zero of FrameSpec.
module FrameAllocation {
  import opened Words
  import opened FrameSpec
  import opened MemoryMap

  const BITMAP_BYTES: nat := 32768
  const LOW_RESERVED: nat := 0x10_0000

  // ---- Bits of a byte ----

  function Bit(k: nat): bv8
    requires k < 8
  {
    (1 as bv8) << k
  }

  predicate Test(b: bv8, k: nat)
    requires k < 8
  {
    (b >> k) & 1 == 1
  }

  lemma {:induction false} SetBit(b: bv8, k: nat, j: nat)
    requires k < 8 && j < 8
    ensures Test(b | Bit(k), j) <==> j == k || Test(b, j)
  {
  }

  lemma {:induction false} ClearBit(b: bv8, k: nat, j: nat)
    requires k < 8 && j < 8
    ensures Test(b & !Bit(k), j) <==> j != k && Test(b, j)
  {
  }

  lemma {:induction false} AllSet(j: nat)
    requires j < 8
    ensures Test(0xFF, j)
  {
  }

  // ---- Which frames a range covers ----

  /** Frame f lies wholly inside [base, base + length). */
  predicate Inside(f: nat, base: nat, length: nat) {
    base <= f * PAGE_SIZE && f * PAGE_SIZE + PAGE_SIZE <= base + length
  }

  /** Frame f meets [base, base + length). */
  predicate Meets(f: nat, base: nat, length: nat) {
    length > 0 && base < f * PAGE_SIZE + PAGE_SIZE && f * PAGE_SIZE < base + length
  }

  /**
   * The frames the memory map offers, less the low megabyte, the kernel image
   * (which ends at bssEnd) and the boot information block.
   */
  ghost predicate Usable(ranges: seq<Range>, bssEnd: nat, info: nat, infoEnd: nat, f: nat) {
    && (exists i :: 0 <= i < |ranges| && Inside(f, ranges[i].base, ranges[i].length))
    && !Meets(f, 0, LOW_RESERVED)
    && !(bssEnd > LOW_RESERVED && Meets(f, LOW_RESERVED, bssEnd - LOW_RESERVED))
    && !(infoEnd > info && Meets(f, info, infoEnd - info))
  }

  /** pmm_align_up_4k on 64-bit numbers. */
  function AlignUp(x: nat): (r: nat)
    ensures r < WORD_LIMIT && r % 4096 == 0
  {
    (x + 4095) % WORD_LIMIT / 4096 * 4096
  }

  /** The end of a range, cut off at 1GB; base + length may overflow 64 bits. */
  function ClampedEnd(base: nat, length: nat): (end: nat)
    requires base < WORD_LIMIT && length < WORD_LIMIT
    ensures end == if base + length > MAX_PHYS then MAX_PHYS else base + length
  {
    var end := (base + length) % WORD_LIMIT;
    if end < base || end > MAX_PHYS then MAX_PHYS else end
  }

  /** Frame f starts in [first, end). */
  predicate Within(f: nat, first: nat, end: nat) { first <= f * PAGE_SIZE < end }

  /** One more page brings in one more frame. */
  lemma {:induction false} WithinNext(first: nat, pa: nat)
    requires first <= pa && pa % PAGE_SIZE == 0
    ensures forall f: nat :: Within(f, first, pa + PAGE_SIZE) <==> Within(f, first, pa) || f == pa / PAGE_SIZE
  {
  }

  /** The loop bounds of pmm_mark_free cover the frames wholly inside the range. */
  lemma {:induction false} FreeSpan(base: nat, length: nat, f: nat)
    requires base < MAX_PHYS && 0 < length < WORD_LIMIT && f < FRAME_COUNT
    ensures Within(f, AlignUp(base), ClampedEnd(base, length) / PAGE_SIZE * PAGE_SIZE) <==> Inside(f, base, length)
  {
  }

  /** Where pmm_mark_used stops. */
  function UsedEnd(base: nat, length: nat): nat
    requires base < MAX_PHYS && 0 < length < WORD_LIMIT
  {
    var last := AlignUp(ClampedEnd(base, length));
    if last > MAX_PHYS then MAX_PHYS else last
  }

  lemma {:induction false} UsedBounds(base: nat, length: nat)
    requires base < MAX_PHYS && 0 < length < WORD_LIMIT
    ensures base < UsedEnd(base, length) <= MAX_PHYS && UsedEnd(base, length) % PAGE_SIZE == 0
  {
  }

  /** The loop bounds of pmm_mark_used cover the frames that meet the range. */
  lemma {:induction false} UsedSpan(base: nat, length: nat, f: nat)
    requires base < MAX_PHYS && 0 < length < WORD_LIMIT && f < FRAME_COUNT
    ensures Within(f, base / PAGE_SIZE * PAGE_SIZE, UsedEnd(base, length)) <==> Meets(f, base, length)
  {
  }

  /** Rounding the end of the kernel image up to a frame adds no frame. */
  lemma {:induction false} KernelSpan(bssEnd: nat, f: nat)
    requires bssEnd + 4095 < WORD_LIMIT
    ensures var end := AlignUp(bssEnd);
      (end > LOW_RESERVED && Meets(f, LOW_RESERVED, end - LOW_RESERVED)) <==>
      (bssEnd > LOW_RESERVED && Meets(f, LOW_RESERVED, bssEnd - LOW_RESERVED))
  {
  }

  lemma {:induction false} FirstFrameMeets()
    ensures Meets(0, 0, LOW_RESERVED)
  {
  }

  /** Below the hint everything is in use, so the hinted search is the search from zero. */
  lemma {:induction false} HintedSearch(used: seq<bool>, hint: nat)
    requires hint <= |used| && forall j :: 0 <= j < hint ==> used[j]
    ensures LowestFreeFrom(used, hint) == LowestFree(used)
    decreases hint
  {
  }

  class FrameAllocator {
    const bitmap: array<bv8>
    var freeFrames: nat
    var hint: nat

    /** The state before pmm_init. */
    constructor ()
      ensures Sized() && fresh(bitmap)
    {
      bitmap := new bv8[BITMAP_BYTES](_ => 0);
      freeFrames := 0;
      hint := 0;
    }

    predicate Sized() { bitmap.Length == BITMAP_BYTES }

    predicate Used(f: nat)
      requires Sized() && f < FRAME_COUNT
      reads bitmap
    {
      Test(bitmap[f / 8], f % 8)
    }

    ghost function Bits(): (used: seq<bool>)
      requires Sized()
      reads bitmap
      ensures |used| == FRAME_COUNT && forall f :: 0 <= f < FRAME_COUNT ==> used[f] == Used(f)
    {
      seq(FRAME_COUNT, f requires 0 <= f < FRAME_COUNT reads bitmap => Used(f))
    }

    /**
     * The counter counts the clear bits, everything below the hint is in use, and so
     * is frame 0, whose address stands for "none".
     */
    ghost predicate Valid()
      reads this, bitmap
    {
      && Sized() && hint <= FRAME_COUNT && freeFrames == CountFree(Bits()) && Used(0)
      && forall f :: 0 <= f < hint ==> Used(f)
    }

    method SetUsed(f: nat)
      requires Sized() && f < FRAME_COUNT
      modifies bitmap
      ensures Bits() == old(Bits())[f := true]
    {
      hide Test, Bit;
      ghost var was := bitmap[f / 8];
      bitmap[f / 8] := bitmap[f / 8] | Bit(f % 8);
      forall g | 0 <= g < FRAME_COUNT
        ensures Used(g) == old(Bits())[f := true][g]
      {
        assert old(Bits())[g] == old(Used(g));
        SetBit(was, f % 8, g % 8);
      }
    }

    method SetFree(f: nat)
      requires Sized() && f < FRAME_COUNT
      modifies bitmap
      ensures Bits() == old(Bits())[f := false]
    {
      hide Test, Bit;
      ghost var was := bitmap[f / 8];
      bitmap[f / 8] := bitmap[f / 8] & !Bit(f % 8);
      forall g | 0 <= g < FRAME_COUNT
        ensures Used(g) == old(Bits())[f := false][g]
      {
        assert old(Bits())[g] == old(Used(g));
        ClearBit(was, f % 8, g % 8);
      }
    }

    /**
     * pmm_alloc_frame: takes the lowest free frame, as a scan from zero would, and
     * returns its address; 0 exactly if none is free.
     */
    method Alloc() returns (pa: nat)
      requires Valid()
      modifies this, bitmap
      ensures Valid()
      ensures match LowestFree(old(Bits()))
        case None => pa == 0 && Bits() == old(Bits()) && freeFrames == old(freeFrames)
        case Some(f) => pa == f * PAGE_SIZE != 0 && Bits() == old(Bits())[f := true] && freeFrames == old(freeFrames) - 1
    {
      if freeFrames == 0 {
        CountFreeZero(Bits());
        return 0;
      }
      hide Test;
      var start: nat := hint;
      if start >= FRAME_COUNT {
        start := 0;
      }
      for pass := 0 to 2
        invariant start < FRAME_COUNT
        invariant Bits() == old(Bits()) && freeFrames == old(freeFrames) && hint == old(hint)
        invariant forall f :: 0 <= f < start ==> Used(f)
        invariant pass > 0 ==> forall f :: 0 <= f < FRAME_COUNT ==> Used(f)
      {
        for frame := start to FRAME_COUNT
          invariant Bits() == old(Bits()) && freeFrames == old(freeFrames) && hint == old(hint)
          invariant forall f :: 0 <= f < frame ==> Used(f)
        {
          if !Used(frame) {
            CountFreeUpdate(Bits(), frame, true);
            assert LowestFree(old(Bits())) == Some(frame);
            SetUsed(frame);
            freeFrames := freeFrames - 1;
            hint := frame + 1;
            return frame * PAGE_SIZE;
          }
        }
        start := 0;
      }
      return 0;
    }

    /** pmm_free_frame ignores addresses that are not those of a frame in use. */
    method Free(pa: nat)
      requires Valid()
      modifies this, bitmap
      ensures Valid()
      ensures
        var proper := pa != 0 && pa % PAGE_SIZE == 0 && pa < MAX_PHYS;
        Bits() == if proper then old(Bits())[pa / PAGE_SIZE := false] else old(Bits())
    {
      if pa == 0 || pa % PAGE_SIZE != 0 || pa >= MAX_PHYS {
        return;
      }
      var frame := pa / PAGE_SIZE;
      if !Used(frame) {
        assert old(Bits())[frame := false] == old(Bits());
        return;
      }
      CountFreeUpdate(Bits(), frame, false);
      SetFree(frame);
      freeFrames := freeFrames + 1;
      if frame < hint {
        hint := frame;
      }
    }

    /** pmm_mark_free: clears the bits of the frames wholly inside the range. */
    method MarkFree(base: nat, length: nat)
      requires Sized() && base < WORD_LIMIT && length < WORD_LIMIT
      modifies bitmap
      ensures forall f :: 0 <= f < FRAME_COUNT ==> Used(f) == (old(Bits())[f] && !Inside(f, base, length))
    {
      if length == 0 || base >= MAX_PHYS {
        return;
      }
      hide Test, Inside, AlignUp;
      var first := AlignUp(base);
      var last := ClampedEnd(base, length) / PAGE_SIZE * PAGE_SIZE;
      var pa := first;
      while pa < last
        invariant first <= pa && pa % PAGE_SIZE == 0
        invariant forall f :: 0 <= f < FRAME_COUNT ==> Used(f) == (old(Bits())[f] && !Within(f, first, pa))
        invariant pa <= last || pa == first
      {
        WithinNext(first, pa);
        SetFree(pa / PAGE_SIZE);
        pa := pa + PAGE_SIZE;
      }
      forall f | 0 <= f < FRAME_COUNT
        ensures Used(f) == (old(Bits())[f] && !Inside(f, base, length))
      {
        FreeSpan(base, length, f);
      }
    }

    /** pmm_mark_used: sets the bits of the frames that meet the range. */
    method MarkUsed(base: nat, length: nat)
      requires Sized() && base < WORD_LIMIT && length < WORD_LIMIT
      modifies bitmap
      ensures forall f :: 0 <= f < FRAME_COUNT ==> Used(f) == (old(Bits())[f] || Meets(f, base, length))
    {
      if length == 0 || base >= MAX_PHYS {
        return;
      }
      hide Test, Meets, UsedEnd;
      var first := base / PAGE_SIZE * PAGE_SIZE;
      var last := UsedEnd(base, length);
      UsedBounds(base, length);
      var pa := first;
      while pa < last
        invariant first <= pa <= last && pa % PAGE_SIZE == 0
        invariant forall f :: 0 <= f < FRAME_COUNT ==> Used(f) == (old(Bits())[f] || Within(f, first, pa))
      {
        WithinNext(first, pa);
        SetUsed(pa / PAGE_SIZE);
        pa := pa + PAGE_SIZE;
      }
      forall f | 0 <= f < FRAME_COUNT
        ensures Used(f) == (old(Bits())[f] || Meets(f, base, length))
      {
        UsedSpan(base, length, f);
      }
    }

    /** The first loop of pmm_bitmap_init. */
    method FillUsed()
      requires Sized()
      modifies bitmap
      ensures forall f :: 0 <= f < FRAME_COUNT ==> Used(f)
    {
      for i := 0 to BITMAP_BYTES
        invariant forall j :: 0 <= j < i ==> bitmap[j] == 0xFF
      {
        bitmap[i] := 0xFF;
      }
      forall f | 0 <= f < FRAME_COUNT
        ensures Used(f)
      {
        AllSet(f % 8);
      }
    }

    /** The last loop of pmm_bitmap_init: the number of clear bits. */
    method CountClear() returns (count: nat)
      requires Sized()
      ensures count == CountFree(Bits())
    {
      hide Test;
      count := 0;
      for frame := 0 to FRAME_COUNT
        invariant count == CountFree(Bits()[..frame])
      {
        assert Bits()[..frame + 1][..frame] == Bits()[..frame];
        if !Used(frame) {
          count := count + 1;
        }
      }
      assert Bits()[..FRAME_COUNT] == Bits();
    }

    /**
     * pmm_bitmap_init: a frame is free exactly if the memory map offers it and it
     * meets nothing that is reserved.
     */
    method BitmapInit(ranges: seq<Range>, bssEnd: nat, info: nat, infoEnd: nat)
      requires Sized() && forall i :: 0 <= i < |ranges| ==> IsRange(ranges[i])
      requires bssEnd + 4095 < WORD_LIMIT && info < WORD_LIMIT && infoEnd < WORD_LIMIT
      modifies this, bitmap
      ensures Valid()
      ensures forall f :: 0 <= f < FRAME_COUNT ==> (!Used(f) <==> Usable(ranges, bssEnd, info, infoEnd, f))
    {
      hide Test, Inside, Meets, AlignUp, CountFree;
      FillUsed();
      for i := 0 to |ranges|
        invariant forall f :: 0 <= f < FRAME_COUNT ==>
          (!Used(f) <==> exists j :: 0 <= j < i && Inside(f, ranges[j].base, ranges[j].length))
      {
        MarkFree(ranges[i].base, ranges[i].length);
      }
      var kernelEnd := AlignUp(bssEnd);
      MarkUsed(0, LOW_RESERVED);
      if kernelEnd > LOW_RESERVED {
        MarkUsed(LOW_RESERVED, kernelEnd - LOW_RESERVED);
      }
      if infoEnd > info {
        MarkUsed(info, infoEnd - info);
      }
      forall f | 0 <= f < FRAME_COUNT
        ensures !Used(f) <==> Usable(ranges, bssEnd, info, infoEnd, f)
      {
        KernelSpan(bssEnd, f);
      }
      FirstFrameMeets();
      freeFrames := CountClear();
      hint := 0;
    }
  }
}
