// The kernel heap as it runs: headers rewritten in place in the arena, walked from
// block to block, proved against the block list.
module KernelHeap {
  import opened Words
  import opened HeapSpec
  import opened HeapProperties
  import opened HeapArena
  import opened HeapMerging
  import opened CellTrace

  /** The pointer handed out for the block whose header is cell c. */
  function PointerTo(c: nat): nat { HEAP_BASE + 16 * c + 16 }

  /** The cell a pointer into the region stands behind. */
  function TargetOf(ptr: nat): nat { if ptr >= HEAP_BASE + 16 then (ptr - 16 - HEAP_BASE) / 16 else 0 }

  /**
   * kfree returns, stops the kernel, or goes astray: it would go on with a header that
   * is not a cell of the arena.
   */
  datatype Outcome = Returned | Panic | Astray

  /**
   * The bytes handed out: aligned, inside the region, apart from those of every other
   * live block and from every header.
   */
  lemma {:induction false} PayloadsApart(bl: Layout, x: Live, y: Live, j: nat)
    requires Good(bl) && x in LiveBlocks(bl) && y in LiveBlocks(bl) && x != y && j < |bl|
    ensures var p, q, header := PointerTo(x.at), PointerTo(y.at), HEAP_BASE + 16 * Start(bl, j);
      && p % 16 == 0 && HEAP_BASE < p && p + 16 * x.cells <= HEAP_BASE + HEAP_SIZE
      && (p + 16 * x.cells <= q || q + 16 * y.cells <= p)
      && (p + 16 * x.cells <= header || header + 16 <= p)
  {
    hide Extent, LiveFrom;
    LiveBounds(bl, 0);
    LiveDisjoint(bl, 0, x, y);
    var i := IndexOf(bl, 0, x);
    if i < j { StartsIncrease(bl, i, j); }
    if j < i { StartsIncrease(bl, j, i); }
  }

  lemma {:induction false} FirstFitIs(bl: Layout, k: nat, i: nat, need: nat)
    requires k <= i < |bl| && FitsIn(bl[i], need) && forall j :: k <= j < i ==> !FitsIn(bl[j], need)
    ensures FirstFit(bl, k, need) == Some(i)
    decreases i - k
  {
  }

  class KernelHeap {
    const arena: array<Cell>
    var ready: bool
    ghost var layout: Layout
    /** Every cell that was ever a header and was not overwritten by the owner of its block since. */
    ghost var headers: set<nat>

    /** What the arena held at first, and every access to it since. */
    ghost const origin: Arena
    ghost var trace: seq<CellAction>

    ghost predicate Tiled()
      reads this, arena
    {
      && arena.Length == CELLS && Extent(layout) == CELLS && Encodes(arena[..], layout, 0)
      && HeadersCover(layout, headers)
    }

    /** The arena is what the accesses have made of it. */
    ghost predicate Traced()
      reads this, arena
    {
      && arena.Length == CELLS && CellsFit(arena[..])
      && |origin| == CELLS && AllInArena(trace) && Played(origin, trace) == arena[..]
    }

    ghost predicate Valid()
      reads this, arena
    {
      && Traced()
      && (ready ==> Tiled() && Good(layout) && HeadersKept(arena[..], layout, headers))
    }

    /** The state before heap_init: the arena holds anything. */
    constructor (arena: array<Cell>)
      requires arena.Length == CELLS && CellsFit(arena[..])
      ensures Valid() && this.arena == arena && !ready && origin == arena[..] && trace == []
    {
      this.arena := arena;
      ready := false;
      layout := [];
      headers := {};
      origin := arena[..];
      trace := [];
    }

    method Read(b: nat) returns (c: Cell)
      requires Traced() && b < CELLS
      modifies this`trace
      ensures Traced() && c == arena[b]
      ensures ArenaOutputs(origin, trace) == old(ArenaOutputs(origin, trace)) + [Some(c)]
    {
      hide Played, ArenaOutputs;
      c := arena[b];
      LastAction(origin, trace, ReadCell(b));
      trace := trace + [ReadCell(b)];
    }

    method Write(b: nat, c: Cell)
      requires Traced() && b < CELLS && IsCell(c)
      modifies this`trace, arena
      ensures Traced() && arena[..] == old(arena[..])[b := c]
      ensures ArenaOutputs(origin, trace) == old(ArenaOutputs(origin, trace)) + [None]
    {
      hide Played, ArenaOutputs;
      LastAction(origin, trace, WriteCell(b, c));
      arena[b] := c;
      trace := trace + [WriteCell(b, c)];
    }

    /** heap_init */
    method Init()
      requires Valid()
      modifies this, arena
      ensures Valid() && ready && layout == Initial() && headers == {0}
      ensures arena[..] == old(arena[..])[0 := Header(Block(CELLS - 1, true))]
      ensures old(Genuine(arena[..], [])) ==> Genuine(arena[..], layout)
    {
      hide Extent, Proper, Played, AllInArena;
      ghost var before := arena[..];
      Write(0, Cell(MAGIC, 1, HEAP_SIZE - 16));
      ready := true;
      layout := Initial();
      headers := {0};
      EncodesOne(arena[..], Block(CELLS - 1, true), 0);
      OneBlock(Block(CELLS - 1, true), 0);
      StartAtZero(layout);
      forall c: nat | c < CELLS && Genuine(before, [])
        ensures !Counterfeit(arena[..], layout, c)
      {
        assert !Counterfeit(before, [], c);
      }
    }

    /**
     * kmalloc: first fit. The list becomes what `Malloc` says, the pointer is the
     * one for the block it hands out, and no live payload is written.
     */
    method Kmalloc(size: nat) returns (ptr: nat)
      requires Valid()
      modifies this, arena
      ensures Valid() && ready == old(ready)
      ensures !ready ==> ptr == 0 && layout == old(layout) && arena[..] == old(arena[..])
      ensures ready ==>
        var (bl, got) := Malloc(old(layout), size);
        && layout == bl
        && ptr == (if got.Some? then PointerTo(got.value.at) else 0)
        && (got.None? ==> arena[..] == old(arena[..]))
      ensures ready ==> forall c :: 0 <= c < CELLS && InPayload(old(layout), c) ==> arena[c] == old(arena[c])
      ensures old(headers) <= headers
      ensures ready && old(Genuine(arena[..], layout)) ==> Genuine(arena[..], layout)
    {
      hide Encodes, Extent, HeadersCover, LiveFrom, Proper, Genuine, Played, AllInArena;
      if size == 0 || size > HEAP_SIZE || !ready {
        return 0;
      }
      var need := (size + 15) / 16 * 16;
      var b := 0;
      ghost var i := 0;
      StartAtZero(layout);
      while b < CELLS
        invariant arena[..] == old(arena[..]) && layout == old(layout) && headers == old(headers) && ready
        invariant Traced() && i <= |layout| && b == Start(layout, i)
        invariant forall j :: 0 <= j < i ==> !FitsIn(layout[j], Need(size))
        decreases CELLS - b
      {
        EndOfList(layout, i);
        HeaderAt(arena[..], layout, i);
        NextStart(layout, i);
        EndOfList(layout, i + 1);
        var head := Read(b);
        if head.magic != MAGIC {
          assert false;
        }
        if head.free != 0 && head.size >= need {
          FirstFitIs(layout, 0, i, Need(size));
          Occupy(b, head, need, i);
          return PointerTo(b);
        }
        var next := b + 1 + head.size / 16;
        i := i + 1;
        if next >= CELLS {
          break;
        }
        b := next;
      }
      EndOfList(layout, i);
      return 0;
    }

    /** The branch of kmalloc that found its block. */
    method Occupy(b: nat, head: Cell, need: nat, ghost i: nat)
      requires Valid() && ready && i < |layout| && b == Start(layout, i) && b < CELLS
      requires head == arena[b] == Header(layout[i])
      requires need % 16 == 0 && need >= 16 && FitsIn(layout[i], need / 16)
      modifies this, arena
      ensures Valid() && ready && layout == Take(old(layout), i, need / 16)
      ensures old(headers) <= headers
      ensures forall c :: 0 <= c < CELLS && InPayload(old(layout), c) ==> arena[c] == old(arena[c])
      ensures old(Genuine(arena[..], layout)) ==> Genuine(arena[..], layout)
    {
      hide Encodes, Extent, HeadersCover, HeadersKept, LiveFrom, Good, Genuine, Played, AllInArena, Take, InPayload;
      ghost var was, before := arena[..], layout;
      var remain := head.size - need;
      NextStart(before, i);
      EndOfList(before, i + 1);
      if remain >= 32 {
        var rest := b + 1 + need / 16;
        Write(rest, Cell(MAGIC, 1, remain - 16));
        Write(b, head.(size := need, free := 0));
      } else {
        Write(b, head.(free := 0));
      }
      TakeCase(was, arena[..], before, i, need / 16, headers);
      layout := Take(before, i, need / 16);
      headers := HeadersAfterTake(before, i, need / 16, headers);
    }

    /** heap_free_bytes: the payload bytes of the free blocks. */
    method FreeBytes() returns (total: nat)
      requires Valid()
      modifies this`trace
      ensures Valid() && total == if ready then 16 * FreeCells(layout) else 0
    {
      hide Encodes, Extent, HeadersCover, LiveFrom, Proper, Played, AllInArena;
      total := 0;
      if !ready {
        return;
      }
      var b := 0;
      ghost var i := 0;
      StartAtZero(layout);
      while b < CELLS
        invariant Traced() && i <= |layout| && b == Start(layout, i)
        invariant total + 16 * FreeCells(layout[i..]) == 16 * FreeCells(layout)
        decreases CELLS - b
      {
        EndOfList(layout, i);
        HeaderAt(arena[..], layout, i);
        NextStart(layout, i);
        EndOfList(layout, i + 1);
        var head := Read(b);
        if head.magic != MAGIC {
          assert false;
        }
        if head.free != 0 {
          total := total + head.size;
        }
        var next := b + 1 + head.size / 16;
        assert layout[i..][1..] == layout[i + 1..];
        i := i + 1;
        if next >= CELLS {
          break;
        }
        b := next;
      }
      EndOfList(layout, i);
      assert layout[|layout|..] == [];
    }

    /** The pointer leads to a live block. */
    ghost predicate Points(ptr: nat)
      reads this
    {
      ready && exists x :: x in LiveBlocks(layout) && ptr == PointerTo(x.at)
    }

    /** The pointer leads to a cell that passes for a live header and is none. */
    ghost predicate Forged(ptr: nat)
      reads this, arena
    {
      ready && exists c: nat :: ptr == PointerTo(c) && Counterfeit(arena[..], layout, c)
    }

    /** The pointer is not aligned, and what stands before it, across two cells, passes for a live header. */
    ghost predicate Straddles(ptr: nat)
      reads this, arena
    {
      && ready && arena.Length == CELLS && HEAP_BASE + 16 <= ptr < HEAP_BASE + 16 + HEAP_SIZE
      && LooksLiveAcross(arena[..], ptr - 16 - HEAP_BASE)
    }

    /** The tests on a header that is not a cell. */
    method CheckAcross(off: nat) returns (out: Outcome)
      requires Traced() && off < HEAP_SIZE && off % 16 != 0
      modifies this`trace
      ensures Traced() && out == if LooksLiveAcross(arena[..], off) then Astray else Panic
    {
      hide Played, AllInArena, Straddling;
      if off + 8 > HEAP_SIZE {
        return Panic;
      }
      var first := Read(off / 16);
      var second := Cell(0, 0, 0);
      if off / 16 + 1 < CELLS {
        second := Read(off / 16 + 1);
      }
      if Straddling(first, second, off % 16) % HALF != MAGIC {
        return Panic;
      }
      if Straddling(first, second, off % 16) / HALF % HALF != 0 {
        return Panic;
      }
      return Astray;
    }

    /**
     * The tests at the start of kfree. A pointer is let through exactly if it is NULL,
     * leads to a live block, to a counterfeit of one, or stands behind one that is not
     * a cell.
     */
    method Check(ptr: nat) returns (out: Outcome)
      requires Valid()
      modifies this`trace
      ensures Valid()
      ensures out == Returned <==> ptr == 0 || Points(ptr) || Forged(ptr)
      ensures out == Astray <==> Straddles(ptr)
      ensures out == Returned && ptr != 0 ==>
        var b := TargetOf(ptr); ready && b < CELLS && ptr == PointerTo(b) && LooksLive(arena[b])
    {
      hide Encodes, Extent, HeadersCover, LiveFrom, Proper, Played, AllInArena, LooksLiveAcross;
      if ptr == 0 {
        return Returned;
      }
      if ready { LiveHeaders(arena[..], layout); }
      if !ready || ptr < HEAP_BASE + 16 || ptr - 16 >= HEAP_BASE + HEAP_SIZE {
        return Panic;
      }
      var off := ptr - 16 - HEAP_BASE;
      if off % 16 != 0 {
        out := CheckAcross(off);
        return;
      }
      AcrossNotAligned(arena[..], off);
      var b := off / 16;
      assert ptr == PointerTo(b);
      var head := Read(b);
      if head.magic != MAGIC {
        return Panic;
      }
      if head.free != 0 {
        return Panic;
      }
      assert LiveAt(layout, b) || Counterfeit(arena[..], layout, b);
      return Returned;
    }

    /** Forward merging: what `Follow` says becomes of header b; only its size changes. */
    method MergeForward(b: nat) returns (out: Outcome)
      requires Traced() && b < CELLS && arena[b].magic == MAGIC && arena[b].free == 1
      modifies this`trace, arena
      ensures Traced()
      ensures var fate := Follow(old(arena[..]), b, old(arena[b]).size);
        && arena[..] == old(arena[..])[b := old(arena[b]).(size := fate.size)]
        && out == if fate.Settles? then Returned else if fate.Stops? then Panic else Astray
    {
      hide Played, AllInArena, CellsFit, Follow;
      ghost var was := arena[..];
      var head := Read(b);
      assert was[b := was[b].(size := head.size)] == was;
      while true
        invariant Traced() && arena[..] == was[b := head] && head == was[b].(size := head.size)
        invariant Follow(was, b, was[b].size) == Follow(was, b, head.size)
        decreases if head.size < HEAP_SIZE then HEAP_SIZE - head.size else 0
      {
        FollowEnds(was, b, head.size);
        var next := NextAddress(b, head.size);
        if next >= WORD_LIMIT {
          return Astray;
        }
        if next >= HEAP_BASE + HEAP_SIZE {
          return Returned;
        }
        if head.size % 16 != 0 {
          return Astray;
        }
        FollowTurn(was, b, head.size);
        var after := Read(b + 1 + head.size / 16);
        if after.magic != MAGIC {
          return Panic;
        }
        if after.free == 0 {
          return Returned;
        }
        if NextAddress(b, head.size + 16 + after.size) >= WORD_LIMIT {
          return Astray;
        }
        head := head.(size := head.size + 16 + after.size);
        Write(b, head);
      }
    }

    /** The walk from the front to cell b, which belongs to block i of the list. */
    method Before(b: nat, ghost bl: Layout, ghost i: nat) returns (prev: Option<nat>)
      requires Traced() && Encodes(arena[..], bl, 0) && Extent(bl) == CELLS && BelongsTo(bl, i, b)
      modifies this`trace
      ensures Traced() && prev == PrevCell(bl, i, b)
    {
      hide Encodes, Extent, Played, AllInArena;
      prev := None;
      var cur := 0;
      ghost var k := 0;
      FirstStart(bl);
      NextStart(bl, i);
      while cur < b
        invariant Traced() && k <= i + 1 && cur == Start(bl, k) && (k == i + 1 ==> b > Start(bl, i))
        invariant prev == if k == 0 then None else Some(Start(bl, k - 1))
        decreases CELLS - cur
      {
        HeaderAt(arena[..], bl, k);
        NextStart(bl, k);
        EndOfList(bl, k + 1);
        prev := Some(cur);
        var head := Read(cur);
        cur := cur + 1 + head.size / 16;
        k := k + 1;
      }
      if k < i { StartsIncrease(bl, k, i); }
    }

    /** Backward merging: the block the walk ends at, if free, grows by header b and its size. */
    method MergeBack(b: nat, ghost bl: Layout, ghost i: nat)
      requires Traced() && Encodes(arena[..], bl, 0) && Extent(bl) == CELLS && BelongsTo(bl, i, b) && b < CELLS
      requires NextAddress(b, arena[b].size) < WORD_LIMIT
      modifies this`trace, arena
      ensures Traced()
      ensures var prev, was := PrevCell(bl, i, b), old(arena[..]);
        arena[..] ==
          if prev.Some? && prev.value < CELLS && was[prev.value].free != 0
          then was[prev.value := was[prev.value].(size := was[prev.value].size + 16 + was[b].size)]
          else was
    {
      hide Encodes, Extent, Played, AllInArena;
      var prev := Before(b, bl, i);
      if prev.Some? {
        HeaderAt(arena[..], bl, PrevIndex(bl, i, b).value);
        NextStart(bl, PrevIndex(bl, i, b).value);
        EndOfList(bl, PrevIndex(bl, i, b).value + 1);
        var head := Read(prev.value);
        if head.free != 0 {
          var mine := Read(b);
          Write(prev.value, head.(size := head.size + 16 + mine.size));
        }
      }
    }

    /** The part of kfree after its tests, for any header that passed them. */
    method Splice(b: nat, ghost i: nat) returns (out: Outcome)
      requires Valid() && ready && b < CELLS && BelongsTo(layout, i, b) && LooksLive(arena[b])
      modifies this`trace, arena
      ensures Traced()
      ensures PrevCell(layout, i, b).Some? ==> PrevCell(layout, i, b).value < b
      ensures var (arena', fate) := Spliced(old(arena[..]), b, PrevCell(layout, i, b));
        && arena[..] == arena'
        && out == if fate.Settles? then Returned else if fate.Stops? then Panic else Astray
    {
      hide Encodes, Extent, HeadersCover, Proper, Played, AllInArena, Follow;
      ghost var was := arena[..];
      PrevBefore(layout, i, b);
      var head := Read(b);
      Write(b, head.(free := 1));
      FollowFrame(was, arena[..], b, head.size);
      out := MergeForward(b);
      if out != Returned {
        return;
      }
      ghost var bl := ListAfterForward(was, arena[..], layout, i, b, headers);
      MergeBack(b, bl, i);
    }

    /**
     * kfree, for any pointer. It returns exactly for NULL, for live pointers, and for
     * forged ones from which merging settles. From a live pointer it frees that block
     * only. A forged pointer changes nothing but its own cell, unless it lies in a free
     * block and merging settles: then the list is broken. All other pointers stop the
     * kernel with nothing changed, except the straddling ones, which go astray.
     */
    method Kfree(ptr: nat) returns (out: Outcome)
      requires Valid()
      modifies this, arena
      ensures ready == old(ready) && headers == old(headers) && Traced()
      ensures out == Returned <==> ptr == 0 || old(Points(ptr)) || (old(Forged(ptr)) && old(FateOf(ptr)).Settles?)
      ensures out == Astray <==> old(Straddles(ptr)) || (old(Forged(ptr)) && old(FateOf(ptr)).Strays?)
      ensures !old(Points(ptr)) ==> layout == old(layout)
      ensures !old(Points(ptr)) && !old(Forged(ptr)) ==> arena[..] == old(arena[..])
      ensures ready ==> forall x :: x in LiveBlocks(old(layout)) && ptr == PointerTo(x.at) ==>
        layout == Free(old(layout), x)
      ensures ready ==> forall c :: 0 <= c < CELLS && InPayload(old(layout), c) && ptr != PointerTo(c) ==>
        arena[c] == old(arena[c])
      ensures ready && old(Genuine(arena[..], layout)) ==> Genuine(arena[..], layout)
      ensures old(Forged(ptr)) ==>
        && TargetOf(ptr) < CELLS && arena[TargetOf(ptr)] == Cell(MAGIC, 1, old(FateOf(ptr)).size)
        && (if old(FateOf(ptr)).Settles? && InFree(layout, TargetOf(ptr)) then Broken(arena[..], layout)
            else ChangedOnly(old(arena[..]), arena[..], {TargetOf(ptr)}))
      ensures !(old(Forged(ptr)) && old(FateOf(ptr)).Settles? && InFree(layout, TargetOf(ptr))) ==> Valid()
    {
      hide Encodes, Extent, HeadersCover, LiveFrom, Proper, Genuine, Played, AllInArena, Follow, Spliced, Broken;
      hide InPayload, InFree, HeadersKept, Good;
      out := Check(ptr);
      if out != Returned || ptr == 0 {
        return;
      }
      var b := TargetOf(ptr);
      ghost var was, before := arena[..], layout;
      ghost var i := BlockOf(layout, b);
      out := Splice(b, i);
      ghost var x := Live(b, before[i].cells);
      if b == Start(before, i) {
        LiveCase(was, arena[..], before, i, headers);
        LiveAtOne(before);
        layout := Free(before, x);
      } else {
        ForgedCase(was, arena[..], before, i, b, headers);
      }
    }

    /** How forward merging would end from the cell the pointer stands behind. */
    ghost function FateOf(ptr: nat): Fate
      reads arena
    {
      if arena.Length == CELLS && TargetOf(ptr) < CELLS
      then Follow(arena[..], TargetOf(ptr), arena[TargetOf(ptr)].size)
      else Stops(0)
    }

    /**
     * A write by the owner of a live block to a cell of its payload. It makes that cell
     * a counterfeit header exactly if the value looks like a live one.
     */
    method OwnerWrite(c: nat, value: Cell)
      requires Valid() && ready && c < CELLS && InPayload(layout, c) && IsCell(value)
      modifies this`headers, this`trace, arena
      ensures Valid() && headers == old(headers) - {c} && arena[..] == old(arena[..])[c := value]
      ensures Forged(PointerTo(c)) <==> LooksLive(value)
      ensures old(Genuine(arena[..], layout)) ==> (Genuine(arena[..], layout) <==> !LooksLive(value))
    {
      hide Encodes, Extent, LiveFrom, Proper, InPayload, Played, AllInArena;
      Write(c, value);
      headers := headers - {c};
      PayloadWrite(old(arena[..]), arena[..], layout, c);
      PayloadNotHeader(layout, c);
      PayloadNotLive(layout, c);
      assert LooksLive(value) <==> Counterfeit(arena[..], layout, c);
      if old(Genuine(arena[..], layout)) && !LooksLive(value) {
        forall d: nat | d < CELLS
          ensures !Counterfeit(arena[..], layout, d)
        {
          assert !Counterfeit(old(arena[..]), layout, d);
        }
      }
    }
  }

  lemma {:induction false} StartAtZero(bl: Layout)
    requires Good(bl)
    ensures |bl| > 0 && Start(bl, 0) == 0
  {
  }

  /** No cell of a free block is live payload. */
  lemma {:induction false} FreeNotPayload(bl: Layout, i: nat)
    requires i < |bl| && bl[i].free
    ensures forall c :: Start(bl, i) <= c < Start(bl, i) + Span(bl[i]) ==> !InPayload(bl, c)
  {
    hide LiveFrom, Extent;
    var at := Start(bl, i);
    Around(bl, i);
    OneBlock(bl[i], at);
    ThreeParts(bl[..i], [bl[i]], bl[i + 1..]);
    LiveBounds(bl[..i], 0);
    LiveBounds(bl[i + 1..], at + Span(bl[i]));
  }

  /** A header of a live block stays one while the live blocks grow. */
  lemma {:induction false} LiveStays(bl: Layout, bl': Layout)
    requires LiveBlocks(bl) <= LiveBlocks(bl')
    ensures forall c :: LiveAt(bl, c) ==> LiveAt(bl', c)
  {
  }

  /** The header of block j is not payload of any live block. */
  lemma {:induction false} HeaderNotPayload(bl: Layout, j: nat)
    requires j < |bl|
    ensures !InPayload(bl, Start(bl, j))
  {
    hide LiveFrom, Extent;
    var at := Start(bl, j);
    Around(bl, j);
    OneBlock(bl[j], at);
    ThreeParts(bl[..j], [bl[j]], bl[j + 1..]);
    LiveBounds(bl[..j], 0);
    LiveBounds(bl[j + 1..], at + Span(bl[j]));
  }

  lemma {:induction false} PayloadNotHeader(bl: Layout, c: nat)
    requires InPayload(bl, c)
    ensures forall j :: 0 <= j < |bl| ==> Start(bl, j) != c
  {
    forall j | 0 <= j < |bl|
      ensures Start(bl, j) != c
    {
      HeaderNotPayload(bl, j);
    }
  }

  /** A write to a payload cell leaves all headers. */
  lemma {:induction false} PayloadWrite(arena: Arena, arena': Arena, bl: Layout, c: nat)
    requires Encodes(arena, bl, 0) && InPayload(bl, c) && ChangedOnly(arena, arena', {c})
    ensures Encodes(arena', bl, 0)
  {
    hide Encodes, Extent, LiveFrom;
    var x :| x in LiveBlocks(bl) && x.at < c <= x.at + x.cells;
    InsideWrite(arena, arena', bl, IndexOf(bl, 0, x), c);
  }

  lemma {:induction false} LiveHeaders(arena: Arena, bl: Layout)
    requires Encodes(arena, bl, 0)
    ensures forall x :: x in LiveBlocks(bl) ==> x.at < |arena| && arena[x.at] == Header(Block(x.cells, false))
  {
    hide Encodes, Extent;
    forall x | x in LiveBlocks(bl)
      ensures x.at < |arena| && arena[x.at] == Header(Block(x.cells, false))
    {
      HeaderAt(arena, bl, IndexOf(bl, 0, x));
    }
  }

  /** A cell is the header of at most one live block. */
  lemma {:induction false} LiveAtOne(bl: Layout)
    ensures forall x, y :: x in LiveBlocks(bl) && y in LiveBlocks(bl) && x.at == y.at ==> x == y
  {
    forall x, y | x in LiveBlocks(bl) && y in LiveBlocks(bl) && x.at == y.at
      ensures x == y
    {
      if x != y { LiveDisjoint(bl, 0, x, y); }
    }
  }

  /**
   * A pointer that was once handed out, and whose header no owner has overwritten,
   * is not forged; if its block is no longer live, kfree stops the kernel.
   */
  lemma {:induction false} OnceReturned(h: KernelHeap, c: nat)
    requires h.Valid() && h.ready && c in h.headers
    ensures c < CELLS && !h.Forged(PointerTo(c))
    ensures !LiveAt(h.layout, c) ==>
      h.arena[c].magic == MAGIC && h.arena[c].free == 1
      && !exists x :: x in LiveBlocks(h.layout) && PointerTo(c) == PointerTo(x.at)
  {
  }

  lemma {:induction false} PayloadNotLive(bl: Layout, c: nat)
    requires InPayload(bl, c)
    ensures !LiveAt(bl, c)
  {
    hide LiveFrom, Extent;
    PayloadNotHeader(bl, c);
    if LiveAt(bl, c) {
      var x :| x in LiveBlocks(bl) && x.at == c;
      var i := IndexOf(bl, 0, x);
    }
  }

  /** A cell inside a free block is the header of no live one. */
  lemma {:induction false} FreeNotLive(bl: Layout, c: nat)
    requires InFree(bl, c)
    ensures !LiveAt(bl, c)
  {
    hide LiveFrom, Extent;
    if LiveAt(bl, c) {
      var i :| 0 <= i < |bl| && bl[i].free && Start(bl, i) < c < Start(bl, i) + Span(bl[i]);
      var x :| x in LiveBlocks(bl) && x.at == c;
      var j := IndexOf(bl, 0, x);
      if i < j { StartsIncrease(bl, i, j); }
      if j < i { StartsIncrease(bl, j, i); }
    }
  }

  /**
   * Where kfree can be deceived: a cell that looks live without being the header of
   * a live block lies in the payload of a live block or inside a free one, and every
   * such cell deceives it. It was never a header, or its owner has overwritten it.
   */
  lemma {:induction false} CounterfeitIff(h: KernelHeap, c: nat)
    requires h.Valid() && h.ready && c < CELLS
    ensures h.Forged(PointerTo(c)) <==> LooksLive(h.arena[c]) && (InPayload(h.layout, c) || InFree(h.layout, c))
    ensures h.Forged(PointerTo(c)) ==> c !in h.headers
  {
    hide Encodes, Extent, HeadersCover, LiveFrom, Proper, InPayload, InFree;
    var bl := h.layout;
    assert h.Forged(PointerTo(c)) <==> Counterfeit(h.arena[..], bl, c);
    if InPayload(bl, c) { PayloadNotLive(bl, c); }
    if InFree(bl, c) { FreeNotLive(bl, c); }
    if Counterfeit(h.arena[..], bl, c) { CounterfeitWhere(h.arena[..], bl, c); }
  }

  lemma {:induction false} CounterfeitWhere(arena: Arena, bl: Layout, c: nat)
    requires Encodes(arena, bl, 0) && c < Extent(bl) && Counterfeit(arena, bl, c)
    ensures InPayload(bl, c) || InFree(bl, c)
  {
    hide Encodes, Extent, LiveFrom;
    var i := BlockOf(bl, c);
    if !bl[i].free {
      var x := Live(Start(bl, i), bl[i].cells);
      LiveBlockAt(bl, i);
      assert c == x.at ==> LiveAt(bl, c);
    } else if c == Start(bl, i) {
      HeaderAt(arena, bl, i);
    }
  }

  lemma {:induction false} LiveBlockAt(bl: Layout, i: nat)
    requires i < |bl| && !bl[i].free
    ensures Live(Start(bl, i), bl[i].cells) in LiveBlocks(bl)
  {
    hide LiveFrom, Extent;
    Around(bl, i);
    OneBlock(bl[i], Start(bl, i));
    ThreeParts(bl[..i], [bl[i]], bl[i + 1..]);
  }

  /** Freeing only turns one header's flag to free, so every header stays accounted for. */
  lemma {:induction false} FreeKept(arena: Arena, arena': Arena, bl: Layout, bl': Layout, headers: set<nat>, x: Live)
    requires HeadersKept(arena, bl, headers) && LiveBlocks(bl') == LiveBlocks(bl) - {x}
    requires |arena| == |arena'| && x.at < |arena|
    requires forall c :: 0 <= c < |arena| && c != x.at ==>
      arena'[c].magic == arena[c].magic && arena'[c].free == arena[c].free
    requires arena'[x.at].magic == MAGIC && arena'[x.at].free == 1
    ensures HeadersKept(arena', bl', headers)
  {
  }

  /** Taking a block makes its own header look live, and no other cell. */
  lemma {:induction false} TakeGenuine(arena: Arena, arena': Arena, bl: Layout, bl': Layout, b: nat)
    requires LiveBlocks(bl) <= LiveBlocks(bl') && LiveAt(bl', b) && |arena| == |arena'|
    requires forall c :: 0 <= c < |arena| && c != b && LooksLive(arena'[c]) ==> LooksLive(arena[c])
    ensures Genuine(arena, bl) ==> Genuine(arena', bl')
  {
    if Genuine(arena, bl) {
      LiveStays(bl, bl');
      forall c: nat | c < |arena'|
        ensures !Counterfeit(arena', bl', c)
      {
        assert !Counterfeit(arena, bl, c);
      }
    }
  }

  lemma {:induction false} FreeGenuine(arena: Arena, arena': Arena, bl: Layout, bl': Layout, x: Live)
    requires LiveBlocks(bl') == LiveBlocks(bl) - {x}
    requires |arena| == |arena'| && x.at < |arena|
    requires forall c :: 0 <= c < |arena| && c != x.at ==>
      arena'[c].magic == arena[c].magic && arena'[c].free == arena[c].free
    requires arena'[x.at].magic == MAGIC && arena'[x.at].free == 1
    ensures Genuine(arena, bl) ==> Genuine(arena', bl')
  {
    if Genuine(arena, bl) {
      forall c: nat | c < |arena'|
        ensures !Counterfeit(arena', bl', c)
      {
        assert !Counterfeit(arena, bl, c);
      }
    }
  }

  // ---- What kmalloc's writes do ----

  function HeadersAfterTake(bl: Layout, i: nat, need: nat, headers: set<nat>): set<nat>
    requires i < |bl|
  {
    if bl[i].cells - need >= 2 then headers + {RestAt(bl, i, need)} else headers
  }

  lemma {:induction false} TakeCase(was: Arena, now: Arena, bl: Layout, i: nat, need: nat, headers: set<nat>)
    requires |was| == CELLS && Encodes(was, bl, 0) && Good(bl)
    requires HeadersCover(bl, headers) && HeadersKept(was, bl, headers)
    requires i < |bl| && 1 <= need && FitsIn(bl[i], need) && Start(bl, i) + Span(bl[i]) <= CELLS
    requires var split, at := bl[i].cells - need >= 2, Start(bl, i);
      now ==
        if split
        then was[RestAt(bl, i, need) := Header(Block(bl[i].cells - need - 1, true))][at := Header(Block(need, false))]
        else was[at := Header(Block(bl[i].cells, false))]
    ensures var bl', headers' := Take(bl, i, need), HeadersAfterTake(bl, i, need, headers);
      && Encodes(now, bl', 0) && Good(bl') && Extent(bl') == CELLS
      && HeadersCover(bl', headers') && HeadersKept(now, bl', headers')
      && (Genuine(was, bl) ==> Genuine(now, bl'))
    ensures forall c :: 0 <= c < CELLS && InPayload(bl, c) ==> now[c] == was[c]
  {
    hide Encodes, Extent, HeadersCover, LiveFrom, Proper, Genuine, Take;
    var at, bl' := Start(bl, i), Take(bl, i, need);
    TakeFacts(bl, i, need);
    TakeCover(bl, i, need, headers);
    FreeNotPayload(bl, i);
    TakeEncodes(was, now, bl, i, need);
    LiveStays(bl, bl');
    var x := Live(at, Carve(bl[i].cells, need)[0].cells);
    assert x in LiveBlocks(bl') && LiveAt(bl', at);
    TakeGenuine(was, now, bl, bl', at);
  }

  // ---- What kfree's merging does, case by case ----

  lemma {:induction false} AcrossNotAligned(arena: Arena, off: nat)
    requires |arena| == CELLS && off % 16 == 0
    ensures !LooksLiveAcross(arena, off)
  {
  }

  /** The block list the walk from the front finds after the forward loop. */
  lemma {:induction false} ListAfterForward(was: Arena, now: Arena, bl: Layout, i: nat, b: nat, headers: set<nat>)
    returns (m: Layout)
    requires |was| == CELLS && Encodes(was, bl, 0) && Extent(bl) == CELLS && HeadersCover(bl, headers)
    requires BelongsTo(bl, i, b) && b < CELLS && was[b].magic == MAGIC && Follow(was, b, was[b].size).Settles?
    requires now == was[b := Cell(MAGIC, 1, Follow(was, b, was[b].size).size)]
    ensures Encodes(now, m, 0) && Extent(m) == CELLS && BelongsTo(m, i, b) && PrevCell(m, i, b) == PrevCell(bl, i, b)
  {
    hide Encodes, Extent, HeadersCover, MergeNext, Follow;
    if b == Start(bl, i) {
      LiveForward(was, bl, i, headers);
      m := Forward(bl, i);
      if i > 0 { assert m[..i - 1] == m[..i][..i - 1] == bl[..i - 1]; }
    } else {
      InsideWrite(was, now, bl, i, b);
      m := bl;
    }
  }

  /** A cell belongs to one block only. */
  lemma {:induction false} OneBlockOnly(bl: Layout, i: nat, j: nat, c: nat)
    requires BelongsTo(bl, i, c) && BelongsTo(bl, j, c)
    ensures i == j
  {
    hide Extent;
    if i < j { StartsIncrease(bl, i, j); }
    if j < i { StartsIncrease(bl, j, i); }
  }

  /** A live header is where its block starts. */
  lemma {:induction false} LiveIsStart(bl: Layout, i: nat, c: nat)
    requires BelongsTo(bl, i, c) && LiveAt(bl, c)
    ensures c == Start(bl, i) && !bl[i].free
  {
    hide Extent, LiveFrom;
    var x :| x in LiveBlocks(bl) && x.at == c;
    OneBlockOnly(bl, i, IndexOf(bl, 0, x), c);
  }

  /** From a live header: the block is freed, and nothing else changes. */
  lemma {:induction false} LiveCase(was: Arena, now: Arena, bl: Layout, i: nat, headers: set<nat>)
    requires |was| == CELLS && Encodes(was, bl, 0) && Good(bl)
    requires HeadersCover(bl, headers) && HeadersKept(was, bl, headers)
    requires i < |bl| && Start(bl, i) < CELLS && LooksLive(was[Start(bl, i)]) && BelongsTo(bl, i, Start(bl, i))
    requires PrevCell(bl, i, Start(bl, i)).Some? ==> PrevCell(bl, i, Start(bl, i)).value < Start(bl, i)
    requires now == Spliced(was, Start(bl, i), PrevCell(bl, i, Start(bl, i))).0
    ensures Spliced(was, Start(bl, i), PrevCell(bl, i, Start(bl, i))).1.Settles?
    ensures var x := Live(Start(bl, i), bl[i].cells);
      && x in LiveBlocks(bl)
      && Encodes(now, Free(bl, x), 0) && Good(Free(bl, x)) && Extent(Free(bl, x)) == CELLS
      && HeadersCover(Free(bl, x), headers)
      && HeadersKept(now, Free(bl, x), headers)
      && (Genuine(was, bl) ==> Genuine(now, Free(bl, x)))
    ensures forall c :: 0 <= c < CELLS && InPayload(bl, c) ==> now[c] == was[c]
  {
    hide Encodes, Extent, HeadersCover, LiveFrom, Proper, MergeNext, InPayload, Release, Follow, Genuine;
    var at := Start(bl, i);
    var x := Live(at, bl[i].cells);
    HeaderAt(was, bl, i);
    LiveBlockAt(bl, i);
    OneBlockOnly(bl, i, IndexOf(bl, 0, x), at);
    LiveSplice(was, bl, i, headers);
    FreeFacts(bl, x);
    HeaderNotPayload(bl, i);
    if i > 0 { HeaderNotPayload(bl, i - 1); }
    FreeKept(was, now, bl, Free(bl, x), headers, x);
    FreeGenuine(was, now, bl, Free(bl, x), x);
  }

  /** From a counterfeit header: its own cell changes, and the list is kept or broken. */
  lemma {:induction false} ForgedCase(was: Arena, now: Arena, bl: Layout, i: nat, b: nat, headers: set<nat>)
    requires |was| == CELLS && Encodes(was, bl, 0) && Good(bl) && HeadersKept(was, bl, headers)
    requires BelongsTo(bl, i, b) && b > Start(bl, i) && b < CELLS && LooksLive(was[b])
    requires PrevCell(bl, i, b).Some? ==> PrevCell(bl, i, b).value < b
    requires now == Spliced(was, b, PrevCell(bl, i, b)).0
    ensures var fate := Follow(was, b, was[b].size);
      && Spliced(was, b, PrevCell(bl, i, b)).1 == fate
      && now[b] == Cell(MAGIC, 1, fate.size)
      && (if fate.Settles? && InFree(bl, b) then Broken(now, bl)
          else ChangedOnly(was, now, {b}) && Encodes(now, bl, 0))
    ensures Counterfeit(was, bl, b) && !Genuine(was, bl) && HeadersKept(now, bl, headers)
    ensures forall c :: 0 <= c < CELLS && InPayload(bl, c) && c != b ==> now[c] == was[c]
  {
    hide Encodes, Extent, LiveFrom, Proper, InPayload, Follow, Good;
    ForgedSplice(was, bl, i, b);
    if LiveAt(bl, b) { LiveIsStart(bl, i, b); }
    HeaderNotPayload(bl, i);
    FreeIsInFree(bl, i, b);
    HeaderAt(was, bl, i);
  }

  lemma {:induction false} FreeIsInFree(bl: Layout, i: nat, b: nat)
    requires BelongsTo(bl, i, b) && b > Start(bl, i)
    ensures InFree(bl, b) <==> bl[i].free
  {
    hide Extent;
    if InFree(bl, b) {
      var j :| 0 <= j < |bl| && bl[j].free && Start(bl, j) < b < Start(bl, j) + Span(bl[j]);
      OneBlockOnly(bl, i, j, b);
    }
  }
}
