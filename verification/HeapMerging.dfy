// What the merging part of kfree does to the arena, from any header that got past
// its tests: a live block's, or a counterfeit one.
module HeapMerging {
  import opened Words
  import opened HeapSpec
  import opened HeapProperties
  import opened HeapArena

  /** How the forward loop ends, and the size the header then holds. */
  datatype Fate = Settles(size: nat) | Stops(size: nat) | Strays(size: nat)

  /** The address behind a block with its header in cell b. */
  function NextAddress(b: nat, size: nat): nat { HEAP_BASE + 16 * b + 16 + size }

  /**
   * The forward loop from header b. It stops the kernel at a cell without the magic.
   * It strays, and is not followed further, if it would read a header that is not a
   * cell: from a size that is not a multiple of 16, or after wrapping round 64 bits.
   */
  function Follow(arena: Arena, b: nat, size: nat): (r: Fate)
    requires |arena| == CELLS && b < CELLS
    ensures r.Settles? ==> NextAddress(b, r.size) < WORD_LIMIT
    decreases if size < HEAP_SIZE then HEAP_SIZE - size else 0
  {
    if NextAddress(b, size) >= WORD_LIMIT then Strays(size)
    else if NextAddress(b, size) >= HEAP_BASE + HEAP_SIZE then Settles(size)
    else if size % 16 != 0 then Strays(size)
    else
      var next := arena[b + 1 + size / 16];
      if next.magic != MAGIC then Stops(size)
      else if next.free == 0 then Settles(size)
      else if NextAddress(b, size + 16 + next.size) >= WORD_LIMIT then Strays(size)
      else Follow(arena, b, size + 16 + next.size)
  }

  /** One turn of the loop. */
  lemma {:induction false} FollowTurn(arena: Arena, b: nat, size: nat)
    requires |arena| == CELLS && b < CELLS && NextAddress(b, size) < HEAP_BASE + HEAP_SIZE && size % 16 == 0
    ensures var next := arena[b + 1 + size / 16];
      Follow(arena, b, size) ==
        if next.magic != MAGIC then Stops(size)
        else if next.free == 0 then Settles(size)
        else if NextAddress(b, size + 16 + next.size) >= WORD_LIMIT then Strays(size)
        else Follow(arena, b, size + 16 + next.size)
  {
  }

  /** Where the loop ends before it reads a header. */
  lemma {:induction false} FollowEnds(arena: Arena, b: nat, size: nat)
    requires |arena| == CELLS && b < CELLS
    ensures NextAddress(b, size) >= WORD_LIMIT ==> Follow(arena, b, size) == Strays(size)
    ensures HEAP_BASE + HEAP_SIZE <= NextAddress(b, size) < WORD_LIMIT ==> Follow(arena, b, size) == Settles(size)
    ensures NextAddress(b, size) < HEAP_BASE + HEAP_SIZE && size % 16 != 0 ==> Follow(arena, b, size) == Strays(size)
  {
  }

  /** Only the cells behind b are read. */
  lemma {:induction false} FollowFrame(arena: Arena, arena': Arena, b: nat, size: nat)
    requires |arena| == |arena'| == CELLS && b < CELLS && forall c :: b < c < CELLS ==> arena'[c] == arena[c]
    ensures Follow(arena', b, size) == Follow(arena, b, size)
    decreases if size < HEAP_SIZE then HEAP_SIZE - size else 0
  {
    if NextAddress(b, size) < HEAP_BASE + HEAP_SIZE && size % 16 == 0 {
      var next := arena[b + 1 + size / 16];
      if next.magic == MAGIC && next.free != 0 && NextAddress(b, size + 16 + next.size) < WORD_LIMIT {
        FollowFrame(arena, arena', b, size + 16 + next.size);
      }
    }
  }

  /**
   * All that kfree does after its tests, for the header in cell b: mark it free, merge
   * forwards, and merge into the block the walk from the front ends at, if that is free.
   */
  function Spliced(arena: Arena, b: nat, prev: Option<nat>): (r: (Arena, Fate))
    requires |arena| == CELLS && b < CELLS && (prev.Some? ==> prev.value < b)
    ensures |r.0| == CELLS
  {
    var fate := Follow(arena, b, arena[b].size);
    var merged := arena[b := Cell(arena[b].magic, 1, fate.size)];
    if fate.Settles? && prev.Some? && arena[prev.value].free != 0
    then (merged[prev.value := merged[prev.value].(size := merged[prev.value].size + 16 + fate.size)], fate)
    else (merged, fate)
  }

  // ---- The walk from the front ----

  /** Cell b belongs to block i. */
  predicate BelongsTo(bl: Layout, i: nat, b: nat) {
    i < |bl| && Start(bl, i) <= b < Start(bl, i) + Span(bl[i])
  }

  /** The block the walk from the front to cell b ends at: the one before b's, or b's own if b is inside it. */
  function PrevIndex(bl: Layout, i: nat, b: nat): (p: Option<nat>)
    requires BelongsTo(bl, i, b)
    ensures p.Some? ==> p.value < |bl|
  {
    if b > Start(bl, i) then Some(i) else if i == 0 then None else Some(i - 1)
  }

  function PrevCell(bl: Layout, i: nat, b: nat): (p: Option<nat>)
    requires BelongsTo(bl, i, b)
  {
    var k := PrevIndex(bl, i, b);
    if k.Some? then Some(Start(bl, k.value)) else None
  }

  lemma {:induction false} PrevBefore(bl: Layout, i: nat, b: nat)
    requires BelongsTo(bl, i, b)
    ensures PrevCell(bl, i, b).Some? ==> PrevCell(bl, i, b).value < b
  {
    hide Extent;
    if b == Start(bl, i) && i > 0 { StartsIncrease(bl, i - 1, i); }
  }

  /** Every cell belongs to a block. */
  lemma {:induction false} BlockOf(bl: Layout, c: nat) returns (i: nat)
    requires c < Extent(bl)
    ensures BelongsTo(bl, i, c)
    decreases |bl|
  {
    i := 0;
    if c < Span(bl[0]) {
      FirstStart(bl);
    } else {
      var k := BlockOf(bl[1..], c - Span(bl[0]));
      i := k + 1;
      assert bl[..i] == [bl[0]] + bl[1..][..k];
      ExtentConcat([bl[0]], bl[1..][..k]);
      OneBlock(bl[0], 0);
    }
  }

  lemma {:induction false} FirstStart(bl: Layout)
    ensures Start(bl, 0) == 0
  {
  }

  // ---- From a live block ----

  /** One turn of the loop on a list that tiles the arena: it goes on exactly past a free successor. */
  lemma {:induction false} FollowNext(arena: Arena, bl: Layout, i: nat)
    requires |arena| == CELLS && Encodes(arena, bl, 0) && Extent(bl) == CELLS && i < |bl|
    ensures Start(bl, i) < CELLS
    ensures Follow(arena, Start(bl, i), 16 * bl[i].cells) ==
      if i + 1 < |bl| && bl[i + 1].free
      then Follow(arena, Start(bl, i), 16 * (bl[i].cells + Span(bl[i + 1]))) else Settles(16 * bl[i].cells)
  {
    hide Encodes, Extent;
    HeaderAt(arena, bl, i);
    NextStart(bl, i);
    EndOfList(bl, i + 1);
    if i + 1 < |bl| {
      HeaderAt(arena, bl, i + 1);
      NextStart(bl, i + 1);
      EndOfList(bl, i + 2);
    }
  }

  /** On a marked block of a list that tiles the arena, the loop is the merging of the list. */
  lemma {:induction false} FollowMerges(arena: Arena, bl: Layout, i: nat, headers: set<nat>)
    requires |arena| == CELLS && Encodes(arena, bl, 0) && Extent(bl) == CELLS && HeadersCover(bl, headers)
    requires i < |bl| && bl[i].free
    ensures Start(bl, i) < CELLS
    ensures var m := MergeNext(bl, i);
      && Follow(arena, Start(bl, i), 16 * bl[i].cells) == Settles(16 * m[i].cells)
      && Encodes(arena[Start(bl, i) := Header(Block(m[i].cells, true))], m, 0) && m[i].free
      && Extent(m) == CELLS && Start(m, i) == Start(bl, i) && HeadersCover(m, headers)
    decreases |bl|
  {
    hide Encodes, Extent, HeadersCover, Follow;
    var at := Start(bl, i);
    HeaderAt(arena, bl, i);
    FollowNext(arena, bl, i);
    assert arena[at := Header(bl[i])] == arena;
    if i + 1 < |bl| && bl[i + 1].free {
      var bl' := Absorb(bl, i);
      var arena' := arena[at := Header(bl'[i])];
      AbsorbEncodes(arena, arena', bl, i);
      AbsorbCover(bl, i, headers);
      FollowMerges(arena', bl', i, headers);
      FollowFrame(arena, arena', at, 16 * bl'[i].cells);
      var m := MergeNext(bl', i);
      assert arena'[at := Header(Block(m[i].cells, true))] == arena[at := Header(Block(m[i].cells, true))];
    }
  }

  /** Marking block i, with the header written. */
  lemma {:induction false} MarkedList(arena: Arena, bl: Layout, i: nat, headers: set<nat>)
    requires |arena| == CELLS && Encodes(arena, bl, 0) && Extent(bl) == CELLS && HeadersCover(bl, headers) && i < |bl|
    ensures var bl' := bl[i := Block(bl[i].cells, true)];
      && Start(bl, i) < CELLS && Start(bl', i) == Start(bl, i)
      && Encodes(arena[Start(bl, i) := Header(bl'[i])], bl', 0) && Extent(bl') == CELLS && HeadersCover(bl', headers)
  {
    hide Encodes, Extent, HeadersCover;
    var b := Block(bl[i].cells, true);
    HeaderAt(arena, bl, i);
    MarkEncodes(arena, arena[Start(bl, i) := Header(b)], bl, i, b);
    MarkCover(bl, bl[i := b], i, b, headers);
  }

  /** The list after the forward loop from live block i. */
  function Forward(bl: Layout, i: nat): (m: Layout)
    requires i < |bl|
    ensures |m| > i && m[..i] == bl[..i]
  {
    var marked := bl[i := Block(bl[i].cells, true)];
    assert marked[..i] == bl[..i];
    MergeNext(marked, i)
  }

  lemma {:induction false} LiveForward(arena: Arena, bl: Layout, i: nat, headers: set<nat>)
    requires |arena| == CELLS && Encodes(arena, bl, 0) && Extent(bl) == CELLS && HeadersCover(bl, headers) && i < |bl|
    ensures var m, at := Forward(bl, i), Start(bl, i);
      && at < CELLS && Start(m, i) == at && m[i].free && Extent(m) == CELLS && HeadersCover(m, headers)
      && Follow(arena, at, arena[at].size) == Settles(16 * m[i].cells)
      && Encodes(arena[at := Header(Block(m[i].cells, true))], m, 0)
      && arena[at].magic == MAGIC
  {
    hide Encodes, Extent, HeadersCover, MergeNext;
    var at, marked := Start(bl, i), bl[i := Block(bl[i].cells, true)];
    HeaderAt(arena, bl, i);
    MarkedList(arena, bl, i, headers);
    var arena' := arena[at := Header(marked[i])];
    FollowMerges(arena', marked, i, headers);
    FollowFrame(arena, arena', at, arena[at].size);
    var m := Forward(bl, i);
    assert arena'[at := Header(Block(m[i].cells, true))] == arena[at := Header(Block(m[i].cells, true))];
  }

  /** From a live header kfree's merging is the freeing of the block in the list. */
  lemma {:induction false} LiveSplice(arena: Arena, bl: Layout, i: nat, headers: set<nat>)
    requires |arena| == CELLS && Encodes(arena, bl, 0) && Extent(bl) == CELLS && HeadersCover(bl, headers) && i < |bl|
    ensures BelongsTo(bl, i, Start(bl, i)) && Start(bl, i) < CELLS
    ensures PrevCell(bl, i, Start(bl, i)).Some? ==> PrevCell(bl, i, Start(bl, i)).value < Start(bl, i)
    ensures var (arena', fate) := Spliced(arena, Start(bl, i), PrevCell(bl, i, Start(bl, i)));
      fate.Settles? && Encodes(arena', Release(bl, i), 0)
      && Extent(Release(bl, i)) == CELLS && HeadersCover(Release(bl, i), headers)
  {
    hide Encodes, Extent, HeadersCover, MergeNext;
    var at, m := Start(bl, i), Forward(bl, i);
    LiveForward(arena, bl, i, headers);
    PrevBefore(bl, i, at);
    var prev := PrevCell(bl, i, at);
    var (arena', fate) := Spliced(arena, at, prev);
    var merged := arena[at := Header(Block(m[i].cells, true))];
    if i > 0 {
      assert m[..i - 1] == m[..i][..i - 1] == bl[..i - 1];
      assert m[i - 1] == m[..i][i - 1] == bl[i - 1];
      HeaderAt(arena, bl, i - 1);
      HeaderAt(merged, m, i - 1);
      if m[i - 1].free {
        AbsorbEncodes(merged, arena', m, i - 1);
        AbsorbCover(m, i - 1, headers);
      }
    }
  }

  // ---- From a counterfeit header ----

  /** A write strictly inside a block leaves all headers. */
  lemma {:induction false} InsideWrite(arena: Arena, arena': Arena, bl: Layout, i: nat, c: nat)
    requires Encodes(arena, bl, 0) && BelongsTo(bl, i, c) && c > Start(bl, i) && ChangedOnly(arena, arena', {c})
    ensures Encodes(arena', bl, 0)
  {
    hide Encodes, Extent;
    var at := Start(bl, i);
    Around(bl, i);
    OneBlock(bl[i], at);
    EncodesParts(arena, bl[..i], [bl[i]], bl[i + 1..]);
    EncodesOne(arena, bl[i], at);
    EncodesOne(arena', bl[i], at);
    ReplaceEncodes(arena, arena', bl[..i], [bl[i]], [bl[i]], bl[i + 1..]);
  }

  /** No list with these live blocks is written in the arena any more. */
  ghost predicate Broken(arena: Arena, bl: Layout) {
    forall bl' :: Good(bl') && LiveBlocks(bl') == LiveBlocks(bl) ==> !Encodes(arena, bl', 0)
  }

  /** A header that differs from its block's breaks the list. */
  lemma {:induction false} WrongHeaderBreaks(arena: Arena, bl: Layout, i: nat)
    requires Good(bl) && i < |bl| && Start(bl, i) < |arena| && arena[Start(bl, i)] != Header(bl[i])
    ensures Broken(arena, bl)
  {
    hide Encodes, Good;
    forall bl' | Good(bl') && LiveBlocks(bl') == LiveBlocks(bl)
      ensures !Encodes(arena, bl', 0)
    {
      CanonicalLayout(bl, bl');
      if Encodes(arena, bl', 0) { HeaderAt(arena, bl', i); }
    }
  }

  /**
   * From a header inside block i - a counterfeit - the merging leaves the list as it
   * is, unless it settles and block i is free: then block i's own header grows past the
   * block's end and the list is broken.
   */
  lemma {:induction false} ForgedSplice(arena: Arena, bl: Layout, i: nat, b: nat)
    requires |arena| == CELLS && Encodes(arena, bl, 0) && Good(bl)
    requires BelongsTo(bl, i, b) && b > Start(bl, i) && b < CELLS
    ensures PrevCell(bl, i, b) == Some(Start(bl, i))
    ensures var (arena', fate) := Spliced(arena, b, Some(Start(bl, i)));
      if fate.Settles? && bl[i].free
      then ChangedOnly(arena, arena', {b, Start(bl, i)}) && Broken(arena', bl)
           && arena'[Start(bl, i)] == Cell(MAGIC, 1, 16 * bl[i].cells + 16 + fate.size)
      else ChangedOnly(arena, arena', {b}) && Encodes(arena', bl, 0)
  {
    hide Encodes, Good, Follow;
    var (arena', fate) := Spliced(arena, b, Some(Start(bl, i)));
    HeaderAt(arena, bl, i);
    if fate.Settles? && bl[i].free {
      WrongHeaderBreaks(arena', bl, i);
    } else {
      InsideWrite(arena, arena', bl, i, b);
    }
  }
}
