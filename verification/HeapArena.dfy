// How a block list is written into the arena: a header cell in front of every
// block.
module HeapArena {
  import opened HeapSpec
  import opened HeapProperties

  const MAGIC: nat := 0x4845_4150

  /** A 16-byte cell, read as a block header. */
  datatype Cell = Cell(magic: nat, free: nat, size: nat)

  type Arena = seq<Cell>

  function Header(b: Block): Cell { Cell(MAGIC, if b.free then 1 else 0, 16 * b.cells) }

  /** From cell `at` on the arena holds the headers of the blocks, each where it belongs. */
  predicate Encodes(arena: Arena, bl: Layout, at: nat)
    decreases |bl|
  {
    bl == [] || (at < |arena| && arena[at] == Header(bl[0]) && Encodes(arena, bl[1..], at + Span(bl[0])))
  }

  lemma {:induction false} EncodesConcat(arena: Arena, a: Layout, b: Layout, at: nat)
    ensures Encodes(arena, a + b, at) <==> Encodes(arena, a, at) && Encodes(arena, b, at + Extent(a))
    decreases |a|
  {
    if a == [] {
      assert a + b == b;
    } else {
      assert (a + b)[1..] == a[1..] + b;
      EncodesConcat(arena, a[1..], b, at + Span(a[0]));
    }
  }

  lemma {:induction false} EncodesParts(arena: Arena, a: Layout, m: Layout, b: Layout)
    ensures Encodes(arena, a + m + b, 0) <==>
      Encodes(arena, a, 0) && Encodes(arena, m, Extent(a)) && Encodes(arena, b, Extent(a) + Extent(m))
  {
    hide Encodes, Extent;
    EncodesConcat(arena, a + m, b, 0);
    EncodesConcat(arena, a, m, 0);
    ExtentConcat(a, m);
  }

  /** Only the cells the blocks cover matter. */
  lemma {:induction false} EncodesFrame(arena: Arena, arena': Arena, bl: Layout, at: nat)
    requires |arena| == |arena'| && forall c :: at <= c < at + Extent(bl) && c < |arena| ==> arena'[c] == arena[c]
    requires Encodes(arena, bl, at)
    ensures Encodes(arena', bl, at)
    decreases |bl|
  {
    if bl != [] {
      EncodesFrame(arena, arena', bl[1..], at + Span(bl[0]));
    }
  }

  lemma {:induction false} EncodesOne(arena: Arena, b: Block, at: nat)
    ensures Encodes(arena, [b], at) <==> at < |arena| && arena[at] == Header(b)
  {
  }

  lemma {:induction false} EncodesTwo(arena: Arena, b: Block, c: Block, at: nat)
    requires at + Span(b) < |arena| && arena[at] == Header(b) && arena[at + Span(b)] == Header(c)
    ensures Encodes(arena, [b, c], at)
  {
  }

  /** Block i's header is where block i starts. */
  lemma {:induction false} HeaderAt(arena: Arena, bl: Layout, i: nat)
    requires Encodes(arena, bl, 0) && i < |bl|
    ensures Start(bl, i) < |arena| && arena[Start(bl, i)] == Header(bl[i])
  {
    hide Encodes;
    Around(bl, i);
    EncodesParts(arena, bl[..i], [bl[i]], bl[i + 1..]);
    EncodesOne(arena, bl[i], Start(bl, i));
  }

  /** The block after i starts behind its payload. */
  lemma {:induction false} NextStart(bl: Layout, i: nat)
    requires i < |bl|
    ensures Start(bl, i + 1) == Start(bl, i) + Span(bl[i])
  {
    assert bl[..i + 1] == bl[..i] + [bl[i]];
    ExtentConcat(bl[..i], [bl[i]]);
    OneBlock(bl[i], 0);
  }

  /** Walking off the last block is walking off the arena. */
  lemma {:induction false} EndOfList(bl: Layout, i: nat)
    requires Extent(bl) == CELLS && i <= |bl|
    ensures Start(bl, i) <= CELLS && (Start(bl, i) == CELLS <==> i == |bl|)
  {
    assert bl[..|bl|] == bl;
    if i < |bl| { StartsIncrease(bl, i, |bl|); }
  }

  /** Replacing a stretch of blocks by one of the same extent, whose headers are written. */
  lemma {:induction false} ReplaceEncodes(arena: Arena, arena': Arena, a: Layout, m: Layout, m': Layout, b: Layout)
    requires |arena| == |arena'| && Encodes(arena, a + m + b, 0) && Extent(m) == Extent(m')
    requires forall c :: 0 <= c < |arena| && !(Extent(a) <= c < Extent(a) + Extent(m)) ==> arena'[c] == arena[c]
    requires Encodes(arena', m', Extent(a))
    ensures Encodes(arena', a + m' + b, 0)
  {
    hide Encodes, Extent;
    EncodesParts(arena, a, m, b);
    EncodesParts(arena', a, m', b);
    EncodesFrame(arena, arena', a, 0);
    EncodesFrame(arena, arena', b, Extent(a) + Extent(m));
  }

  /** The arena differs from the old one only at the listed cells. */
  ghost predicate ChangedOnly(arena: Arena, arena': Arena, at: set<nat>) {
    |arena| == |arena'| && forall c :: 0 <= c < |arena| && c !in at ==> arena'[c] == arena[c]
  }

  /** The header cell kmalloc writes for the rest of a split block. */
  function RestAt(bl: Layout, i: nat, need: nat): nat
    requires i < |bl|
  {
    Start(bl, i) + 1 + need
  }

  lemma {:induction false} TakeEncodes(arena: Arena, arena': Arena, bl: Layout, i: nat, need: nat)
    requires Encodes(arena, bl, 0) && i < |bl| && 1 <= need && FitsIn(bl[i], need)
    requires Start(bl, i) + Span(bl[i]) <= |arena|
    requires var split := bl[i].cells - need >= 2; var at := Start(bl, i);
      && ChangedOnly(arena, arena', if split then {at, at + 1 + need} else {at})
      && arena'[at] == Header(Block(if split then need else bl[i].cells, false))
      && (split ==> arena'[at + 1 + need] == Header(Block(bl[i].cells - need - 1, true)))
    ensures Encodes(arena', Take(bl, i, need), 0)
  {
    hide Encodes, Extent;
    var at, m' := Start(bl, i), Carve(bl[i].cells, need);
    Around(bl, i);
    CarveFacts(bl[i].cells, need, at);
    OneBlock(bl[i], at);
    if bl[i].cells - need >= 2 {
      EncodesTwo(arena', Block(need, false), Block(bl[i].cells - need - 1, true), at);
    } else {
      EncodesOne(arena', Block(bl[i].cells, false), at);
    }
    ReplaceEncodes(arena, arena', bl[..i], [bl[i]], m', bl[i + 1..]);
  }

  lemma {:induction false} MarkEncodes(arena: Arena, arena': Arena, bl: Layout, i: nat, b: Block)
    requires Encodes(arena, bl, 0) && i < |bl| && b.cells == bl[i].cells
    requires ChangedOnly(arena, arena', {Start(bl, i)}) && Start(bl, i) < |arena| && arena'[Start(bl, i)] == Header(b)
    ensures Encodes(arena', bl[i := b], 0) && Extent(bl[i := b]) == Extent(bl) && Start(bl[i := b], i) == Start(bl, i)
  {
    hide Encodes, Extent;
    var at := Start(bl, i);
    Around(bl, i);
    Around(bl[i := b], i);
    assert bl[i := b][..i] == bl[..i] && bl[i := b][i + 1..] == bl[i + 1..];
    OneBlock(bl[i], at);
    OneBlock(b, at);
    EncodesOne(arena', b, at);
    ReplaceEncodes(arena, arena', bl[..i], [bl[i]], [b], bl[i + 1..]);
    ThreeParts(bl[..i], [bl[i]], bl[i + 1..]);
    ThreeParts(bl[..i], [b], bl[i + 1..]);
  }

  lemma {:induction false} AbsorbEncodes(arena: Arena, arena': Arena, bl: Layout, i: nat)
    requires Encodes(arena, bl, 0) && i + 1 < |bl| && Start(bl, i) < |arena|
    requires ChangedOnly(arena, arena', {Start(bl, i)})
    requires arena'[Start(bl, i)] == Header(Block(bl[i].cells + Span(bl[i + 1]), bl[i].free))
    ensures Encodes(arena', Absorb(bl, i), 0) && Extent(Absorb(bl, i)) == Extent(bl)
    ensures Start(Absorb(bl, i), i) == Start(bl, i)
  {
    hide Encodes, Extent;
    var at, a, m, b := Start(bl, i), bl[..i], [bl[i], bl[i + 1]], bl[i + 2..];
    var merged := Block(bl[i].cells + Span(bl[i + 1]), bl[i].free);
    assert bl == a + m + b;
    assert Absorb(bl, i)[..i] == a;
    TwoBlocks(bl[i], bl[i + 1], at);
    OneBlock(merged, at);
    EncodesOne(arena', merged, at);
    ReplaceEncodes(arena, arena', a, m, [merged], b);
    ThreeParts(a, m, b);
    ThreeParts(a, [merged], b);
  }

  // ---- Cells that were ever headers ----

  predicate LiveAt(bl: Layout, c: nat) { exists x :: x in LiveBlocks(bl) && x.at == c }

  /** c is a payload cell of a live block. */
  predicate InPayload(bl: Layout, c: nat) { exists x :: x in LiveBlocks(bl) && x.at < c <= x.at + x.cells }

  /** c lies in a free block, behind its header. */
  predicate InFree(bl: Layout, c: nat) {
    exists i :: 0 <= i < |bl| && bl[i].free && Start(bl, i) < c < Start(bl, i) + Span(bl[i])
  }

  /** The cell passes the tests kfree makes: the magic, and not free. */
  predicate LooksLive(c: Cell) { c.magic == MAGIC && c.free == 0 }

  /** The cell passes kfree's tests but is not the header of a live block. */
  predicate Counterfeit(arena: Arena, bl: Layout, c: nat) {
    c < |arena| && LooksLive(arena[c]) && !LiveAt(bl, c)
  }

  /** Only live headers look live. */
  ghost predicate Genuine(arena: Arena, bl: Layout) {
    forall c: nat :: c < |arena| ==> !Counterfeit(arena, bl, c)
  }

  /** Every cell that was a header is a live block's header, or still has the magic and free == 1. */
  ghost predicate HeadersKept(arena: Arena, bl: Layout, headers: set<nat>) {
    forall c :: c in headers ==>
      c < |arena| && arena[c].magic == MAGIC && (arena[c].free == 1 || (arena[c].free == 0 && LiveAt(bl, c)))
  }

  /** All the headers there are now belong to them. */
  ghost predicate HeadersCover(bl: Layout, headers: set<nat>) {
    forall i :: 0 <= i < |bl| ==> Start(bl, i) in headers
  }

  /** Behind a replaced stretch of the same extent every block starts where it did. */
  lemma {:induction false} StartsBehind(a: Layout, m: Layout, m': Layout, b: Layout, k: nat)
    requires Extent(m) == Extent(m') && k <= |b|
    ensures Start(a + m + b, |a| + |m| + k) == Start(a + m' + b, |a| + |m'| + k)
  {
    hide Extent;
    assert (a + m + b)[..|a| + |m| + k] == a + m + b[..k];
    assert (a + m' + b)[..|a| + |m'| + k] == a + m' + b[..k];
    ThreeParts(a, m, b[..k]);
    ThreeParts(a, m', b[..k]);
  }

  lemma {:induction false} StartsBefore(a: Layout, r: Layout, r': Layout, j: nat)
    requires j <= |a|
    ensures Start(a + r, j) == Start(a + r', j) == Extent(a[..j])
  {
    assert (a + r)[..j] == a[..j] && (a + r')[..j] == a[..j];
  }

  lemma {:induction false} TakeCover(bl: Layout, i: nat, need: nat, headers: set<nat>)
    requires i < |bl| && 1 <= need && FitsIn(bl[i], need) && HeadersCover(bl, headers)
    ensures HeadersCover(Take(bl, i, need), if bl[i].cells - need >= 2 then headers + {RestAt(bl, i, need)} else headers)
  {
    hide Extent;
    var a, m', b := bl[..i], Carve(bl[i].cells, need), bl[i + 1..];
    var bl' := Take(bl, i, need);
    Around(bl, i);
    CarveFacts(bl[i].cells, need, 0);
    OneBlock(bl[i], 0);
    forall j | 0 <= j < |bl'|
      ensures Start(bl', j) == Start(bl, if j <= i then j else if j < i + |m'| then i else j - |m'| + 1)
                               + if i < j < i + |m'| then 1 + need else 0
    {
      if j <= i {
        assert bl' == a + (m' + b) && bl == a + ([bl[i]] + b);
        StartsBefore(a, m' + b, [bl[i]] + b, j);
      } else if j >= i + |m'| {
        StartsBehind(a, [bl[i]], m', b, j - i - |m'|);
      } else {
        assert bl'[..j] == a + [m'[0]];
        ExtentConcat(a, [m'[0]]);
        OneBlock(m'[0], 0);
      }
    }
  }

  lemma {:induction false} AbsorbCover(bl: Layout, i: nat, headers: set<nat>)
    requires i + 1 < |bl| && HeadersCover(bl, headers)
    ensures HeadersCover(Absorb(bl, i), headers)
  {
    hide Extent;
    var a, m, b := bl[..i], [bl[i], bl[i + 1]], bl[i + 2..];
    var m' := [Block(bl[i].cells + Span(bl[i + 1]), bl[i].free)];
    assert bl == a + m + b;
    TwoBlocks(bl[i], bl[i + 1], 0);
    OneBlock(m'[0], 0);
    forall j | 0 <= j < |Absorb(bl, i)|
      ensures Start(Absorb(bl, i), j) == Start(bl, if j <= i then j else j + 1)
    {
      if j <= i {
        assert Absorb(bl, i)[..j] == bl[..j];
      } else {
        StartsBehind(a, m, m', b, j - i - 1);
      }
    }
  }

  lemma {:induction false} MarkCover(bl: Layout, bl': Layout, i: nat, b: Block, headers: set<nat>)
    requires i < |bl| && b.cells == bl[i].cells && bl' == bl[i := b] && HeadersCover(bl, headers)
    ensures HeadersCover(bl', headers)
  {
    hide Extent;
    Around(bl, i);
    Around(bl', i);
    assert bl'[..i] == bl[..i] && bl'[i + 1..] == bl[i + 1..];
    OneBlock(bl[i], 0);
    OneBlock(b, 0);
    forall j | 0 <= j < |bl'|
      ensures Start(bl', j) == Start(bl, j)
    {
      if j <= i {
        assert bl'[..j] == bl[..j];
      } else {
        StartsBehind(bl[..i], [bl[i]], [b], bl[i + 1..], j - i - 1);
      }
    }
  }
}
