// The kernel heap as a list of blocks that tile the arena: first-fit allocation
// with splitting, and freeing with coalescing on both sides.
module HeapSpec {
  import opened Words

  /** The arena in 16-byte cells: 16MB. */
  const CELLS: nat := 0x10_0000

  /** A block: one header cell and `cells` payload cells. */
  datatype Block = Block(cells: nat, free: bool)

  type Layout = seq<Block>

  /** A live block by the cell of its header and its payload size. */
  datatype Live = Live(at: nat, cells: nat)

  function Span(b: Block): nat { 1 + b.cells }

  function Extent(bl: Layout): nat {
    if bl == [] then 0 else Span(bl[0]) + Extent(bl[1..])
  }

  /** Every payload has at least one cell and no two neighbours are both free. */
  predicate Proper(bl: Layout) {
    && (forall i :: 0 <= i < |bl| ==> bl[i].cells >= 1)
    && (forall i :: 0 <= i < |bl| - 1 ==> !(bl[i].free && bl[i + 1].free))
  }

  /** The heap's invariant: the blocks tile the arena. */
  predicate Good(bl: Layout) { Proper(bl) && Extent(bl) == CELLS }

  /** heap_init: one free block. */
  function Initial(): (bl: Layout)
    ensures Good(bl)
  {
    var bl := [Block(CELLS - 1, true)];
    assert bl[1..] == [];
    bl
  }

  /** The live blocks of a list that starts at cell `at`. */
  function LiveFrom(bl: Layout, at: nat): set<Live> {
    if bl == [] then {}
    else (if bl[0].free then {} else {Live(at, bl[0].cells)}) + LiveFrom(bl[1..], at + Span(bl[0]))
  }

  function LiveBlocks(bl: Layout): set<Live> { LiveFrom(bl, 0) }

  /** The cell of block i's header. */
  function Start(bl: Layout, i: nat): nat
    requires i <= |bl|
  {
    Extent(bl[..i])
  }

  lemma {:induction false} ExtentConcat(a: Layout, b: Layout)
    ensures Extent(a + b) == Extent(a) + Extent(b)
  {
    if a == [] {
      assert a + b == b;
    } else {
      assert (a + b)[1..] == a[1..] + b;
      ExtentConcat(a[1..], b);
    }
  }

  lemma {:induction false} LiveConcat(a: Layout, b: Layout, at: nat)
    ensures LiveFrom(a + b, at) == LiveFrom(a, at) + LiveFrom(b, at + Extent(a))
  {
    if a == [] {
      assert a + b == b;
    } else {
      assert (a + b)[1..] == a[1..] + b;
      LiveConcat(a[1..], b, at + Span(a[0]));
    }
  }

  /** Live blocks lie within the stretch the list covers. */
  lemma {:induction false} LiveBounds(bl: Layout, at: nat)
    ensures forall x :: x in LiveFrom(bl, at) ==> at <= x.at && x.at + 1 + x.cells <= at + Extent(bl)
  {
    if bl != [] {
      LiveBounds(bl[1..], at + Span(bl[0]));
    }
  }

  /** Distinct live blocks do not overlap, headers included. */
  lemma {:induction false} LiveDisjoint(bl: Layout, at: nat, x: Live, y: Live)
    requires x in LiveFrom(bl, at) && y in LiveFrom(bl, at) && x != y
    ensures x.at + 1 + x.cells <= y.at || y.at + 1 + y.cells <= x.at
  {
    if bl != [] {
      LiveBounds(bl[1..], at + Span(bl[0]));
      if x in LiveFrom(bl[1..], at + Span(bl[0])) && y in LiveFrom(bl[1..], at + Span(bl[0])) {
        LiveDisjoint(bl[1..], at + Span(bl[0]), x, y);
      }
    }
  }

  // ---- The layout is a function of the live blocks ----

  lemma {:induction false} ProperTail(bl: Layout)
    requires Proper(bl) && bl != []
    ensures Proper(bl[1..])
  {
  }

  /** After a leading free block the next block, if there is room for one, is live and starts right behind it. */
  lemma {:induction false} NextIsLive(bl: Layout, at: nat)
    requires Proper(bl) && bl != [] && bl[0].free && Extent(bl) > Span(bl[0])
    ensures |bl| > 1 && Live(at + Span(bl[0]), bl[1].cells) in LiveFrom(bl, at)
  {
  }

  /** The leading blocks agree if the live blocks do. */
  lemma {:induction false} SameHead(a: Layout, b: Layout, at: nat)
    requires Proper(a) && Proper(b) && a != [] && b != []
    requires Extent(a) == Extent(b) && LiveFrom(a, at) == LiveFrom(b, at)
    ensures a[0] == b[0]
  {
    LiveBounds(a[1..], at + Span(a[0]));
    LiveBounds(b[1..], at + Span(b[0]));
    assert !a[0].free ==> Live(at, a[0].cells) in LiveFrom(b, at);
    assert !b[0].free ==> Live(at, b[0].cells) in LiveFrom(a, at);
    if a[0].free && b[0].free {
      if a[0].cells < b[0].cells {
        NextIsLive(a, at);
      } else if b[0].cells < a[0].cells {
        NextIsLive(b, at);
      }
    }
  }

  /** Two proper lists over the same stretch with the same live blocks are equal. */
  lemma {:induction false} LayoutUnique(a: Layout, b: Layout, at: nat)
    requires Proper(a) && Proper(b) && Extent(a) == Extent(b) && LiveFrom(a, at) == LiveFrom(b, at)
    ensures a == b
    decreases |a|
  {
    if a != [] && b != [] {
      SameHead(a, b, at);
      ProperTail(a);
      ProperTail(b);
      var next := at + Span(a[0]);
      LiveBounds(a[1..], next);
      LiveBounds(b[1..], next);
      assert LiveFrom(a[1..], next) == LiveFrom(a, at) - {Live(at, a[0].cells)};
      assert LiveFrom(b[1..], next) == LiveFrom(b, at) - {Live(at, b[0].cells)};
      LayoutUnique(a[1..], b[1..], next);
      assert a == [a[0]] + a[1..] && b == [b[0]] + b[1..];
    }
  }

  /** A good layout is determined by its live blocks alone. */
  lemma {:induction false} CanonicalLayout(a: Layout, b: Layout)
    requires Good(a) && Good(b) && LiveBlocks(a) == LiveBlocks(b)
    ensures a == b
  {
    LayoutUnique(a, b, 0);
  }

  // ---- kmalloc ----

  /** The block is free and holds `need` cells. */
  predicate FitsIn(b: Block, need: nat) { b.free && b.cells >= need }

  /** The first block at or after i that fits. */
  function FirstFit(bl: Layout, i: nat, need: nat): (r: Option<nat>)
    requires i <= |bl|
    ensures r.Some? ==> i <= r.value < |bl| && FitsIn(bl[r.value], need)
    ensures r.Some? ==> forall j :: i <= j < r.value ==> !FitsIn(bl[j], need)
    ensures r.None? ==> forall j :: i <= j < |bl| ==> !FitsIn(bl[j], need)
    decreases |bl| - i
  {
    if i == |bl| then None else if FitsIn(bl[i], need) then Some(i) else FirstFit(bl, i + 1, need)
  }

  /** A block of `cells` taken for `need`: split if the rest can hold a header and a payload cell. */
  function Carve(cells: nat, need: nat): (r: Layout)
    requires 1 <= need <= cells
    ensures r != []
  {
    if cells - need >= 2 then [Block(need, false), Block(cells - need - 1, true)] else [Block(cells, false)]
  }

  function Take(bl: Layout, i: nat, need: nat): Layout
    requires i < |bl| && 1 <= need && FitsIn(bl[i], need)
  {
    bl[..i] + Carve(bl[i].cells, need) + bl[i + 1..]
  }

  lemma {:induction false} Around(bl: Layout, i: nat)
    requires i < |bl|
    ensures bl == bl[..i] + [bl[i]] + bl[i + 1..]
  {
  }

  lemma {:induction false} OneBlock(b: Block, at: nat)
    ensures Extent([b]) == Span(b) && LiveFrom([b], at) == if b.free then {} else {Live(at, b.cells)}
  {
  }

  lemma {:induction false} TwoBlocks(b: Block, c: Block, at: nat)
    ensures Extent([b, c]) == Span(b) + Span(c)
    ensures LiveFrom([b, c], at) == LiveFrom([b], at) + LiveFrom([c], at + Span(b))
  {
    hide LiveFrom, Extent;
    assert [b, c] == [b] + [c];
    ExtentConcat([b], [c]);
    LiveConcat([b], [c], at);
    OneBlock(b, at);
    OneBlock(c, at + Span(b));
  }

  lemma {:induction false} CarveFacts(cells: nat, need: nat, at: nat)
    requires 1 <= need <= cells
    ensures Extent(Carve(cells, need)) == 1 + cells
    ensures LiveFrom(Carve(cells, need), at) == {Live(at, Carve(cells, need)[0].cells)}
  {
    hide LiveFrom, Extent;
    if cells - need >= 2 {
      var b, c := Block(need, false), Block(cells - need - 1, true);
      TwoBlocks(b, c, at);
      OneBlock(b, at);
      OneBlock(c, at + Span(b));
    } else {
      OneBlock(Block(cells, false), at);
    }
  }

  lemma {:induction false} ThreeParts(a: Layout, m: Layout, b: Layout)
    ensures Extent(a + m + b) == Extent(a) + Extent(m) + Extent(b)
    ensures LiveFrom(a + m + b, 0) ==
      LiveFrom(a, 0) + LiveFrom(m, Extent(a)) + LiveFrom(b, Extent(a) + Extent(m))
  {
    hide LiveFrom, Extent;
    ExtentConcat(a, m);
    ExtentConcat(a + m, b);
    LiveConcat(a, m, 0);
    LiveConcat(a + m, b, 0);
  }

  lemma {:induction false} TakeProper(bl: Layout, i: nat, need: nat)
    requires Proper(bl) && i < |bl| && 1 <= need && FitsIn(bl[i], need)
    ensures Proper(Take(bl, i, need))
  {
  }

  /** Taking block i adds one live block, at that block's place, and leaves the others. */
  lemma {:induction false} TakeFacts(bl: Layout, i: nat, need: nat)
    requires Good(bl) && i < |bl| && 1 <= need && FitsIn(bl[i], need)
    ensures Good(Take(bl, i, need))
    ensures LiveBlocks(Take(bl, i, need)) == LiveBlocks(bl) + {Live(Start(bl, i), Carve(bl[i].cells, need)[0].cells)}
    ensures Live(Start(bl, i), Carve(bl[i].cells, need)[0].cells) !in LiveBlocks(bl)
  {
    hide Carve, Proper, LiveFrom, Extent;
    TakeProper(bl, i, need);
    Around(bl, i);
    var at := Start(bl, i);
    CarveFacts(bl[i].cells, need, at);
    OneBlock(bl[i], at);
    ThreeParts(bl[..i], [bl[i]], bl[i + 1..]);
    ThreeParts(bl[..i], Carve(bl[i].cells, need), bl[i + 1..]);
    LiveBounds(bl[..i], 0);
    LiveBounds(bl[i + 1..], at + Span(bl[i]));
  }

  // ---- kfree ----

  /** Forward merging at block i: absorb free successors. */
  function MergeNext(bl: Layout, i: nat): (r: Layout)
    requires i < |bl|
    ensures |r| > i && r[..i] == bl[..i]
    decreases |bl|
  {
    if i + 1 < |bl| && bl[i + 1].free then MergeNext(Absorb(bl, i), i) else bl
  }

  /** Block i takes over its successor, header and all. */
  function Absorb(bl: Layout, i: nat): (r: Layout)
    requires i + 1 < |bl|
    ensures |r| == |bl| - 1
  {
    bl[..i] + [Block(bl[i].cells + Span(bl[i + 1]), bl[i].free)] + bl[i + 2..]
  }

  /** kfree of live block i: mark it free, merge forwards, then into a free predecessor. */
  function Release(bl: Layout, i: nat): Layout
    requires i < |bl|
  {
    var forward := MergeNext(bl[i := Block(bl[i].cells, true)], i);
    if i > 0 && forward[i - 1].free then Absorb(forward, i - 1) else forward
  }

  lemma {:induction false} AbsorbFacts(bl: Layout, i: nat)
    requires i + 1 < |bl| && bl[i].free && bl[i + 1].free
    ensures Extent(Absorb(bl, i)) == Extent(bl) && LiveBlocks(Absorb(bl, i)) == LiveBlocks(bl)
  {
    hide LiveFrom, Extent;
    var a, m, b := bl[..i], [bl[i], bl[i + 1]], bl[i + 2..];
    var m' := [Block(bl[i].cells + Span(bl[i + 1]), bl[i].free)];
    assert bl == a + m + b;
    var at := Extent(a);
    OneBlock(bl[i], at);
    OneBlock(bl[i + 1], at + Span(bl[i]));
    OneBlock(m'[0], at);
    TwoBlocks(bl[i], bl[i + 1], at);
    ThreeParts(a, m, b);
    ThreeParts(a, m', b);
  }

  lemma {:induction false} MergeNextFacts(bl: Layout, i: nat)
    requires i < |bl| && bl[i].free
    ensures Extent(MergeNext(bl, i)) == Extent(bl) && LiveBlocks(MergeNext(bl, i)) == LiveBlocks(bl)
    ensures MergeNext(bl, i)[i].free
    decreases |bl|
  {
    if i + 1 < |bl| && bl[i + 1].free {
      AbsorbFacts(bl, i);
      MergeNextFacts(Absorb(bl, i), i);
    }
  }

  /** In a good layout at most one successor is free, so the loop merges once. */
  lemma {:induction false} MergeOnce(bl: Layout, i: nat)
    requires Proper(bl) && i < |bl| && !bl[i].free
    ensures var marked := bl[i := Block(bl[i].cells, true)];
      MergeNext(marked, i) == if i + 1 < |bl| && bl[i + 1].free then Absorb(marked, i) else marked
  {
  }

  lemma {:induction false} ReleaseProper(bl: Layout, i: nat)
    requires Proper(bl) && i < |bl| && !bl[i].free
    ensures Proper(Release(bl, i))
  {
    hide MergeNext;
    MergeOnce(bl, i);
    var r := Release(bl, i);
    // How many blocks after and before i were merged into one.
    var after := if i + 1 < |bl| && bl[i + 1].free then 1 else 0;
    var before := if i > 0 && bl[i - 1].free then 1 else 0;
    var k := i - before;
    assert |r| == |bl| - after - before;
    forall j | 0 <= j < |r|
      ensures r[j].cells >= 1
      ensures j < |r| - 1 ==> !(r[j].free && r[j + 1].free)
    {
      assert j < k ==> r[j] == bl[j];
      assert j > k ==> r[j] == bl[j + after + before];
      if j < |r| - 1 {
        if j < k { assert !(bl[j].free && bl[j + 1].free); }
        if j >= k { assert r[j + 1] == bl[j + 1 + after + before]; }
        if j > k { assert !(bl[j + after + before].free && bl[j + after + before + 1].free); }
        if j == k && after == 1 { assert !(bl[i + 1].free && bl[i + 1 + 1].free); }
      }
    }
  }

  /** Freeing block i removes it from the live blocks and leaves the others. */
  lemma {:induction false} ReleaseFacts(bl: Layout, i: nat)
    requires Good(bl) && i < |bl| && !bl[i].free
    ensures Good(Release(bl, i))
    ensures LiveBlocks(Release(bl, i)) == LiveBlocks(bl) - {Live(Start(bl, i), bl[i].cells)}
    ensures Live(Start(bl, i), bl[i].cells) in LiveBlocks(bl)
  {
    hide Proper, LiveFrom, Extent, MergeNext;
    ReleaseProper(bl, i);
    var b, at := Block(bl[i].cells, true), Start(bl, i);
    var marked := bl[i := b];
    Around(bl, i);
    Around(marked, i);
    assert marked[..i] == bl[..i] && marked[i + 1..] == bl[i + 1..];
    OneBlock(bl[i], at);
    OneBlock(b, at);
    ThreeParts(bl[..i], [bl[i]], bl[i + 1..]);
    ThreeParts(bl[..i], [b], bl[i + 1..]);
    LiveBounds(bl[..i], 0);
    LiveBounds(bl[i + 1..], at + Span(bl[i]));
    MergeNextFacts(marked, i);
    var forward := MergeNext(marked, i);
    if i > 0 && forward[i - 1].free {
      AbsorbFacts(forward, i - 1);
    }
  }
}
