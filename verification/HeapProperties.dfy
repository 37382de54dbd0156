// What allocation and freeing promise, over single calls and whole runs.
module HeapProperties {
  import opened Words
  import opened HeapSpec


  /** The request rounded up to cells. */
  function Need(size: nat): nat { (size + 15) / 16 }

  /** kmalloc on the block list: the new list and the block handed out, if any. */
  function Malloc(bl: Layout, size: nat): (r: (Layout, Option<Live>)) {
    if size == 0 || size > HEAP_SIZE then (bl, None)
    else
      var fit := FirstFit(bl, 0, Need(size));
      if fit.None? then (bl, None)
      else
        (Take(bl, fit.value, Need(size)),
         Some(Live(Start(bl, fit.value), Carve(bl[fit.value].cells, Need(size))[0].cells)))
  }

  /** kmalloc fails exactly if the size is out of range or no free block holds it. */
  lemma {:induction false} MallocFailsIff(bl: Layout, size: nat)
    ensures Malloc(bl, size).1.None? <==>
      size == 0 || size > HEAP_SIZE || forall j :: 0 <= j < |bl| ==> !FitsIn(bl[j], Need(size))
  {
  }

  /** A later block starts behind an earlier one. */
  lemma {:induction false} StartsIncrease(bl: Layout, i: nat, j: nat)
    requires i < j <= |bl|
    ensures Start(bl, i) + Span(bl[i]) <= Start(bl, j)
  {
    var a, b := bl[..i], bl[i..j];
    assert bl[..j] == a + b && b == [bl[i]] + b[1..];
    ExtentConcat(a, b);
    ExtentConcat([bl[i]], b[1..]);
    OneBlock(bl[i], 0);
  }

  /**
   * kmalloc is first fit: the block is fresh, holds the request with at most 31
   * bytes to spare, and lies at the lowest address where a free block fits.
   */
  lemma {:induction false} MallocFacts(bl: Layout, size: nat)
    requires Good(bl) && Malloc(bl, size).1.Some?
    ensures var (bl', got) := Malloc(bl, size); var x := got.value;
      && Good(bl') && x !in LiveBlocks(bl) && LiveBlocks(bl') == LiveBlocks(bl) + {x}
      && size <= 16 * x.cells <= size + 31
      && forall j :: 0 <= j < |bl| && FitsIn(bl[j], Need(size)) ==> x.at <= Start(bl, j)
  {
    var i := FirstFit(bl, 0, Need(size)).value;
    TakeFacts(bl, i, Need(size));
    forall j | 0 <= j < |bl| && FitsIn(bl[j], Need(size))
      ensures Start(bl, i) <= Start(bl, j)
    {
      if i < j { StartsIncrease(bl, i, j); }
    }
  }

  /** The index of a live block in the list. */
  function IndexOf(bl: Layout, at: nat, x: Live): (i: nat)
    requires x in LiveFrom(bl, at)
    ensures i < |bl| && bl[i] == Block(x.cells, false) && at + Start(bl, i) == x.at
    decreases |bl|
  {
    if !bl[0].free && x == Live(at, bl[0].cells) then
      assert bl[..0] == [];
      0
    else
      var i := IndexOf(bl[1..], at + Span(bl[0]), x);
      assert bl[..i + 1][1..] == bl[1..][..i];
      i + 1
  }

  /** kfree on the block list. */
  function Free(bl: Layout, x: Live): Layout
    requires x in LiveBlocks(bl)
  {
    Release(bl, IndexOf(bl, 0, x))
  }

  lemma {:induction false} FreeFacts(bl: Layout, x: Live)
    requires Good(bl) && x in LiveBlocks(bl)
    ensures Good(Free(bl, x)) && LiveBlocks(Free(bl, x)) == LiveBlocks(bl) - {x}
  {
    ReleaseFacts(bl, IndexOf(bl, 0, x));
  }

  // ---- Consequences of the canonical layout ----

  lemma {:induction false} FreesCommute(bl: Layout, x: Live, y: Live)
    requires Good(bl) && x in LiveBlocks(bl) && y in LiveBlocks(bl) && x != y
    ensures y in LiveBlocks(Free(bl, x)) && x in LiveBlocks(Free(bl, y))
    ensures Free(Free(bl, x), y) == Free(Free(bl, y), x)
  {
    hide Free, Good;
    FreeFacts(bl, x);
    FreeFacts(bl, y);
    FreeFacts(Free(bl, x), y);
    FreeFacts(Free(bl, y), x);
    assert LiveBlocks(bl) - {x} - {y} == LiveBlocks(bl) - {y} - {x};
    CanonicalLayout(Free(Free(bl, x), y), Free(Free(bl, y), x));
  }

  /** Freeing what kmalloc has just handed out restores the block list. */
  lemma {:induction false} MallocFreeRestores(bl: Layout, size: nat)
    requires Good(bl) && Malloc(bl, size).1.Some?
    ensures var (bl', got) := Malloc(bl, size); got.value in LiveBlocks(bl') && Free(bl', got.value) == bl
  {
    hide Free, Good, Malloc;
    MallocFacts(bl, size);
    var (bl', got) := Malloc(bl, size);
    FreeFacts(bl', got.value);
    assert LiveBlocks(bl) + {got.value} - {got.value} == LiveBlocks(bl);
    CanonicalLayout(Free(bl', got.value), bl);
  }

  predicate Distinct(xs: seq<Live>) {
    forall i, j :: 0 <= i < j < |xs| ==> xs[i] != xs[j]
  }

  /** Freeing the listed blocks one after the other. */
  function FreeAll(bl: Layout, xs: seq<Live>): (r: Layout)
    requires Good(bl) && Distinct(xs) && forall i :: 0 <= i < |xs| ==> xs[i] in LiveBlocks(bl)
    ensures Good(r) && LiveBlocks(r) == LiveBlocks(bl) - (set x | x in xs)
    decreases |xs|
  {
    if xs == [] then bl
    else
      FreeFacts(bl, xs[0]);
      assert xs == [xs[0]] + xs[1..];
      FreeAll(Free(bl, xs[0]), xs[1..])
  }

  /** Freeing every live block, in whatever order, leaves the single initial block. */
  lemma {:induction false} FreeAllGivesInitial(bl: Layout, xs: seq<Live>)
    requires Good(bl) && Distinct(xs) && LiveBlocks(bl) == set x | x in xs
    ensures forall i :: 0 <= i < |xs| ==> xs[i] in LiveBlocks(bl)
    ensures FreeAll(bl, xs) == Initial()
  {
    assert LiveBlocks(FreeAll(bl, xs)) == {};
    OneBlock(Block(CELLS - 1, true), 0);
    CanonicalLayout(FreeAll(bl, xs), Initial());
  }

  // ---- Totals ----

  function FreeCells(bl: Layout): nat {
    if bl == [] then 0 else (if bl[0].free then bl[0].cells else 0) + FreeCells(bl[1..])
  }

  function LiveCells(bl: Layout): nat {
    if bl == [] then 0 else (if bl[0].free then 0 else bl[0].cells) + LiveCells(bl[1..])
  }

  /** Free payload, live payload and one header per block make up the arena. */
  lemma {:induction false} Conservation(bl: Layout)
    ensures FreeCells(bl) + LiveCells(bl) + |bl| == Extent(bl)
  {
    if bl != [] {
      Conservation(bl[1..]);
    }
  }

  function FreeBlocks(bl: Layout): nat {
    if bl == [] then 0 else (if bl[0].free then 1 else 0) + FreeBlocks(bl[1..])
  }

  /** A free block is at most the free total, and is all of it only if it is the only one. */
  lemma {:induction false} ShareOfFree(bl: Layout, i: nat)
    requires i < |bl| && bl[i].free && forall j :: 0 <= j < |bl| ==> bl[j].cells >= 1
    ensures FreeCells(bl) >= bl[i].cells && FreeBlocks(bl) >= 1
    ensures FreeCells(bl) == bl[i].cells <==> FreeBlocks(bl) == 1
    decreases |bl|
  {
    if i == 0 {
      NoneFree(bl[1..]);
    } else {
      ShareOfFree(bl[1..], i - 1);
    }
  }

  lemma {:induction false} NoneFree(bl: Layout)
    requires forall j :: 0 <= j < |bl| ==> bl[j].cells >= 1
    ensures FreeCells(bl) == 0 <==> FreeBlocks(bl) == 0
    ensures FreeBlocks(bl) == 0 <==> forall j :: 0 <= j < |bl| ==> !bl[j].free
  {
    if bl != [] {
      NoneFree(bl[1..]);
      assert forall j :: 0 <= j < |bl[1..]| ==> bl[1..][j] == bl[j + 1];
      assert forall j :: 0 < j < |bl| ==> bl[j] == bl[1..][j - 1];
    }
  }

  /** kmalloc(heap_free_bytes()) succeeds exactly if there is one free block. */
  lemma {:induction false} WholeFreeSpace(bl: Layout)
    requires Good(bl)
    ensures Malloc(bl, 16 * FreeCells(bl)).1.Some? <==> FreeBlocks(bl) == 1
  {
    var size := 16 * FreeCells(bl);
    NoneFree(bl);
    Conservation(bl);
    assert Need(size) == FreeCells(bl);
    var fit := FirstFit(bl, 0, Need(size));
    if fit.Some? {
      ShareOfFree(bl, fit.value);
    } else if FreeBlocks(bl) == 1 {
      var i :| 0 <= i < |bl| && bl[i].free;
      ShareOfFree(bl, i);
    }
  }

  // ---- Runs ----

  datatype Call = Kmalloc(size: nat) | Kfree(x: Live)

  predicate LegalCall(bl: Layout, c: Call) { c.Kfree? ==> c.x in LiveBlocks(bl) }

  function After(bl: Layout, c: Call): Layout
    requires LegalCall(bl, c)
  {
    match c
    case Kmalloc(size) => Malloc(bl, size).0
    case Kfree(x) => Free(bl, x)
  }

  lemma {:induction false} CallKeepsGood(bl: Layout, c: Call)
    requires Good(bl) && LegalCall(bl, c)
    ensures Good(After(bl, c))
  {
    match c
    case Kmalloc(size) => if Malloc(bl, size).1.Some? { MallocFacts(bl, size); }
    case Kfree(x) => FreeFacts(bl, x);
  }

  predicate LegalCalls(bl: Layout, cs: seq<Call>)
    decreases |cs|
  {
    cs == [] || (LegalCall(bl, cs[0]) && LegalCalls(After(bl, cs[0]), cs[1..]))
  }

  function AfterAll(bl: Layout, cs: seq<Call>): Layout
    requires LegalCalls(bl, cs)
    decreases |cs|
  {
    if cs == [] then bl else AfterAll(After(bl, cs[0]), cs[1..])
  }

  /** Over every run of calls the blocks tile the arena and no two free ones are neighbours. */
  lemma {:induction false} CallsKeepGood(bl: Layout, cs: seq<Call>)
    requires Good(bl) && LegalCalls(bl, cs)
    ensures Good(AfterAll(bl, cs))
    ensures FreeCells(AfterAll(bl, cs)) + LiveCells(AfterAll(bl, cs)) + |AfterAll(bl, cs)| == CELLS
    decreases |cs|
  {
    if cs == [] {
      Conservation(bl);
    } else {
      CallKeepsGood(bl, cs[0]);
      CallsKeepGood(After(bl, cs[0]), cs[1..]);
    }
  }

  /** Two runs that end with the same live blocks end with the same block list. */
  lemma {:induction false} RunsForgetHistory(cs: seq<Call>, ds: seq<Call>)
    requires LegalCalls(Initial(), cs) && LegalCalls(Initial(), ds)
    requires LiveBlocks(AfterAll(Initial(), cs)) == LiveBlocks(AfterAll(Initial(), ds))
    ensures AfterAll(Initial(), cs) == AfterAll(Initial(), ds)
  {
    CallsKeepGood(Initial(), cs);
    CallsKeepGood(Initial(), ds);
    CanonicalLayout(AfterAll(Initial(), cs), AfterAll(Initial(), ds));
  }
}
