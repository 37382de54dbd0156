// Whole runs on the heap's arena: calls of kmalloc and kfree, owners writing to
// their blocks, and attempts to free what is no longer live.
module HeapSessions {
  import opened Words
  import opened HeapSpec
  import opened HeapProperties
  import opened HeapArena
  import opened HeapMerging
  import opened CellTrace
  import opened KernelHeap

  /** A call, an owner's write to a payload cell, or a second free of a former block. */
  datatype Use = Do(call: Call) | Write(c: nat, value: Cell) | FreeAgain(c: nat)

  function HeaderCells(bl: Layout): set<nat> { set i | 0 <= i < |bl| :: Start(bl, i) }

  /** What callers owe. `seen` holds the cells that were headers and were not overwritten since. */
  predicate LegalUse(bl: Layout, seen: set<nat>, u: Use) {
    match u
    case Do(call) => LegalCall(bl, call)
    case Write(c, v) => InPayload(bl, c) && IsCell(v)
    case FreeAgain(c) => c in seen && !LiveAt(bl, c)
  }

  function LayoutAfter(bl: Layout, u: Use): Layout
    requires u.Do? ==> LegalCall(bl, u.call)
  {
    if u.Do? then After(bl, u.call) else bl
  }

  function SeenAfter(bl: Layout, seen: set<nat>, u: Use): set<nat>
    requires u.Do? ==> LegalCall(bl, u.call)
  {
    match u
    case Do(call) => seen + HeaderCells(After(bl, call))
    case Write(c, _) => seen - {c}
    case FreeAgain(_) => seen
  }

  /** The run ends with the first FreeAgain. */
  predicate LegalUses(bl: Layout, seen: set<nat>, us: seq<Use>)
    decreases |us|
  {
    us == [] ||
    (LegalUse(bl, seen, us[0]) &&
     (us[0].FreeAgain? || LegalUses(LayoutAfter(bl, us[0]), SeenAfter(bl, seen, us[0]), us[1..])))
  }

  /** The block list and the headers seen at the end of the run. */
  function EndOfRun(bl: Layout, seen: set<nat>, us: seq<Use>): (Layout, set<nat>)
    requires LegalUses(bl, seen, us)
    decreases |us|
  {
    if us == [] || us[0].FreeAgain? then (bl, seen)
    else EndOfRun(LayoutAfter(bl, us[0]), SeenAfter(bl, seen, us[0]), us[1..])
  }

  predicate FreesAgain(us: seq<Use>) { exists i :: 0 <= i < |us| && us[i].FreeAgain? }

  /** The value last written to cell c in the run, or the one it had. */
  function LastWritten(was: Cell, us: seq<Use>, c: nat): Cell
    decreases |us|
  {
    if us == [] || us[0].FreeAgain? then was
    else LastWritten(if us[0].Write? && us[0].c == c then us[0].value else was, us[1..], c)
  }

  /** Cell c belongs to the payload of a block that is live at the start and that the run does not free. */
  predicate Keeps(bl: Layout, us: seq<Use>, x: Live, c: nat) {
    x in LiveBlocks(bl) && x.at < c <= x.at + x.cells && Do(Kfree(x)) !in us
  }

  predicate NoForgery(us: seq<Use>) { forall i :: 0 <= i < |us| && us[i].Write? ==> !LooksLive(us[i].value) }

  lemma {:induction false} PayloadInArena(bl: Layout, c: nat)
    requires Good(bl) && InPayload(bl, c)
    ensures c < CELLS
  {
    LiveBounds(bl, 0);
  }

  lemma {:induction false} KeepsInArena(bl: Layout, us: seq<Use>)
    requires Good(bl)
    ensures forall x, c: nat :: Keeps(bl, us, x, c) ==> c < CELLS && InPayload(bl, c)
  {
    LiveBounds(bl, 0);
  }

  /** One use of the heap, as the arena sees it. */
  method Perform(h: KernelHeap, u: Use, ghost seen: set<nat>) returns (out: Outcome)
    requires h.Valid() && h.ready && LegalUse(h.layout, seen, u) && seen <= h.headers
    modifies h, h.arena
    ensures h.Valid() && h.ready && h.layout == LayoutAfter(old(h.layout), u)
    ensures SeenAfter(old(h.layout), seen, u) <= h.headers
    ensures out == if u.FreeAgain? then Panic else Returned
    ensures forall x, c: nat :: Keeps(old(h.layout), [u], x, c) ==>
      && c < CELLS && x in LiveBlocks(h.layout)
      && h.arena[c] == if u.Write? && u.c == c then u.value else old(h.arena[c])
    ensures old(Genuine(h.arena[..], h.layout)) && NoForgery([u]) ==> Genuine(h.arena[..], h.layout)
  {
    hide Encodes, Extent, Proper, LiveFrom, Genuine, Malloc, Free, HeadersKept, Played, AllInArena, LooksLiveAcross;
    out := Returned;
    ghost var before := h.layout;
    assert u.Write? ==> NoForgery([u]) ==> !LooksLive(u.value) by { assert [u][0] == u; }
    match u {
      case Do(Kmalloc(size)) =>
        var ptr := h.Kmalloc(size);
        if Malloc(before, size).1.Some? { MallocFacts(before, size); } else { MallocNothing(before, size); }
      case Do(Kfree(x)) =>
        LiveNotForged(h, x);
        AcrossNotAligned(h.arena[..], 16 * x.at);
        out := h.Kfree(PointerTo(x.at));
        FreeFacts(before, x);
      case Write(c, value) =>
        PayloadInArena(before, c);
        h.OwnerWrite(c, value);
      case FreeAgain(c) =>
        OnceReturned(h, c);
        AcrossNotAligned(h.arena[..], 16 * c);
        out := h.Kfree(PointerTo(c));
    }
    forall x, c: nat | Keeps(before, [u], x, c)
      ensures c < CELLS && x in LiveBlocks(h.layout)
      ensures h.arena[c] == if u.Write? && u.c == c then u.value else old(h.arena[c])
    {
      KeepsInArena(before, [u]);
      PayloadNotLive(before, c);
      assert Do(Kfree(x)) != u;
    }
  }

  lemma {:induction false} MallocNothing(bl: Layout, size: nat)
    requires Malloc(bl, size).1.None?
    ensures Malloc(bl, size).0 == bl
  {
  }

  lemma {:induction false} LiveNotForged(h: KernelHeap, x: Live)
    requires h.Valid() && h.ready && x in LiveBlocks(h.layout)
    ensures !h.Forged(PointerTo(x.at))
  {
    assert LiveAt(h.layout, x.at);
  }

  /**
   * Any run of calls, of writes by owners and of second frees. The arena ends up
   * holding the block list that the calls give. The kernel stops exactly at a second
   * free. A payload cell of a block the run does not free holds what was last written
   * to it. Every former header that was not overwritten is still accounted for, and
   * if no write forged a header, none is forged in the end.
   */
  method Session(h: KernelHeap, us: seq<Use>, ghost seen: set<nat>) returns (out: Outcome)
    requires h.Valid() && h.ready && LegalUses(h.layout, seen, us) && seen <= h.headers
    modifies h, h.arena
    ensures h.Valid() && h.ready
    ensures var (bl, headers) := EndOfRun(old(h.layout), seen, us); h.layout == bl && headers <= h.headers
    ensures out == if FreesAgain(us) then Panic else Returned
    ensures forall x, c: nat :: Keeps(old(h.layout), us, x, c) ==>
      c < CELLS && x in LiveBlocks(h.layout) && h.arena[c] == LastWritten(old(h.arena[c]), us, c)
    ensures old(Genuine(h.arena[..], h.layout)) && NoForgery(us) ==> Genuine(h.arena[..], h.layout)
    decreases |us|
  {
    hide Genuine, After, HeaderCells, LiveAt, InPayload, LiveFrom, Encodes, Extent, Proper, HeadersKept, HeadersCover;
    out := Returned;
    KeepsInArena(h.layout, us);
    if us == [] {
      return;
    }
    ghost var before, next := h.layout, SeenAfter(h.layout, seen, us[0]);
    FirstAndRest(us);
    out := Perform(h, us[0], seen);
    ghost var mid := h.layout;
    forall x, c: nat | Keeps(before, us, x, c)
      ensures Keeps(before, [us[0]], x, c) && Keeps(mid, us[1..], x, c)
    {
      assert Keeps(before, [us[0]], x, c);
    }
    if out == Returned {
      out := Session(h, us[1..], next);
    }
  }

  /** What a run does, from its first step and its rest. */
  lemma {:induction false} FirstAndRest(us: seq<Use>)
    requires us != []
    ensures FreesAgain(us) <==> us[0].FreeAgain? || FreesAgain(us[1..])
    ensures NoForgery(us) ==> NoForgery([us[0]]) && NoForgery(us[1..])
    ensures forall call :: Do(call) !in us ==> Do(call) !in [us[0]] && Do(call) !in us[1..]
  {
    if FreesAgain(us[1..]) {
      var i :| 0 <= i < |us[1..]| && us[1..][i].FreeAgain?;
      assert us[i + 1].FreeAgain?;
    }
    if FreesAgain(us) && !us[0].FreeAgain? {
      var i :| 0 <= i < |us| && us[i].FreeAgain?;
      assert us[1..][i - 1].FreeAgain?;
    }
  }

  // ---- Forged headers ----

  /** The block list after heap_init and kmalloc(32). */
  lemma {:induction false} FirstLayout()
    ensures var bl := [Block(2, false), Block(CELLS - 4, true)];
      && Malloc(Initial(), 32) == (bl, Some(Live(0, 2)))
      && Start(bl, 1) == 3 && Start(bl, 0) == 0 && Live(0, 2) in LiveBlocks(bl)
  {
    var bl, bl' := Initial(), [Block(2, false), Block(CELLS - 4, true)];
    FirstFitIs(bl, 0, 0, 2);
    assert Take(bl, 0, 2) == bl';
    assert bl[..0] == [] && bl'[..0] == [] && bl'[..1] == [Block(2, false)];
    OneBlock(Block(2, false), 0);
    assert LiveFrom(bl', 0) == {Live(0, 2)} + LiveFrom(bl'[1..], 3);
  }

  /** heap_init, kmalloc(32), and a cell written into the block. */
  method Forge(h: KernelHeap, value: Cell)
    requires h.Valid() && IsCell(value) && LooksLive(value)
    modifies h, h.arena
    ensures h.Valid() && h.ready && h.layout == [Block(2, false), Block(CELLS - 4, true)]
    ensures h.arena[1] == value && h.arena[3] == Header(Block(CELLS - 4, true)) && InPayload(h.layout, 2)
    ensures h.Forged(PointerTo(1)) && !LiveAt(h.layout, 1)
  {
    hide Encodes, Extent, Proper, LiveFrom, Genuine, HeadersKept, HeadersCover, Take, Malloc, Played, AllInArena;
    h.Init();
    var ptr := h.Kmalloc(32);
    FirstLayout();
    assert InPayload(h.layout, 1) && InPayload(h.layout, 2) by { assert Live(0, 2) in LiveBlocks(h.layout); }
    h.OwnerWrite(1, value);
    PayloadNotLive(h.layout, 1);
    HeaderAt(h.arena[..], h.layout, 1);
  }

  /**
   * kfree does not stop the kernel on every bad pointer: from a header forged in the
   * owner's own block, merging settles at the end of the arena and kfree returns. The
   * block list survives.
   */
  method ForgeryReturns(h: KernelHeap) returns (out: Outcome)
    requires h.Valid()
    modifies h, h.arena
    ensures out == Returned && h.Valid() && h.layout == [Block(2, false), Block(CELLS - 4, true)]
    ensures !LiveAt(h.layout, 1) && h.arena[1].free == 1
  {
    hide Encodes, Extent, Proper, LiveFrom, Genuine, HeadersKept, HeadersCover, Played, AllInArena, InFree, InPayload;
    Forge(h, Cell(MAGIC, 0, 16));
    NotLivePointer(h, 1);
    assert Follow(h.arena[..], 1, 16 + 16 + 16 * (CELLS - 4)).Settles?;
    FirstLayout();
    PayloadNotFree(h.layout, 1, 0);
    out := h.Kfree(PointerTo(1));
  }

  /** But not every forged pointer gets through: here merging finds a cell without the magic. */
  method ForgeryStops(h: KernelHeap) returns (out: Outcome)
    requires h.Valid()
    modifies h, h.arena
    ensures out == Panic
  {
    hide Encodes, Extent, Proper, LiveFrom, Genuine, HeadersKept, HeadersCover, Played, AllInArena, InFree;
    hide InPayload, LooksLiveAcross;
    Forge(h, Cell(MAGIC, 0, 0));
    PayloadNotLive(h.layout, 2);
    h.OwnerWrite(2, Cell(0, 0, 0));
    NotLivePointer(h, 1);
    AcrossNotAligned(h.arena[..], 16);
    assert Follow(h.arena[..], 1, 0).Stops?;
    out := h.Kfree(PointerTo(1));
  }

  /** A header forged in a block that is freed afterwards: kfree returns, and the block list is broken. */
  method ForgeryBreaks(h: KernelHeap) returns (out: Outcome)
    requires h.Valid()
    modifies h, h.arena
    ensures out == Returned && h.layout == Initial() && Broken(h.arena[..], Initial())
  {
    hide Encodes, Extent, Proper, LiveFrom, Genuine, HeadersKept, HeadersCover, Played, AllInArena, LooksLiveAcross;
    hide Malloc, Free;
    var value := Cell(MAGIC, 0, HEAP_SIZE - 32);
    Forge(h, value);
    FirstLayout();
    MallocFreeRestores(Initial(), 32);
    LiveNotForged(h, Live(0, 2));
    assert InPayload(h.layout, 1) by { assert Live(0, 2) in LiveBlocks(h.layout); }
    out := h.Kfree(PointerTo(0));
    assert h.layout == Initial() && h.arena[1] == value;
    InInitial();
    FreeNotLive(h.layout, 1);
    NotLivePointer(h, 1);
    assert Counterfeit(h.arena[..], h.layout, 1);
    assert Follow(h.arena[..], 1, HEAP_SIZE - 32).Settles?;
    out := h.Kfree(PointerTo(1));
  }

  lemma {:induction false} InInitial()
    ensures InFree(Initial(), 1)
  {
    assert Initial()[..0] == [];
    assert Start(Initial(), 0) == 0;
  }

  lemma {:induction false} NotLivePointer(h: KernelHeap, c: nat)
    requires !LiveAt(h.layout, c)
    ensures !h.Points(PointerTo(c))
  {
  }

  /** A cell of a live block's payload is inside no free block. */
  lemma {:induction false} PayloadNotFree(bl: Layout, c: nat, i: nat)
    requires BelongsTo(bl, i, c) && c > Start(bl, i) && !bl[i].free
    ensures !InFree(bl, c)
  {
    FreeIsInFree(bl, i, c);
  }
}
