// The kernel heap's arena on the demand-paged region: a 16-byte cell is two
// consecutive words, and reading and writing cells through loads and stores, with
// the faults they cause, is reading and writing an array of cells. So whatever the
// heap does on its array, it does on the region.
module HeapOnRegion {
  import opened Words
  import opened Paging
  import opened VmSpec
  import opened VmHeapRegion
  import opened VmHeapSupply
  import opened HeapSpec
  import opened HeapArena
  import opened CellTrace
  import opened KernelHeap
  import opened HeapSessions
  import opened PmmBoot
  import opened FrameSpec

  // ---- Cells and words ----

  function CellOf(first: Word, second: Word): (c: Cell)
    requires IsWord(first) && IsWord(second)
    ensures IsCell(c)
  {
    Cell(ToBits(first) % HALF, ToBits(first) / HALF, ToBits(second))
  }

  function FirstWord(c: Cell): (w: Word)
    requires IsCell(c)
    ensures IsWord(w)
  {
    FromBits(c.magic + HALF * c.free)
  }

  function SecondWord(c: Cell): (w: Word)
    requires IsCell(c)
    ensures IsWord(w)
  {
    FromBits(c.size)
  }

  /** Magic in the low half of the first word, free in the high half, size in the second word. */
  lemma {:induction false} HeaderBits(c: Cell)
    requires IsCell(c)
    ensures ToBits(FirstWord(c)) == c.magic + HALF * c.free && ToBits(SecondWord(c)) == c.size
  {
    BitsRoundTrip(c.magic + HALF * c.free);
    BitsRoundTrip(c.size);
  }

  lemma {:induction false} CellRoundTrip(c: Cell)
    requires IsCell(c)
    ensures CellOf(FirstWord(c), SecondWord(c)) == c
  {
    hide ToBits, FromBits;
    BitsRoundTrip(c.magic + HALF * c.free);
    BitsRoundTrip(c.size);
    Quotient(c.free, c.magic, HALF);
  }

  // ---- The region as an array of cells ----

  predicate WordArray(flat: seq<Word>) { |flat| == HEAP_WORDS && forall k :: 0 <= k < |flat| ==> IsWord(flat[k]) }

  function ArenaOf(flat: seq<Word>): (arena: Arena)
    requires WordArray(flat)
    ensures |arena| == CELLS && forall c :: 0 <= c < CELLS ==> IsCell(arena[c])
  {
    seq(CELLS, c requires 0 <= c < CELLS => CellOf(flat[2 * c], flat[2 * c + 1]))
  }

  /** Storing a cell's two words is writing the cell. */
  lemma {:induction false} StoreCell(flat: seq<Word>, c: nat, v: Cell)
    requires WordArray(flat) && c < CELLS && IsCell(v)
    ensures var flat' := flat[2 * c := FirstWord(v)][2 * c + 1 := SecondWord(v)];
      WordArray(flat') && ArenaOf(flat') == ArenaOf(flat)[c := v]
  {
    hide FirstWord, SecondWord, CellOf;
    CellRoundTrip(v);
    var flat' := flat[2 * c := FirstWord(v)][2 * c + 1 := SecondWord(v)];
    forall d | 0 <= d < CELLS
      ensures ArenaOf(flat')[d] == ArenaOf(flat)[c := v][d]
    {
    }
  }

  // ---- Runs ----

  /** The loads or stores of one access to a cell. */
  function WordActions(op: CellAction): (run: seq<HeapAction>)
    requires InArena(op)
    ensures |run| == 2
  {
    match op
    case ReadCell(c) => [Load(2 * c), Load(2 * c + 1)]
    case WriteCell(c, v) => [Store(2 * c, FirstWord(v)), Store(2 * c + 1, SecondWord(v))]
  }

  function AllWordActions(ops: seq<CellAction>): (run: seq<HeapAction>)
    requires AllInArena(ops)
    decreases |ops|
  {
    if ops == [] then [] else WordActions(ops[0]) + AllWordActions(ops[1..])
  }

  /** The cell two loaded words make up. */
  function CellFrom(first: Output, second: Output): Option<Cell> {
    if first.Value? && second.Value? && IsWord(first.w) && IsWord(second.w) then Some(CellOf(first.w, second.w)) else None
  }

  /** The outputs of the loads and stores, two by two. */
  function CellsFrom(out: seq<Output>): seq<Option<Cell>>
    decreases |out|
  {
    if |out| < 2 then [] else [CellFrom(out[0], out[1])] + CellsFrom(out[2..])
  }

  lemma {:induction false} TwoSteps(flat: seq<Word>, a: HeapAction, b: HeapAction, rest: seq<HeapAction>)
    requires |flat| == HEAP_WORDS
    ensures var (flat1, o1) := FlatStep(flat, a); var (flat2, o2) := FlatStep(flat1, b);
      && FlatOutputs(flat, [a, b] + rest) == [o1, o2] + FlatOutputs(flat2, rest)
      && FlatAfter(flat, [a, b] + rest) == FlatAfter(flat2, rest)
  {
    hide FlatStep;
    var run := [a, b] + rest;
    var flat1 := FlatStep(flat, a).0;
    assert run[1..][0] == b && run[1..][1..] == rest;
    assert FlatOutputs(flat, run) == [FlatStep(flat, a).1] + FlatOutputs(flat1, run[1..]);
  }

  /** The two loads or stores of an access do to the words what the access does to the cells. */
  lemma {:induction false} OneAccess(flat: seq<Word>, op: CellAction)
    requires WordArray(flat) && InArena(op)
    ensures var ab := WordActions(op);
      var (flat1, o1) := FlatStep(flat, ab[0]); var (flat2, o2) := FlatStep(flat1, ab[1]);
      WordArray(flat2) && ArenaOf(flat2) == Apply(ArenaOf(flat), op) && CellFrom(o1, o2) == OutputOf(ArenaOf(flat), op)
  {
    hide CellOf, FirstWord, SecondWord, IsCell;
    if op.WriteCell? { StoreCell(flat, op.c, op.v); }
  }

  /** On a flat array of words, the loads and stores of cells are those of an array of cells. */
  lemma {:induction false} ArenaOnFlatArray(flat: seq<Word>, ops: seq<CellAction>)
    requires WordArray(flat) && AllInArena(ops)
    ensures CellsFrom(FlatOutputs(flat, AllWordActions(ops))) == ArenaOutputs(ArenaOf(flat), ops)
    ensures WordArray(FlatAfter(flat, AllWordActions(ops)))
    ensures ArenaOf(FlatAfter(flat, AllWordActions(ops))) == Played(ArenaOf(flat), ops)
    decreases |ops|
  {
    hide FlatOutputs, FlatAfter, FlatStep, CellFrom, InArena, Apply, OutputOf, WordActions, WordArray, ArenaOf;
    SizeOf(flat);
    if ops == [] {
      NoSteps(flat);
    } else {
      var op, rest := ops[0], AllWordActions(ops[1..]);
      assert InArena(op);
      OneAccess(flat, op);
      var ab := WordActions(op);
      assert ab == [ab[0], ab[1]];
      TwoSteps(flat, ab[0], ab[1], rest);
      var flat' := FlatStep(FlatStep(flat, ab[0]).0, ab[1]).0;
      var out := FlatOutputs(flat, AllWordActions(ops));
      assert out[2..] == FlatOutputs(flat', rest);
      ArenaOnFlatArray(flat', ops[1..]);
    }
  }

  lemma {:induction false} SizeOf(flat: seq<Word>)
    requires WordArray(flat)
    ensures |flat| == HEAP_WORDS
  {
  }

  lemma {:induction false} NoSteps(flat: seq<Word>)
    requires |flat| == HEAP_WORDS
    ensures FlatOutputs(flat, []) == [] && FlatAfter(flat, []) == flat
  {
  }

  lemma {:induction false} WordActionsUse(ph: Phys, ops: seq<CellAction>)
    requires AllInArena(ops)
    ensures UsesOnly(ph, AllWordActions(ops))
    decreases |ops|
  {
    if ops != [] { WordActionsUse(ph, ops[1..]); }
  }

  /**
   * Whatever reads and writes of cells are made, running them as loads and stores on
   * the demand-paged region gives what an array of cells gives, and leaves in the
   * region what they leave in the array, as long as 4106 frames are free or serve the
   * region.
   */
  lemma {:induction false} ArenaOnRegion(s: State, ops: seq<CellAction>, flat: seq<Word>)
    requires HeapInv(s) && REGION_FRAMES <= |Supply(s.ph)| && Shows(s.ph, s.kernel, flat) && WordArray(flat)
    requires AllInArena(ops)
    ensures HeapLegalRun(s, AllWordActions(ops))
    ensures CellsFrom(Outputs(s, AllWordActions(ops))) == ArenaOutputs(ArenaOf(flat), ops)
    ensures var s' := HeapRun(s, AllWordActions(ops));
      && Sized(s'.ph) && WordArray(FlatOf(s')) && ArenaOf(FlatOf(s')) == Played(ArenaOf(flat), ops)
  {
    hide HeapInv, HeapWord, Supply, HeapLegalRun, Outputs, FlatOutputs, FlatAfter, HeapRun, ArenaOutputs, Played;
    hide AllWordActions;
    var run := AllWordActions(ops);
    WordActionsUse(s.ph, ops);
    UsesLegal(s, run);
    EnoughFrames(s, run, flat);
    FlatNeverStops(flat, run);
    RunShows(s, run, flat);
    ArenaOnFlatArray(flat, ops);
    assert FlatOf(HeapRun(s, run)) == FlatAfter(flat, run);
  }

  /**
   * The kernel heap on the demand-paged region. All that a heap object has ever read
   * and written, run as loads and stores on a region that showed what its array held at
   * first, goes through, reads the same cells, and leaves the same arena.
   */
  lemma {:induction false} TraceOnRegion(h: KernelHeap, s: State, flat: seq<Word>)
    requires h.Valid() && WordArray(flat) && h.origin == ArenaOf(flat)
    requires HeapInv(s) && REGION_FRAMES <= |Supply(s.ph)| && Shows(s.ph, s.kernel, flat)
    ensures HeapLegalRun(s, AllWordActions(h.trace))
    ensures CellsFrom(Outputs(s, AllWordActions(h.trace))) == ArenaOutputs(h.origin, h.trace)
    ensures var s' := HeapRun(s, AllWordActions(h.trace));
      Sized(s'.ph) && WordArray(FlatOf(s')) && ArenaOf(FlatOf(s')) == h.arena[..]
  {
    hide HeapInv, HeapWord, Supply, HeapLegalRun, Outputs, HeapRun, ArenaOutputs, Played, AllWordActions;
    ArenaOnRegion(s, h.trace, flat);
  }

  // ---- From boot ----

  lemma {:induction false} ZeroArena()
    ensures WordArray(Zeros()) && forall c :: 0 <= c < CELLS ==> ArenaOf(Zeros())[c] == Cell(0, 0, 0)
  {
  }

  /**
   * heap_init on the zeroed region and any run of calls, writes and second frees after
   * it: all that `Session` promises holds, and the object's accesses start from zeros.
   */
  method Life(us: seq<Use>) returns (h: KernelHeap, out: Outcome)
    requires LegalUses(Initial(), {0}, us)
    ensures fresh(h) && fresh(h.arena) && h.Valid() && h.ready && h.layout == EndOfRun(Initial(), {0}, us).0
    ensures out == if FreesAgain(us) then Panic else Returned
    ensures NoForgery(us) ==> Genuine(h.arena[..], h.layout)
    ensures WordArray(Zeros()) && h.origin == ArenaOf(Zeros())
  {
    hide Encodes, Extent, Proper, LiveFrom, HeadersKept, HeadersCover, Played, AllInArena, ArenaOf, WordArray;
    ZeroArena();
    var arena := new Cell[CELLS](_ => Cell(0, 0, 0));
    h := new KernelHeap(arena);
    assert h.origin == ArenaOf(Zeros());
    h.Init();
    out := Session(h, us, {0});
  }

  /**
   * From boot, with 4106 frames free: everything such an object has read and written
   * runs unchanged on the region of the booted machine.
   */
  lemma {:induction false} HeapFromBoot(h: KernelHeap, mem: Memory, used: seq<bool>, b: BootTables)
    requires Booted(mem, used, b) && REGION_FRAMES <= CountFree(used)
    requires h.Valid() && WordArray(Zeros()) && h.origin == ArenaOf(Zeros())
    ensures var s, run := BootState(mem, used, b), AllWordActions(h.trace);
      && HeapLegalRun(s, run)
      && CellsFrom(Outputs(s, run)) == ArenaOutputs(h.origin, h.trace)
      && var s' := HeapRun(s, run); Sized(s'.ph) && WordArray(FlatOf(s')) && ArenaOf(FlatOf(s')) == h.arena[..]
  {
    hide HeapInv, HeapWord, Supply, HeapLegalRun, Outputs, HeapRun, ArenaOutputs, Played, AllWordActions, Booted;
    hide CountFree;
    BootEstablishes(mem, used, b);
    BootSupply(mem, used, b);
    TraceOnRegion(h, BootState(mem, used, b), Zeros());
  }
}
