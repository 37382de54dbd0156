// Reads and writes of the heap's cells, as lists of accesses.
module CellTrace {
  import opened Words
  import opened HeapSpec
  import opened HeapArena

  const HALF: nat := 0x1_0000_0000

  /** The fields have the widths of the C struct: 32, 32 and 64 bits. */
  predicate IsCell(c: Cell) { c.magic < HALF && c.free < HALF && c.size < WORD_LIMIT }

  predicate CellsFit(arena: Arena) { forall c :: 0 <= c < |arena| ==> IsCell(arena[c]) }

  datatype CellAction = ReadCell(c: nat) | WriteCell(c: nat, v: Cell)

  predicate InArena(op: CellAction) { op.c < CELLS && (op.WriteCell? ==> IsCell(op.v)) }

  predicate AllInArena(ops: seq<CellAction>) { forall i :: 0 <= i < |ops| ==> InArena(ops[i]) }

  function Apply(arena: Arena, op: CellAction): (r: Arena)
    requires |arena| == CELLS && InArena(op)
    ensures |r| == CELLS
  {
    if op.WriteCell? then arena[op.c := op.v] else arena
  }

  /** The cell read, or nothing. */
  function OutputOf(arena: Arena, op: CellAction): Option<Cell>
    requires |arena| == CELLS && InArena(op)
  {
    if op.ReadCell? then Some(arena[op.c]) else None
  }

  /** The arena after the accesses. */
  function Played(arena: Arena, ops: seq<CellAction>): (r: Arena)
    requires |arena| == CELLS && AllInArena(ops)
    ensures |r| == CELLS
    decreases |ops|
  {
    if ops == [] then arena else Played(Apply(arena, ops[0]), ops[1..])
  }

  /** What the accesses give. */
  function ArenaOutputs(arena: Arena, ops: seq<CellAction>): seq<Option<Cell>>
    requires |arena| == CELLS && AllInArena(ops)
    decreases |ops|
  {
    if ops == [] then [] else [OutputOf(arena, ops[0])] + ArenaOutputs(Apply(arena, ops[0]), ops[1..])
  }

  /** One access more. */
  lemma {:induction false} LastAction(arena: Arena, ops: seq<CellAction>, op: CellAction)
    requires |arena| == CELLS && AllInArena(ops) && InArena(op)
    ensures AllInArena(ops + [op])
    ensures Played(arena, ops + [op]) == Apply(Played(arena, ops), op)
    ensures ArenaOutputs(arena, ops + [op]) == ArenaOutputs(arena, ops) + [OutputOf(Played(arena, ops), op)]
    decreases |ops|
  {
    hide InArena;
    if ops == [] {
      assert [op][1..] == [] && ops + [op] == [op];
      assert Played(Apply(arena, op), []) == Apply(arena, op);
    } else {
      assert (ops + [op])[1..] == ops[1..] + [op];
      assert InArena(ops[0]) && AllInArena(ops[1..]);
      LastAction(Apply(arena, ops[0]), ops[1..], op);
    }
  }

  // ---- Headers that are not cells ----

  /** The 16 bytes of a cell as a number. */
  function Bytes16(c: Cell): nat { c.magic + 0x1_0000_0000 * (c.free + 0x1_0000_0000 * c.size) }

  function Power256(r: nat): (n: nat)
    ensures n > 0
  {
    if r == 0 then 1 else 256 * Power256(r - 1)
  }

  /** The eight bytes from byte r of one cell on, reaching into the next. */
  function Straddling(first: Cell, second: Cell, r: nat): int {
    (Bytes16(first) + 0x1_0000_0000_0000_0000_0000_0000_0000_0000 * Bytes16(second)) / Power256(r)
  }

  /** Six 32-bit fields in a row, the lowest first. */
  function Fields(a: nat, b: nat, c: nat, d: nat, e: nat, rest: nat): nat {
    a + 0x1_0000_0000 * (b + 0x1_0000_0000 * (c + 0x1_0000_0000 * (d + 0x1_0000_0000 * (e + 0x1_0000_0000 * rest))))
  }

  lemma {:induction false} FieldsOf(first: Cell, second: Cell)
    requires first.size < WORD_LIMIT
    ensures Bytes16(first) + 0x1_0000_0000_0000_0000_0000_0000_0000_0000 * Bytes16(second) ==
      Fields(first.magic, first.free, first.size % HALF, first.size / HALF, second.magic,
             second.free + HALF * second.size)
  {
  }

  /** A number of 32-bit digits, without its k lowest ones. */
  lemma {:induction false} DropFields(a: nat, b: nat, c: nat, d: nat, e: nat, rest: nat)
    requires a < HALF && b < HALF && c < HALF && d < HALF && e < HALF
    ensures var n := Fields(a, b, c, d, e, rest);
      && n / 0x1_0000_0000 % HALF == b && n / 0x1_0000_0000 / HALF % HALF == c
      && n / 0x1_0000_0000_0000_0000 % HALF == c && n / 0x1_0000_0000_0000_0000 / HALF % HALF == d
      && n / 0x1_0000_0000_0000_0000_0000_0000 % HALF == d && n / 0x1_0000_0000_0000_0000_0000_0000 / HALF % HALF == e
  {
    var n4 := e + HALF * rest;
    var n3 := d + HALF * n4;
    var n2 := c + HALF * n3;
    var n1 := b + HALF * n2;
    var n := Fields(a, b, c, d, e, rest);
    Quotient(rest, e, HALF);
    Quotient(n4, d, HALF);
    Quotient(n3, c, HALF);
    Quotient(n2, b, HALF);
    Quotient(n1, a, 0x1_0000_0000);
    Quotient(n2, a + HALF * b, 0x1_0000_0000_0000_0000);
    Quotient(n3, a + HALF * b + HALF * HALF * c, 0x1_0000_0000_0000_0000_0000_0000);
  }

  /** At a multiple of four bytes it finds whole fields: those of this cell, then those of the next. */
  lemma {:induction false} StraddledFields(first: Cell, second: Cell)
    requires IsCell(first) && IsCell(second)
    ensures Straddling(first, second, 4) % HALF == first.free
    ensures Straddling(first, second, 4) / HALF % HALF == first.size % HALF
    ensures Straddling(first, second, 8) % HALF == first.size % HALF
    ensures Straddling(first, second, 8) / HALF % HALF == first.size / HALF
    ensures Straddling(first, second, 12) % HALF == first.size / HALF
    ensures Straddling(first, second, 12) / HALF % HALF == second.magic
  {
    hide Fields, Bytes16;
    assert Power256(4) == 0x1_0000_0000 && Power256(8) == 0x1_0000_0000_0000_0000;
    assert Power256(12) == 0x1_0000_0000_0000_0000_0000_0000;
    FieldsOf(first, second);
    DropFields(first.magic, first.free, first.size % HALF, first.size / HALF, second.magic,
               second.free + HALF * second.size);
  }

  /** What kfree would take for magic and free there passes its tests. */
  predicate StraddleLooksLive(first: Cell, second: Cell, r: nat) {
    Straddling(first, second, r) % HALF == MAGIC && Straddling(first, second, r) / HALF % HALF == 0
  }

  /** At byte offset `off`, which is not a multiple of 16, stands what looks like a live header. */
  predicate LooksLiveAcross(arena: Arena, off: nat)
    requires |arena| == CELLS
  {
    && off % 16 != 0 && off + 8 <= 16 * CELLS
    && StraddleLooksLive(arena[off / 16], if off / 16 + 1 < CELLS then arena[off / 16 + 1] else Cell(0, 0, 0), off % 16)
  }
}
