// Machine words, page-table indices and the page-table entry format.
module Words {

  datatype Option<+T> = None | Some(value: T)

  type Byte = b: int | 0 <= b < 256

  /** One more than the largest 64-bit number. */
  const WORD_LIMIT: nat := 0x1_0000_0000_0000_0000

  /**
   * A 64-bit memory word, split into the fields the page-table walk reads:
   * bit 0 (VM_PTE_PRESENT), bits 1..6, bit 7 (VM_PTE_HUGE), bits 8..11, bits 12..51
   * (VM_ADDR_MASK) and bits 52..63. `ToBits` and `FromBits` relate it to numbers.
   */
  datatype Word = Word(present: bool, low: nat, huge: bool, mid: nat, frame: nat, high: nat)

  /** An index into one of the 512 entries of a table. */
  type Index = i: int | 0 <= i < 512

  /** The contents of one 4KB physical frame. */
  type Frame = s: seq<Word> | |s| == 512 witness seq(512, _ => ZERO)

  /** Physical memory: one frame after the other. */
  type Memory = seq<Frame>

  /** VM_PAGE_SIZE and PMM_FRAME_SIZE. */
  const PAGE_SIZE: nat := 4096

  /** PMM_MAX_PHYS: 1GB. */
  const MAX_PHYS: nat := 0x4000_0000

  /** PMM_MAX_PHYS / PMM_FRAME_SIZE: the number of frames below 1GB. */
  const FRAME_COUNT: nat := 262144

  /** VM_HEAP_BASE and VM_HEAP_SIZE. */
  const HEAP_BASE: nat := 0xFFFF_8000_0000_0000
  const HEAP_SIZE: nat := 0x100_0000

  const ZERO := Word(false, 0, false, 0, 0, 0)

  /** VM_PTE_PRESENT | VM_PTE_WRITE, the flags of every table link and heap page. */
  const TABLE_FLAGS := Word(true, 1, false, 0, 0, 0)

  function ZeroFrame(): (z: Frame)
    ensures forall i: Index :: z[i] == ZERO
  {
    seq(512, _ => ZERO)
  }

  /** The entry leads to a further table. */
  predicate Down(e: Word) { e.present && !e.huge }

  /** Bitwise or. */
  function Or(x: nat, y: nat): (r: nat)
    ensures r >= x
    decreases x + y
  {
    if y == 0 then x else if x == 0 then y
    else (if x % 2 == 1 || y % 2 == 1 then 1 else 0) + 2 * Or(x / 2, y / 2)
  }

  /** Bit k of a number. */
  predicate BitSet(n: nat, k: nat) { if k == 0 then n % 2 == 1 else BitSet(n / 2, k - 1) }

  lemma {:induction false} OrIsBitwise(x: nat, y: nat, k: nat)
    ensures BitSet(Or(x, y), k) <==> BitSet(x, k) || BitSet(y, k)
    decreases x + y
  {
    if x == 0 || y == 0 {
      NoBits(k);
    } else if k > 0 {
      OrIsBitwise(x / 2, y / 2, k - 1);
    }
  }

  lemma {:induction false} NoBits(k: nat)
    ensures !BitSet(0, k)
    decreases k
  {
    if k > 0 { NoBits(k - 1); }
  }

  /** The word (pa & VM_ADDR_MASK) | flags for the frame at pa; address bits in flags are not masked out. */
  function Pte(frame: nat, flags: Word): Word { flags.(frame := Or(frame, flags.frame)) }

  // ---- The correspondence with numbers ----

  predicate IsWord(w: Word) {
    w.low < 64 && w.mid < 16 && w.frame < 0x100_0000_0000 && w.high < 4096
  }

  function ToBits(w: Word): (n: nat)
    requires IsWord(w)
    ensures n < WORD_LIMIT
  {
    var from12 := w.frame + w.high * 0x100_0000_0000;
    var from7 := (if w.huge then 1 else 0) + 2 * (w.mid + 16 * from12);
    (if w.present then 1 else 0) + 2 * (w.low + 64 * from7)
  }

  function FromBits(n: nat): (w: Word)
    requires n < WORD_LIMIT
    ensures IsWord(w)
  {
    var from7 := n / 2 / 64;
    var from12 := from7 / 2 / 16;
    Word(n % 2 == 1, n / 2 % 64, from7 % 2 == 1, from7 / 2 % 16,
         from12 % 0x100_0000_0000, from12 / 0x100_0000_0000)
  }

  lemma {:induction false} SmallMultiple(k: int, d: int)
    requires 0 < d && -d < k * d < d
    ensures k == 0
  {
  }

  lemma {:induction false} Quotient(q: nat, r: nat, d: nat)
    requires r < d
    ensures (r + d * q) / d == q && (r + d * q) % d == r
  {
    var x := r + d * q;
    assert (x / d - q) * d == r - x % d;
    SmallMultiple(x / d - q, d);
  }

  /** The fields lose nothing: the model's words are exactly the 64-bit numbers. */
  lemma {:induction false} BitsRoundTrip(n: nat)
    requires n < WORD_LIMIT
    ensures ToBits(FromBits(n)) == n
  {
  }

  /** Where the fields stand: VM_PTE_PRESENT is bit 0, VM_PTE_HUGE bit 7, VM_ADDR_MASK bits 12..51. */
  lemma {:induction false} FieldPositions(n: nat)
    requires n < WORD_LIMIT
    ensures FromBits(n).present <==> n % 2 == 1
    ensures FromBits(n).huge <==> n / 128 % 2 == 1
    ensures FromBits(n).frame == n / 4096 % 0x100_0000_0000
  {
    hide FromBits;
    Shifts(n);
    FieldsAre(n);
  }

  lemma {:induction false} Shifts(n: nat)
    ensures n / 2 / 64 == n / 128 && n / 128 / 2 / 16 == n / 4096
  {
  }

  lemma {:induction false} FieldsAre(n: nat)
    requires n < WORD_LIMIT
    ensures FromBits(n).present <==> n % 2 == 1
    ensures FromBits(n).huge <==> n / 2 / 64 % 2 == 1
    ensures FromBits(n).frame == n / 2 / 64 / 2 / 16 % 0x100_0000_0000
  {
  }

  /** A table link or heap page: the frame's address, with VM_PTE_PRESENT | VM_PTE_WRITE. */
  lemma {:induction false} EntryNumber(frame: nat)
    requires frame < 0x100_0000_0000
    ensures ToBits(Pte(frame, TABLE_FLAGS)) == frame * 4096 + 3
  {
  }

  lemma {:induction false} WordRoundTrip(w: Word)
    requires IsWord(w)
    ensures FromBits(ToBits(w)) == w
  {
    var from12 := w.frame + w.high * 0x100_0000_0000;
    var from7 := (if w.huge then 1 else 0) + 2 * (w.mid + 16 * from12);
    Quotient(w.low + 64 * from7, if w.present then 1 else 0, 2);
    Quotient(from7, w.low, 64);
    Quotient(w.mid + 16 * from12, if w.huge then 1 else 0, 2);
    Quotient(from12, w.mid, 16);
    Quotient(w.high, w.frame, 0x100_0000_0000);
  }
}
