// The Multiboot2 boot information block (section 3.6 of the Multiboot2
// Specification version 2.0): what the parser computes on the bytes of a block.
module BootInfoSpec {
  import opened Words
  import opened MemoryMap

  const MAX_TOTAL: nat := 0x10_0000
  const TAG_END: nat := 0
  const TAG_MMAP: nat := 6
  const AVAILABLE: nat := 1

  // ---- Little-endian numbers ----

  function U32(b: seq<Byte>, at: nat): (n: nat)
    requires at + 4 <= |b|
    ensures n < 0x1_0000_0000
  {
    var b0: int, b1: int, b2: int, b3: int := b[at], b[at + 1], b[at + 2], b[at + 3];
    b0 + 256 * (b1 + 256 * (b2 + 256 * b3))
  }

  function U64(b: seq<Byte>, at: nat): (n: nat)
    requires at + 8 <= |b|
    ensures n < WORD_LIMIT
  {
    U32(b, at) + 0x1_0000_0000 * U32(b, at + 4)
  }

  function Bytes32(n: nat): (b: seq<Byte>)
    requires n < 0x1_0000_0000
    ensures |b| == 4
  {
    [n % 256, n / 256 % 256, n / 256 / 256 % 256, n / 256 / 256 / 256]
  }

  function Bytes64(n: nat): (b: seq<Byte>)
    requires n < WORD_LIMIT
    ensures |b| == 8
  {
    Bytes32(n % 0x1_0000_0000) + Bytes32(n / 0x1_0000_0000)
  }

  /** The lowest byte comes first. */
  lemma {:induction false} LittleEndian(b: seq<Byte>, at: nat)
    requires at + 8 <= |b|
    ensures U32(b, at) % 256 == b[at] && U32(b, at) / 256 % 256 == b[at + 1]
    ensures U32(b, at) / 256 / 256 % 256 == b[at + 2] && U32(b, at) / 256 / 256 / 256 == b[at + 3]
    ensures U64(b, at) % 0x1_0000_0000 == U32(b, at) && U64(b, at) / 0x1_0000_0000 == U32(b, at + 4)
  {
    FourBytes(b[at], b[at + 1], b[at + 2], b[at + 3]);
    hide U32;
    Quotient(U32(b, at + 4), U32(b, at), 0x1_0000_0000);
  }

  lemma {:induction false} FourBytes(b0: int, b1: int, b2: int, b3: int)
    requires 0 <= b0 < 256 && 0 <= b1 < 256 && 0 <= b2 < 256 && 0 <= b3 < 256
    ensures var n := b0 + 256 * (b1 + 256 * (b2 + 256 * b3));
      n % 256 == b0 && n / 256 % 256 == b1 && n / 256 / 256 % 256 == b2 && n / 256 / 256 / 256 == b3
  {
    Quotient(b3, b2, 256);
    Quotient(b2 + 256 * b3, b1, 256);
    Quotient(b1 + 256 * (b2 + 256 * b3), b0, 256);
  }

  // ---- The parser ----

  function AlignUp8(x: nat): (r: nat)
    ensures x <= r < x + 8 && r % 8 == 0
  {
    (x + 7) / 8 * 8
  }

  function EntryCount(size: nat, entrySize: nat): nat
    requires 24 <= entrySize && 16 <= size
  {
    (size - 16) / entrySize
  }

  /** Where entry i of the memory-map tag at `tag` starts. */
  function EntryAt(tag: nat, i: nat, entrySize: nat): nat { tag + 16 + i * entrySize }

  /** The entries i.. of the memory-map tag at `tag`, appended to `found`; None is the -1 of mb2_init. */
  function ParseEntries(b: seq<Byte>, tag: nat, size: nat, entrySize: nat, i: nat, max: nat, found: seq<Range>)
    : (r: Option<seq<Range>>)
    requires 24 <= entrySize && 16 <= size && tag + size <= |b| && i <= EntryCount(size, entrySize)
    decreases EntryCount(size, entrySize) - i
  {
    if i == EntryCount(size, entrySize) then Some(found)
    else
      var e := EntryAt(tag, i, entrySize);
      if e + 24 > tag + size then None
      else if U32(b, e + 16) != AVAILABLE then ParseEntries(b, tag, size, entrySize, i + 1, max, found)
      else if |found| >= max then None
      else ParseEntries(b, tag, size, entrySize, i + 1, max, found + [Range(U64(b, e), U64(b, e + 8))])
  }

  /** What one tag adds. */
  function ParseTag(b: seq<Byte>, tag: nat, kind: nat, size: nat, max: nat, found: seq<Range>): (r: Option<seq<Range>>)
    requires 8 <= size && tag + size <= |b|
  {
    if kind != TAG_MMAP then Some(found)
    else if size < 16 || U32(b, tag + 8) < 24 then None
    else ParseEntries(b, tag, size, U32(b, tag + 8), 0, max, found)
  }

  /** The offset of the tag after one that ends at offset x: addresses, not offsets, are aligned. */
  function NextTag(info: nat, x: nat): (r: nat)
    ensures x <= r < x + 8 && (info + r) % 8 == 0
  {
    AlignUp8(info + x) - info
  }

  /** The tags from offset p on, of a block at address `info`. */
  function ParseTags(info: nat, b: seq<Byte>, total: nat, p: nat, max: nat, found: seq<Range>): (r: Option<seq<Range>>)
    requires total <= |b|
    decreases total - p
  {
    if p + 8 > total then Some(found)
    else
      var kind, size := U32(b, p), U32(b, p + 4);
      if kind == TAG_END then Some(found)
      else if size < 8 || p + size > total then None
      else
        var more := ParseTag(b, p, kind, size, max, found);
        if more.None? then None else ParseTags(info, b, total, NextTag(info, p + size), max, more.value)
  }

  predicate ValidTotal(total: nat) { 0 < total <= MAX_TOTAL }

  /** At least the size field is there, and, if it is sensible, the block it announces. */
  predicate Readable(b: seq<Byte>) {
    |b| >= 4 && (ValidTotal(U32(b, 0)) ==> U32(b, 0) <= |b|)
  }

  function Parse(info: nat, b: seq<Byte>, max: nat): (r: Option<seq<Range>>)
    requires Readable(b)
  {
    var total := U32(b, 0);
    if !ValidTotal(total) then None else ParseTags(info, b, total, 8, max, [])
  }

  /** The parser's answer once the ranges `more` are found after `found`. */
  function Extended(found: seq<Range>, more: seq<Range>, max: nat): Option<seq<Range>> {
    if |found| + |more| <= max then Some(found + more) else None
  }

  lemma {:induction false} Reassociate<T>(x: seq<T>, y: seq<T>, z: seq<T>)
    ensures x + y + z == x + (y + z)
  {
  }

  /** The check for a truncated last entry never fires: every counted entry fits. */
  lemma {:induction false} EntriesFit(tag: nat, size: nat, entrySize: nat, i: nat)
    requires 24 <= entrySize && 16 <= size && i < EntryCount(size, entrySize)
    ensures EntryAt(tag, i, entrySize) + 24 <= tag + size
  {
    var n := EntryCount(size, entrySize);
    assert n * entrySize <= size - 16;
    assert (i + 1) * entrySize <= n * entrySize;
  }

  /** No more ranges are found than there is room for, and all of them are 64-bit. */
  predicate GoodRanges(found: seq<Range>, max: nat) {
    |found| <= max && forall i :: 0 <= i < |found| ==> IsRange(found[i])
  }

  lemma {:induction false} EntriesGood(b: seq<Byte>, tag: nat, size: nat, entrySize: nat, i: nat, max: nat,
                                       found: seq<Range>)
    requires 24 <= entrySize && 16 <= size && tag + size <= |b| && i <= EntryCount(size, entrySize)
    requires GoodRanges(found, max)
    ensures var r := ParseEntries(b, tag, size, entrySize, i, max, found); r.Some? ==> GoodRanges(r.value, max)
    decreases EntryCount(size, entrySize) - i
  {
    hide U32, EntryAt, EntryCount;
    if i < EntryCount(size, entrySize) {
      var e := EntryAt(tag, i, entrySize);
      EntriesFit(tag, size, entrySize, i);
      EntriesGood(b, tag, size, entrySize, i + 1, max, found);
      if |found| < max {
        EntriesGood(b, tag, size, entrySize, i + 1, max, found + [Range(U64(b, e), U64(b, e + 8))]);
      }
    }
  }

  lemma {:induction false} TagsGood(info: nat, b: seq<Byte>, total: nat, p: nat, max: nat, found: seq<Range>)
    requires total <= |b| && GoodRanges(found, max)
    ensures var r := ParseTags(info, b, total, p, max, found); r.Some? ==> GoodRanges(r.value, max)
    decreases total - p
  {
    hide U32, ParseEntries, EntryCount, AlignUp8, NextTag;
    if p + 8 <= total {
      var kind, size := U32(b, p), U32(b, p + 4);
      if size >= 8 && p + size <= total {
        if kind == TAG_MMAP && size >= 16 && U32(b, p + 8) >= 24 {
          EntriesGood(b, p, size, U32(b, p + 8), 0, max, found);
        }
        var more := ParseTag(b, p, kind, size, max, found);
        if more.Some? {
          TagsGood(info, b, total, NextTag(info, p + size), max, more.value);
        }
      }
    }
  }

  lemma {:induction false} ParseGood(info: nat, b: seq<Byte>, max: nat)
    requires Readable(b)
    ensures Parse(info, b, max).Some? ==> GoodRanges(Parse(info, b, max).value, max)
  {
    if ValidTotal(U32(b, 0)) {
      TagsGood(info, b, U32(b, 0), 8, max, []);
    }
  }

  // ---- Only the block itself is read ----

  lemma {:induction false} U32Local(b: seq<Byte>, c: seq<Byte>, n: nat, at: nat)
    requires at + 4 <= n <= |b| && n <= |c| && b[..n] == c[..n]
    ensures U32(b, at) == U32(c, at)
  {
  }

  lemma {:induction false} EntriesLocal(b: seq<Byte>, c: seq<Byte>, n: nat, tag: nat, size: nat, entrySize: nat,
                                        i: nat, max: nat, found: seq<Range>)
    requires 24 <= entrySize && 16 <= size && tag + size <= n <= |b| && n <= |c| && b[..n] == c[..n]
    requires i <= EntryCount(size, entrySize)
    ensures ParseEntries(b, tag, size, entrySize, i, max, found) == ParseEntries(c, tag, size, entrySize, i, max, found)
    decreases EntryCount(size, entrySize) - i
  {
    hide U32, EntryAt, EntryCount;
    if i < EntryCount(size, entrySize) {
      EntriesFit(tag, size, entrySize, i);
      var e := EntryAt(tag, i, entrySize);
      U32Local(b, c, n, e + 16);
      U32Local(b, c, n, e);
      U32Local(b, c, n, e + 4);
      U32Local(b, c, n, e + 8);
      U32Local(b, c, n, e + 12);
      EntriesLocal(b, c, n, tag, size, entrySize, i + 1, max, found);
      EntriesLocal(b, c, n, tag, size, entrySize, i + 1, max, found + [Range(U64(b, e), U64(b, e + 8))]);
    }
  }

  lemma {:induction false} TagLocal(b: seq<Byte>, c: seq<Byte>, n: nat, tag: nat, kind: nat, size: nat, max: nat,
                                    found: seq<Range>)
    requires 8 <= size && tag + size <= n <= |b| && n <= |c| && b[..n] == c[..n]
    ensures ParseTag(b, tag, kind, size, max, found) == ParseTag(c, tag, kind, size, max, found)
  {
    hide U32, ParseEntries, EntryCount;
    if size >= 16 {
      U32Local(b, c, n, tag + 8);
      if U32(b, tag + 8) >= 24 {
        EntriesLocal(b, c, n, tag, size, U32(b, tag + 8), 0, max, found);
      }
    }
  }

  lemma {:induction false} TagsLocal(info: nat, b: seq<Byte>, c: seq<Byte>, total: nat, p: nat, max: nat,
                                     found: seq<Range>)
    requires total <= |b| && total <= |c| && b[..total] == c[..total]
    ensures ParseTags(info, b, total, p, max, found) == ParseTags(info, c, total, p, max, found)
    decreases total - p
  {
    hide U32, ParseTag, NextTag;
    if p + 8 <= total {
      U32Local(b, c, total, p);
      U32Local(b, c, total, p + 4);
      var kind, size := U32(b, p), U32(b, p + 4);
      if size >= 8 && p + size <= total {
        TagLocal(b, c, total, p, kind, size, max, found);
        var more := ParseTag(b, p, kind, size, max, found);
        if more.Some? {
          TagsLocal(info, b, c, total, NextTag(info, p + size), max, more.value);
        }
      }
    }
  }

  /** Bytes beyond the announced size have no influence. */
  lemma {:induction false} ReadsOnlyTheBlock(info: nat, b: seq<Byte>, c: seq<Byte>, max: nat)
    requires Readable(b) && Readable(c) && 4 <= U32(b, 0)
    requires U32(b, 0) <= |b| && U32(b, 0) <= |c| && b[..U32(b, 0)] == c[..U32(b, 0)]
    ensures Parse(info, b, max) == Parse(info, c, max)
  {
    var total := U32(b, 0);
    U32Local(b, c, total, 0);
    if ValidTotal(total) {
      TagsLocal(info, b, c, total, 8, max, []);
    }
  }
}
