// Laying out a boot information block and parsing it back.
module BootInfoRoundTrip {
  import opened Words
  import opened MemoryMap
  import opened BootInfoSpec

  /** A memory-map entry; `extra` fills entries larger than the 24 bytes in use. */
  datatype Entry = Entry(base: nat, length: nat, kind: nat, reserved: nat, extra: seq<Byte>)

  /**
   * A tag. `pad` brings its length to a multiple of 8; `slack` is room at the end
   * of a memory map too small for another entry.
   */
  datatype Tag =
    | MemoryMapTag(entrySize: nat, version: nat, entries: seq<Entry>, slack: seq<Byte>, pad: seq<Byte>)
    | OtherTag(kind: nat, payload: seq<Byte>, pad: seq<Byte>)

  predicate Fits32(n: nat) { n < 0x1_0000_0000 }

  predicate ValidEntry(e: Entry, entrySize: nat) {
    e.base < WORD_LIMIT && e.length < WORD_LIMIT && Fits32(e.kind) && Fits32(e.reserved)
    && 24 + |e.extra| == entrySize
  }

  predicate ValidEntries(es: seq<Entry>, entrySize: nat) {
    forall i :: 0 <= i < |es| ==> ValidEntry(es[i], entrySize)
  }

  function EntryBytes(e: Entry): (b: seq<Byte>)
    requires ValidEntry(e, 24 + |e.extra|)
    ensures |b| == 24 + |e.extra|
  {
    Bytes64(e.base) + Bytes64(e.length) + Bytes32(e.kind) + Bytes32(e.reserved) + e.extra
  }

  function EntriesBytes(es: seq<Entry>, entrySize: nat): (b: seq<Byte>)
    requires ValidEntries(es, entrySize)
  {
    if es == [] then []
    else
      assert ValidEntry(es[0], entrySize);
      EntryBytes(es[0]) + EntriesBytes(es[1..], entrySize)
  }

  lemma {:induction false} EntriesLength(es: seq<Entry>, entrySize: nat)
    requires ValidEntries(es, entrySize)
    ensures |EntriesBytes(es, entrySize)| == |es| * entrySize
  {
    if es != [] {
      EntriesLength(es[1..], entrySize);
      assert ValidEntry(es[0], entrySize);
      assert |es| * entrySize == entrySize + (|es| - 1) * entrySize;
    }
  }

  /** The size field of a tag: padding is not counted. */
  function TagSize(t: Tag): nat {
    match t
    case MemoryMapTag(entrySize, _, entries, slack, _) => 16 + |entries| * entrySize + |slack|
    case OtherTag(_, payload, _) => 8 + |payload|
  }

  predicate ValidTag(t: Tag) {
    && Fits32(TagSize(t)) && (TagSize(t) + |t.pad|) % 8 == 0 && |t.pad| < 8
    && match t
       case MemoryMapTag(entrySize, version, entries, slack, _) =>
         && 24 <= entrySize && Fits32(entrySize) && Fits32(version)
         && ValidEntries(entries, entrySize) && |slack| < entrySize
       case OtherTag(kind, _, _) => Fits32(kind) && kind != TAG_END && kind != TAG_MMAP
  }

  function TagBytes(t: Tag): (b: seq<Byte>)
    requires ValidTag(t)
    ensures |b| == TagSize(t) + |t.pad|
  {
    match t
    case MemoryMapTag(entrySize, version, entries, slack, pad) =>
      EntriesLength(entries, entrySize);
      Bytes32(TAG_MMAP) + (Bytes32(TagSize(t)) + (Bytes32(entrySize) + (Bytes32(version)
      + (EntriesBytes(entries, entrySize) + (slack + pad)))))
    case OtherTag(kind, payload, pad) => Bytes32(kind) + (Bytes32(TagSize(t)) + (payload + pad))
  }

  predicate ValidTags(ts: seq<Tag>) {
    forall i :: 0 <= i < |ts| ==> ValidTag(ts[i])
  }

  function TagsBytes(ts: seq<Tag>): (b: seq<Byte>)
    requires ValidTags(ts)
  {
    if ts == [] then [] else TagBytes(ts[0]) + TagsBytes(ts[1..])
  }

  /** The tags, the end tag and whatever follows it. */
  function Body(ts: seq<Tag>, tail: seq<Byte>): seq<Byte>
    requires ValidTags(ts)
  {
    TagsBytes(ts) + (Bytes32(TAG_END) + (Bytes32(8) + tail))
  }

  /** A whole block: total size, a reserved word, and the body. */
  function Block(ts: seq<Tag>, reserved: nat, tail: seq<Byte>): (b: seq<Byte>)
    requires ValidTags(ts) && Fits32(reserved) && 8 + |Body(ts, tail)| <= MAX_TOTAL
    ensures |b| == 8 + |Body(ts, tail)|
  {
    Bytes32(8 + |Body(ts, tail)|) + (Bytes32(reserved) + Body(ts, tail))
  }

  /** The available ranges, in order. */
  function AvailableEntries(es: seq<Entry>): seq<Range> {
    if es == [] then []
    else (if es[0].kind == AVAILABLE then [Range(es[0].base, es[0].length)] else []) + AvailableEntries(es[1..])
  }

  function AvailableRanges(ts: seq<Tag>): seq<Range> {
    if ts == [] then []
    else (if ts[0].MemoryMapTag? then AvailableEntries(ts[0].entries) else []) + AvailableRanges(ts[1..])
  }

  // ---- Reading back ----

  /** `bytes` stand in b from offset `at` on. */
  predicate Holds(b: seq<Byte>, at: nat, bytes: seq<Byte>) {
    at + |bytes| <= |b| && b[at..at + |bytes|] == bytes
  }

  lemma {:induction false} HoldsSplit(b: seq<Byte>, at: nat, x: seq<Byte>, y: seq<Byte>)
    requires Holds(b, at, x + y)
    ensures Holds(b, at, x) && Holds(b, at + |x|, y)
  {
    assert b[at..at + |x|] == (x + y)[..|x|] == x;
    assert b[at + |x|..at + |x| + |y|] == (x + y)[|x|..] == y;
  }

  lemma {:induction false} Holds32(b: seq<Byte>, at: nat, n: nat)
    requires n < 0x1_0000_0000 && Holds(b, at, Bytes32(n))
    ensures U32(b, at) == n
  {
    var w := Bytes32(n);
    assert forall k :: 0 <= k < 4 ==> b[at + k] == b[at..at + 4][k] == w[k];
    assert b[at] == w[0] && b[at + 1] == w[1] && b[at + 2] == w[2] && b[at + 3] == w[3];
  }

  lemma {:induction false} Holds64(b: seq<Byte>, at: nat, n: nat)
    requires n < WORD_LIMIT && Holds(b, at, Bytes64(n))
    ensures U64(b, at) == n
  {
    HoldsSplit(b, at, Bytes32(n % 0x1_0000_0000), Bytes32(n / 0x1_0000_0000));
    Holds32(b, at, n % 0x1_0000_0000);
    Holds32(b, at + 4, n / 0x1_0000_0000);
  }

  lemma {:induction false} EntryReads(b: seq<Byte>, at: nat, e: Entry)
    requires ValidEntry(e, 24 + |e.extra|) && Holds(b, at, EntryBytes(e))
    ensures U64(b, at) == e.base && U64(b, at + 8) == e.length && U32(b, at + 16) == e.kind
  {
    hide Bytes32, Bytes64, U32, U64, Holds;
    var head := Bytes64(e.base) + Bytes64(e.length) + Bytes32(e.kind);
    assert EntryBytes(e) == head + (Bytes32(e.reserved) + e.extra);
    HoldsSplit(b, at, head, Bytes32(e.reserved) + e.extra);
    HoldsSplit(b, at, Bytes64(e.base) + Bytes64(e.length), Bytes32(e.kind));
    HoldsSplit(b, at, Bytes64(e.base), Bytes64(e.length));
    Holds64(b, at, e.base);
    Holds64(b, at + 8, e.length);
    Holds32(b, at + 16, e.kind);
  }

  lemma {:induction false} NextEntry(tag: nat, i: nat, entrySize: nat)
    ensures EntryAt(tag, i + 1, entrySize) == EntryAt(tag, i, entrySize) + entrySize
  {
  }

  lemma {:induction false} EntriesRoundTrip(b: seq<Byte>, tag: nat, size: nat, entrySize: nat, i: nat,
                                            es: seq<Entry>, max: nat, found: seq<Range>)
    requires 24 <= entrySize && 16 <= size && tag + size <= |b| && |found| <= max
    requires i + |es| == EntryCount(size, entrySize) && ValidEntries(es, entrySize)
    requires Holds(b, EntryAt(tag, i, entrySize), EntriesBytes(es, entrySize))
    ensures ParseEntries(b, tag, size, entrySize, i, max, found) == Extended(found, AvailableEntries(es), max)
    decreases |es|
  {
    hide Bytes32, Bytes64, U32, U64, Holds, EntryCount, EntryBytes, EntryAt;
    if es == [] {
      assert found + [] == found;
    } else {
      var e, at := es[0], EntryAt(tag, i, entrySize);
      assert ValidEntry(e, entrySize) && ValidEntries(es[1..], entrySize);
      EntriesFit(tag, size, entrySize, i);
      NextEntry(tag, i, entrySize);
      HoldsSplit(b, at, EntryBytes(e), EntriesBytes(es[1..], entrySize));
      EntryReads(b, at, e);
      if e.kind != AVAILABLE {
        EntriesRoundTrip(b, tag, size, entrySize, i + 1, es[1..], max, found);
        assert AvailableEntries(es) == AvailableEntries(es[1..]);
      } else if |found| < max {
        var r := Range(e.base, e.length);
        EntriesRoundTrip(b, tag, size, entrySize, i + 1, es[1..], max, found + [r]);
        Reassociate(found, [r], AvailableEntries(es[1..]));
      }
    }
  }

  lemma {:induction false} CountedEntries(n: nat, entrySize: nat, slack: nat)
    requires 24 <= entrySize && slack < entrySize
    ensures EntryCount(16 + n * entrySize + slack, entrySize) == n
  {
    Quotient(n, slack, entrySize);
    assert slack + entrySize * n == n * entrySize + slack;
  }

  /** A tag's header reads back. */
  lemma {:induction false} HeaderReads(b: seq<Byte>, p: nat, t: Tag)
    requires ValidTag(t) && Holds(b, p, TagBytes(t))
    ensures p + TagSize(t) + |t.pad| <= |b| && TagSize(t) >= 8
    ensures U32(b, p) == (if t.MemoryMapTag? then TAG_MMAP else t.kind) && U32(b, p + 4) == TagSize(t)
    ensures t.MemoryMapTag? ==>
      U32(b, p + 8) == t.entrySize && Holds(b, p + 16, EntriesBytes(t.entries, t.entrySize))
  {
    hide Bytes32, U32, Holds, EntriesBytes, ValidEntries, TagSize;
    HoldsInside(b, p, TagBytes(t));
    var size := Bytes32(TagSize(t));
    match t
    case OtherTag(kind, payload, pad) =>
      HoldsSplit(b, p, Bytes32(kind), size + (payload + pad));
      HoldsSplit(b, p + 4, size, payload + pad);
      Holds32(b, p, kind);
      Holds32(b, p + 4, TagSize(t));
      SizeAtLeast(t);
    case MemoryMapTag(entrySize, version, entries, slack, pad) =>
      var afterVersion := EntriesBytes(entries, entrySize) + (slack + pad);
      var afterSize := Bytes32(entrySize) + (Bytes32(version) + afterVersion);
      HoldsSplit(b, p, Bytes32(TAG_MMAP), size + afterSize);
      HoldsSplit(b, p + 4, size, afterSize);
      HoldsSplit(b, p + 8, Bytes32(entrySize), Bytes32(version) + afterVersion);
      HoldsSplit(b, p + 12, Bytes32(version), afterVersion);
      HoldsSplit(b, p + 16, EntriesBytes(entries, entrySize), slack + pad);
      Holds32(b, p, TAG_MMAP);
      Holds32(b, p + 4, TagSize(t));
      Holds32(b, p + 8, entrySize);
      SizeAtLeast(t);
  }

  lemma {:induction false} SizeAtLeast(t: Tag)
    ensures TagSize(t) >= if t.MemoryMapTag? then 16 else 8
  {
  }

  /** What a tag adds are its available ranges. */
  lemma {:induction false} TagRoundTrip(b: seq<Byte>, p: nat, t: Tag, max: nat, found: seq<Range>)
    requires ValidTag(t) && Holds(b, p, TagBytes(t)) && |found| <= max
    ensures p + TagSize(t) + |t.pad| <= |b| && TagSize(t) >= 8
    ensures ParseTag(b, p, U32(b, p), TagSize(t), max, found) ==
      Extended(found, if t.MemoryMapTag? then AvailableEntries(t.entries) else [], max)
  {
    hide Bytes32, U32, U64, Holds, TagBytes, EntriesBytes, EntryCount, ParseEntries, ValidEntries;
    HeaderReads(b, p, t);
    if t.MemoryMapTag? {
      CountedEntries(|t.entries|, t.entrySize, |t.slack|);
      EntriesRoundTrip(b, p, TagSize(t), t.entrySize, 0, t.entries, max, found);
    } else {
      assert found + [] == found;
    }
  }

  lemma {:induction false} HoldsInside(b: seq<Byte>, at: nat, bytes: seq<Byte>)
    requires Holds(b, at, bytes)
    ensures at + |bytes| <= |b|
  {
  }

  /** The padding brings the walk to the next tag. */
  lemma {:induction false} NextAfterPad(info: nat, p: nat, size: nat, pad: nat)
    requires info % 8 == 0 && p % 8 == 0 && (size + pad) % 8 == 0 && pad < 8
    ensures NextTag(info, p + size) == p + size + pad && (p + size + pad) % 8 == 0
  {
  }

  lemma {:induction false} TagsRoundTrip(info: nat, b: seq<Byte>, p: nat, ts: seq<Tag>, tail: seq<Byte>, max: nat,
                                         found: seq<Range>)
    requires ValidTags(ts) && info % 8 == 0 && p % 8 == 0 && |found| <= max
    requires Holds(b, p, Body(ts, tail)) && p + |Body(ts, tail)| == |b|
    ensures ParseTags(info, b, |b|, p, max, found) == Extended(found, AvailableRanges(ts), max)
    decreases |ts|
  {
    hide Bytes32, U32, Holds, TagBytes, TagSize, ParseTag, AvailableEntries, ValidEntries, NextTag;
    if ts == [] {
      assert Body(ts, tail) == Bytes32(TAG_END) + (Bytes32(8) + tail);
      HoldsSplit(b, p, Bytes32(TAG_END), Bytes32(8) + tail);
      Holds32(b, p, TAG_END);
      assert found + [] == found;
    } else {
      var t := ts[0];
      assert ValidTag(t) && ValidTags(ts[1..]);
      Reassociate(TagBytes(t), TagsBytes(ts[1..]), Bytes32(TAG_END) + (Bytes32(8) + tail));
      HoldsSplit(b, p, TagBytes(t), Body(ts[1..], tail));
      HeaderReads(b, p, t);
      TagRoundTrip(b, p, t, max, found);
      var next := p + TagSize(t) + |t.pad|;
      NextAfterPad(info, p, TagSize(t), |t.pad|);
      var own := if t.MemoryMapTag? then AvailableEntries(t.entries) else [];
      if |found| + |own| <= max {
        TagsRoundTrip(info, b, next, ts[1..], tail, max, found + own);
        Reassociate(found, own, AvailableRanges(ts[1..]));
      }
    }
  }

  /**
   * Every block of at most 1MB, laid out at a multiple of 8, parses to exactly its
   * available ranges, in order, or to an error if there are more than the caller has
   * room for.
   */
  lemma {:induction false} BlockRoundTrip(info: nat, ts: seq<Tag>, reserved: nat, tail: seq<Byte>, max: nat)
    requires info % 8 == 0 && ValidTags(ts) && Fits32(reserved) && 8 + |Body(ts, tail)| <= MAX_TOTAL
    ensures Readable(Block(ts, reserved, tail))
    ensures Parse(info, Block(ts, reserved, tail), max) ==
      if |AvailableRanges(ts)| <= max then Some(AvailableRanges(ts)) else None
  {
    hide Bytes32, U32, TagsBytes, Body;
    var b, body := Block(ts, reserved, tail), Body(ts, tail);
    assert Holds(b, 0, Bytes32(|b|) + (Bytes32(reserved) + body));
    HoldsSplit(b, 0, Bytes32(|b|), Bytes32(reserved) + body);
    HoldsSplit(b, 4, Bytes32(reserved), body);
    Holds32(b, 0, |b|);
    TagsRoundTrip(info, b, 8, ts, tail, max, []);
    assert [] + AvailableRanges(ts) == AvailableRanges(ts);
  }
}
