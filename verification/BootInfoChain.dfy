// What mb2_init makes of arbitrary bytes, said without the parser: the chain of tags
// from offset 8 on, where it ends, and which tags are bad.
module BootInfoChain {
  import opened Words
  import opened MemoryMap
  import opened BootInfoSpec

  // ---- Tags and chains ----

  /** There is no room for another tag header at p, or the end tag stands there. */
  predicate AtEnd(b: seq<Byte>, total: nat, p: nat)
    requires total <= |b|
  {
    p + 8 > total || U32(b, p) == TAG_END
  }

  /** The tag at p has an impossible size, or is a memory map with impossible fields. */
  predicate BadTag(b: seq<Byte>, total: nat, p: nat)
    requires total <= |b|
  {
    && !AtEnd(b, total, p)
    && var size := U32(b, p + 4);
       || size < 8 || p + size > total
       || (U32(b, p) == TAG_MMAP && (size < 16 || U32(b, p + 8) < 24))
  }

  predicate GoodTag(b: seq<Byte>, total: nat, p: nat)
    requires total <= |b|
  {
    !AtEnd(b, total, p) && !BadTag(b, total, p)
  }

  /** The tag at p is good and leads to offset q. */
  predicate LeadsTo(info: nat, b: seq<Byte>, total: nat, p: nat, q: nat)
    requires total <= |b|
  {
    GoodTag(b, total, p) && q == NextTag(info, p + U32(b, p + 4))
  }

  /** Offsets of tags, each the one the tag before leads to; all but the last are good. */
  ghost predicate Chain(info: nat, b: seq<Byte>, total: nat, ps: seq<nat>)
    requires total <= |b|
  {
    && ps != [] && (forall k :: 0 <= k < |ps| - 1 ==> GoodTag(b, total, ps[k]))
    && (forall k :: 0 <= k < |ps| - 1 ==> LeadsTo(info, b, total, ps[k], ps[k + 1]))
  }

  /** A chain that cannot be continued: its last tag is the end, or bad. */
  ghost predicate WholeChain(info: nat, b: seq<Byte>, total: nat, p: nat, ps: seq<nat>)
    requires total <= |b|
  {
    Chain(info, b, total, ps) && ps[0] == p && !GoodTag(b, total, ps[|ps| - 1])
  }

  // ---- The available ranges of good tags ----

  /** Entry i is of type 1. */
  predicate Available(b: seq<Byte>, e: nat)
    requires e + 24 <= |b|
  {
    U32(b, e + 16) == AVAILABLE
  }

  /** The available entries i.. of the memory-map tag at `tag`, in order. */
  function RangesFrom(b: seq<Byte>, tag: nat, size: nat, entrySize: nat, i: nat): seq<Range>
    requires 24 <= entrySize && 16 <= size && tag + size <= |b| && i <= EntryCount(size, entrySize)
    decreases EntryCount(size, entrySize) - i
  {
    if i == EntryCount(size, entrySize) then []
    else
      EntriesFit(tag, size, entrySize, i);
      var e := EntryAt(tag, i, entrySize);
      (if Available(b, e) then [Range(U64(b, e), U64(b, e + 8))] else []) + RangesFrom(b, tag, size, entrySize, i + 1)
  }

  function RangesAt(b: seq<Byte>, total: nat, p: nat): seq<Range>
    requires total <= |b| && GoodTag(b, total, p)
  {
    if U32(b, p) == TAG_MMAP then RangesFrom(b, p, U32(b, p + 4), U32(b, p + 8), 0) else []
  }

  /** The available ranges of all good tags of a chain. */
  function RangesOf(b: seq<Byte>, total: nat, ps: seq<nat>): seq<Range>
    requires total <= |b| && forall k :: 0 <= k < |ps| ==> GoodTag(b, total, ps[k])
    decreases |ps|
  {
    if ps == [] then [] else RangesAt(b, total, ps[0]) + RangesOf(b, total, ps[1..])
  }

  // ---- The parser follows the chain ----

  lemma {:induction false} EntriesFollow(b: seq<Byte>, tag: nat, size: nat, entrySize: nat, i: nat, max: nat,
                                         found: seq<Range>)
    requires 24 <= entrySize && 16 <= size && tag + size <= |b| && i <= EntryCount(size, entrySize) && |found| <= max
    ensures ParseEntries(b, tag, size, entrySize, i, max, found) ==
      Extended(found, RangesFrom(b, tag, size, entrySize, i), max)
    decreases EntryCount(size, entrySize) - i
  {
    hide U32, U64, EntryAt, EntryCount;
    if i == EntryCount(size, entrySize) {
      assert found + [] == found;
    } else {
      EntriesFit(tag, size, entrySize, i);
      var e := EntryAt(tag, i, entrySize);
      var rest := RangesFrom(b, tag, size, entrySize, i + 1);
      if !Available(b, e) {
        EntriesFollow(b, tag, size, entrySize, i + 1, max, found);
        assert [] + rest == rest;
      } else if |found| < max {
        var r := Range(U64(b, e), U64(b, e + 8));
        EntriesFollow(b, tag, size, entrySize, i + 1, max, found + [r]);
        Reassociate(found, [r], rest);
      }
    }
  }

  lemma {:induction false} TagFollows(b: seq<Byte>, total: nat, p: nat, max: nat, found: seq<Range>)
    requires total <= |b| && GoodTag(b, total, p) && |found| <= max
    ensures ParseTag(b, p, U32(b, p), U32(b, p + 4), max, found) == Extended(found, RangesAt(b, total, p), max)
  {
    hide U32, ParseEntries, RangesFrom, EntryCount;
    if U32(b, p) == TAG_MMAP {
      EntriesFollow(b, p, U32(b, p + 4), U32(b, p + 8), 0, max, found);
    } else {
      assert found + [] == found;
    }
  }

  /** The parser's answer from a whole chain. */
  lemma {:induction false} TagsFollow(info: nat, b: seq<Byte>, total: nat, p: nat, ps: seq<nat>, max: nat,
                                      found: seq<Range>)
    requires total <= |b| && WholeChain(info, b, total, p, ps) && |found| <= max
    ensures ParseTags(info, b, total, p, max, found) ==
      if BadTag(b, total, ps[|ps| - 1]) then None else Extended(found, RangesOf(b, total, ps[..|ps| - 1]), max)
    decreases |ps|
  {
    hide U32, ParseTag, ParseTags, RangesAt, NextTag, Chain, GoodTag, BadTag, AtEnd;
    ChainIsGood(info, b, total, p, ps);
    var good := ps[..|ps| - 1];
    if |ps| == 1 {
      assert found + [] == found;
      BadTagFails(info, b, total, p, max, found);
    } else {
      ChainTail(info, b, total, p, ps);
      TagFollows(b, total, p, max, found);
      var own, rest := RangesAt(b, total, p), ps[1..];
      assert good[1..] == rest[..|rest| - 1] && good[0] == p;
      GoodTagGoesOn(info, b, total, p, max, found);
      if |found| + |own| <= max {
        TagsFollow(info, b, total, ps[1], rest, max, found + own);
        Reassociate(found, own, RangesOf(b, total, rest[..|rest| - 1]));
      }
    }
  }

  lemma {:induction false} ChainIsGood(info: nat, b: seq<Byte>, total: nat, p: nat, ps: seq<nat>)
    requires total <= |b| && WholeChain(info, b, total, p, ps)
    ensures ps != [] && forall k :: 0 <= k < |ps| - 1 ==> GoodTag(b, total, ps[k])
  {
  }

  /** A whole chain without its first tag is a whole chain. */
  lemma {:induction false} ChainTail(info: nat, b: seq<Byte>, total: nat, p: nat, ps: seq<nat>)
    requires total <= |b| && WholeChain(info, b, total, p, ps) && |ps| > 1
    ensures GoodTag(b, total, p) && ps[1] == NextTag(info, p + U32(b, p + 4))
    ensures WholeChain(info, b, total, ps[1], ps[1..])
  {
    hide U32, NextTag, GoodTag;
    assert LeadsTo(info, b, total, ps[0], ps[1]);
    var rest := ps[1..];
    forall k | 0 <= k < |rest| - 1
      ensures LeadsTo(info, b, total, rest[k], rest[k + 1]) && GoodTag(b, total, rest[k])
    {
      assert LeadsTo(info, b, total, ps[k + 1], ps[k + 2]);
    }
  }

  lemma {:induction false} GoodTagGoesOn(info: nat, b: seq<Byte>, total: nat, p: nat, max: nat, found: seq<Range>)
    requires total <= |b| && GoodTag(b, total, p)
    ensures var more := ParseTag(b, p, U32(b, p), U32(b, p + 4), max, found);
      ParseTags(info, b, total, p, max, found) ==
        if more.None? then None else ParseTags(info, b, total, NextTag(info, p + U32(b, p + 4)), max, more.value)
  {
    hide U32, ParseTag, NextTag;
  }

  lemma {:induction false} BadTagFails(info: nat, b: seq<Byte>, total: nat, p: nat, max: nat, found: seq<Range>)
    requires total <= |b| && !GoodTag(b, total, p)
    ensures ParseTags(info, b, total, p, max, found) == if BadTag(b, total, p) then None else Some(found)
  {
    hide U32, ParseEntries, NextTag, EntryCount;
  }

  /** From every offset there is a whole chain. */
  lemma {:induction false} ChainExists(info: nat, b: seq<Byte>, total: nat, p: nat) returns (ps: seq<nat>)
    requires total <= |b|
    ensures WholeChain(info, b, total, p, ps)
    decreases total - p
  {
    hide U32, NextTag, WholeChain, Chain;
    ps := [p];
    if GoodTag(b, total, p) {
      var next := NextTag(info, p + U32(b, p + 4));
      var rest := ChainExists(info, b, total, next);
      ps := [p] + rest;
      ChainGrows(info, b, total, p, rest);
    } else {
      LoneTag(info, b, total, p);
    }
  }

  lemma {:induction false} LoneTag(info: nat, b: seq<Byte>, total: nat, p: nat)
    requires total <= |b| && !GoodTag(b, total, p)
    ensures WholeChain(info, b, total, p, [p])
  {
  }

  lemma {:induction false} ChainGrows(info: nat, b: seq<Byte>, total: nat, p: nat, rest: seq<nat>)
    requires total <= |b| && GoodTag(b, total, p)
    requires WholeChain(info, b, total, NextTag(info, p + U32(b, p + 4)), rest)
    ensures WholeChain(info, b, total, p, [p] + rest)
  {
    hide U32, NextTag, GoodTag, LeadsTo;
    var ps := [p] + rest;
    FirstLink(info, b, total, p);
    forall k | 0 <= k < |ps| - 1
      ensures LeadsTo(info, b, total, ps[k], ps[k + 1]) && GoodTag(b, total, ps[k])
    {
      if k > 0 { assert LeadsTo(info, b, total, rest[k - 1], rest[k]); }
    }
  }

  lemma {:induction false} FirstLink(info: nat, b: seq<Byte>, total: nat, p: nat)
    requires total <= |b| && GoodTag(b, total, p)
    ensures LeadsTo(info, b, total, p, NextTag(info, p + U32(b, p + 4)))
  {
  }

  /**
   * On arbitrary bytes: mb2_init fails exactly if the announced size is impossible, the
   * chain of tags from offset 8 runs into a bad tag, or its tags hold more available
   * ranges than there is room for; otherwise it returns all of them in order.
   */
  lemma {:induction false} ParseFollowsChain(info: nat, b: seq<Byte>, max: nat, ps: seq<nat>)
    requires Readable(b) && (ValidTotal(U32(b, 0)) ==> WholeChain(info, b, U32(b, 0), 8, ps))
    ensures Parse(info, b, max) ==
      if !ValidTotal(U32(b, 0)) || BadTag(b, U32(b, 0), ps[|ps| - 1]) then None
      else
        var ranges := RangesOf(b, U32(b, 0), ps[..|ps| - 1]);
        if |ranges| <= max then Some(ranges) else None
  {
    hide U32, ParseTags, RangesOf;
    if ValidTotal(U32(b, 0)) {
      TagsFollow(info, b, U32(b, 0), 8, ps, max, []);
      var ranges := RangesOf(b, U32(b, 0), ps[..|ps| - 1]);
      assert [] + ranges == ranges;
    }
  }

  /** The chain runs into a bad tag, or holds too many ranges. */
  ghost predicate Fails(info: nat, b: seq<Byte>, total: nat, max: nat, ps: seq<nat>)
    requires total <= |b|
  {
    && WholeChain(info, b, total, 8, ps)
    && (BadTag(b, total, ps[|ps| - 1]) || |RangesOf(b, total, ps[..|ps| - 1])| > max)
  }

  /** The same as a condition for failure alone. */
  lemma {:induction false} ParseFailsIff(info: nat, b: seq<Byte>, max: nat)
    requires Readable(b)
    ensures Parse(info, b, max).None? <==>
      || U32(b, 0) == 0 || U32(b, 0) > 0x10_0000
      || exists ps :: Fails(info, b, U32(b, 0), max, ps)
  {
    hide U32, Parse, RangesOf;
    if ValidTotal(U32(b, 0)) {
      var ps := ChainExists(info, b, U32(b, 0), 8);
      ParseFollowsChain(info, b, max, ps);
      assert Parse(info, b, max).None? ==> Fails(info, b, U32(b, 0), max, ps);
      if qs :| Fails(info, b, U32(b, 0), max, qs) { ParseFollowsChain(info, b, max, qs); }
    } else {
      Impossible(info, b, max);
    }
  }

  lemma {:induction false} Impossible(info: nat, b: seq<Byte>, max: nat)
    requires Readable(b) && !ValidTotal(U32(b, 0))
    ensures Parse(info, b, max) == None
  {
  }
}
