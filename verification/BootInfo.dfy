// mb2_init: the tag walk over the boot information block, filling the caller's
// array of ranges.
module BootInfo {
  import opened Words
  import opened MemoryMap
  import opened BootInfoSpec

  /**
   * `block` is the memory from `info` on, which no sum of addresses wraps round. The
   * result is -1 or the number of ranges, which are then the ones `Parse` finds, at
   * the front of the array.
   */
  method Mb2Init(info: nat, block: seq<Byte>, ranges: array?<Range>, maxRanges: int, infoEnd: array?<nat>)
    returns (count: int)
    requires info + MAX_TOTAL + 0x1_0000_0000 <= WORD_LIMIT && Readable(block)
    requires (ranges != null ==> maxRanges <= ranges.Length) && (infoEnd != null ==> infoEnd.Length == 1)
    modifies ranges, infoEnd
    ensures ranges == null || infoEnd == null || maxRanges <= 0 ==>
      && count == -1
      && (ranges != null ==> ranges[..] == old(ranges[..])) && (infoEnd != null ==> infoEnd[0] == old(infoEnd[0]))
    ensures ranges != null && infoEnd != null && maxRanges > 0 ==>
      && (count >= 0 <==> Parse(info, block, maxRanges).Some?)
      && count >= -1
      && (count >= 0 ==>
            && count <= maxRanges
            && ranges[..count] == Parse(info, block, maxRanges).value
            && ranges[count..] == old(ranges[count..]))
      && infoEnd[0] == if ValidTotal(U32(block, 0)) then info + U32(block, 0) else old(infoEnd[0])
  {
    hide U32, ParseEntries, AlignUp8;
    if ranges == null || infoEnd == null || maxRanges <= 0 {
      return -1;
    }
    var total := U32(block, 0);
    if total == 0 || total > MAX_TOTAL {
      return -1;
    }
    var end := info + total;
    infoEnd[0] := end;
    count := 0;
    var p := info + 8;
    while p + 8 <= end
      invariant info + 8 <= p && 0 <= count <= maxRanges && infoEnd[0] == end
      invariant Parse(info, block, maxRanges) == ParseTags(info, block, total, p - info, maxRanges, ranges[..count])
      invariant ranges[count..] == old(ranges[count..])
      decreases end - p
    {
      var kind := U32(block, p - info);
      var size := U32(block, p - info + 4);
      if kind == TAG_END {
        break;
      }
      if size < 8 || p + size > end {
        return -1;
      }
      if kind == TAG_MMAP {
        if size < 16 {
          return -1;
        }
        var entrySize := U32(block, p - info + 8);
        if entrySize < 24 {
          return -1;
        }
        var ok;
        ok, count := ReadEntries(info, block, p, size, entrySize, ranges, maxRanges, count);
        if !ok {
          return -1;
        }
      }
      p := AlignUp8(p + size);
    }
  }

  /** The inner loop: the entries of one memory-map tag. */
  method ReadEntries(info: nat, block: seq<Byte>, p: nat, size: nat, entrySize: nat,
                     ranges: array<Range>, maxRanges: int, start: nat)
    returns (ok: bool, count: nat)
    requires info <= p && 24 <= entrySize && 16 <= size && p - info + size <= |block|
    requires start <= maxRanges <= ranges.Length
    modifies ranges
    ensures start <= count <= maxRanges && ranges[count..] == old(ranges[count..])
    ensures ParseEntries(block, p - info, size, entrySize, 0, maxRanges, old(ranges[..start])) ==
      if ok then Some(ranges[..count]) else None
  {
    hide U32, EntryCount;
    count := start;
    var entries := EntryCount(size, entrySize);
    for i := 0 to entries
      invariant start <= count <= maxRanges && ranges[count..] == old(ranges[count..])
      invariant ParseEntries(block, p - info, size, entrySize, 0, maxRanges, old(ranges[..start])) ==
        ParseEntries(block, p - info, size, entrySize, i, maxRanges, ranges[..count])
    {
      var e := EntryAt(p, i, entrySize);
      if e + 24 > p + size {
        return false, count;
      }
      var kind := U32(block, e - info + 16);
      if kind != AVAILABLE {
        continue;
      }
      if count >= maxRanges {
        return false, count;
      }
      ranges[count] := Range(U64(block, e - info), U64(block, e - info + 8));
      count := count + 1;
      assert ranges[..count] == ranges[..count - 1] + [ranges[count - 1]];
      assert old(ranges[count..]) == old(ranges[count - 1..])[1..];
    }
    ok := true;
  }
}
