// What the physical allocator promises, on the sequence of "in use" bits.
module FrameSpec {
  import opened Words

  /** The lowest clear bit at or after `from`. */
  function LowestFreeFrom(used: seq<bool>, from: nat): (r: Option<nat>)
    requires from <= |used|
    ensures r.Some? ==> from <= r.value < |used| && !used[r.value] && forall j :: from <= j < r.value ==> used[j]
    ensures r.None? ==> forall j :: from <= j < |used| ==> used[j]
    decreases |used| - from
  {
    if from == |used| then None
    else if !used[from] then Some(from)
    else LowestFreeFrom(used, from + 1)
  }

  /** A scan from frame zero: the allocator without its hint. */
  function LowestFree(used: seq<bool>): (r: Option<nat>)
    ensures r.Some? ==> r.value < |used| && !used[r.value] && forall j :: 0 <= j < r.value ==> used[j]
    ensures r.None? ==> forall j :: 0 <= j < |used| ==> used[j]
  {
    LowestFreeFrom(used, 0)
  }

  /** The number of clear bits. */
  function CountFree(used: seq<bool>): nat {
    if used == [] then 0 else CountFree(used[..|used| - 1]) + if used[|used| - 1] then 0 else 1
  }

  lemma {:induction false} CountFreeUpdate(used: seq<bool>, f: nat, b: bool)
    requires f < |used|
    ensures CountFree(used[f := b]) == CountFree(used) + (if used[f] then 1 else 0) - (if b then 1 else 0)
  {
    var n := |used| - 1;
    if f == n {
      assert used[f := b][..n] == used[..n];
    } else {
      assert used[f := b][..n] == used[..n][f := b];
      CountFreeUpdate(used[..n], f, b);
    }
  }

  lemma {:induction false} CountFreeZero(used: seq<bool>)
    ensures CountFree(used) == 0 <==> forall j :: 0 <= j < |used| ==> used[j]
  {
    if used != [] {
      var n := |used| - 1;
      CountFreeZero(used[..n]);
      assert forall j :: 0 <= j < n ==> used[..n][j] == used[j];
    }
  }

  /** The frames handed out by n successive allocations, and the bits afterwards. */
  function AllocMany(used: seq<bool>, n: nat): (r: (seq<nat>, seq<bool>))
    ensures |r.0| <= n && |r.1| == |used|
    decreases n
  {
    if n == 0 then ([], used)
    else match LowestFree(used) {
      case None => ([], used)
      case Some(f) =>
        var rest := AllocMany(used[f := true], n - 1);
        ([f] + rest.0, rest.1)
    }
  }

  /** The bits after freeing the listed frames one by one. */
  function FreeMany(used: seq<bool>, fs: seq<nat>): (r: seq<bool>)
    requires forall f :: f in fs ==> f < |used|
    ensures |r| == |used|
    ensures forall j :: 0 <= j < |used| ==> r[j] == (used[j] && j !in fs)
    decreases |fs|
  {
    if fs == [] then used
    else
      assert fs[0] in fs && forall f :: f in fs[1..] ==> f in fs;
      var r := FreeMany(used[fs[0] := false], fs[1..]);
      assert forall j :: j in fs <==> j == fs[0] || j in fs[1..];
      r
  }

  /** Allocation hands out clear bits, and sets exactly those. */
  lemma {:induction false} AllocManyTakesFree(used: seq<bool>, n: nat)
    ensures forall f :: f in AllocMany(used, n).0 ==> f < |used| && !used[f]
    ensures forall j :: 0 <= j < |used| ==>
      AllocMany(used, n).1[j] == (used[j] || j in AllocMany(used, n).0)
    decreases n
  {
    if n > 0 && LowestFree(used).Some? {
      var f := LowestFree(used).value;
      AllocManyTakesFree(used[f := true], n - 1);
    }
  }

  /**
   * Allocating n frames, freeing them in any order and allocating n again gives
   * the same frames in the same order.
   */
  lemma {:induction false} ReallocationRepeats(used: seq<bool>, n: nat, freed: seq<nat>)
    requires multiset(freed) == multiset(AllocMany(used, n).0)
    ensures forall f :: f in freed ==> f < |used|
    ensures FreeMany(AllocMany(used, n).1, freed) == used
    ensures AllocMany(FreeMany(AllocMany(used, n).1, freed), n) == AllocMany(used, n)
  {
    var got := AllocMany(used, n).0;
    AllocManyTakesFree(used, n);
    forall f
      ensures f in freed <==> f in got
    {
      assert f in freed <==> f in multiset(freed);
      assert f in got <==> f in multiset(got);
    }
    assert FreeMany(AllocMany(used, n).1, freed) == used;
  }
}
