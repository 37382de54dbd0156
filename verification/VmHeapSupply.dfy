// How many frames the heap region needs: loads and stores all go through exactly
// if the frames that are free or already serve the region number at least 4106.
module VmHeapSupply {
  import opened Words
  import opened FrameSpec
  import opened Paging
  import opened VmSpec
  import opened VmMapping
  import opened VmSpaces
  import opened VmFaults
  import opened VmRun
  import opened VmHeapTables
  import opened VmHeapRegion
  import opened VmHeapLimits

  /** Pages and tables of the region together. */
  const REGION_FRAMES: nat := 4106

  // ---- Free frames and serving frames ----

  ghost function FreeFrames(ph: Phys): set<nat>
    requires Sized(ph)
  {
    set f: nat | f < FRAME_COUNT && ph.own[f].Free?
  }

  /** The frames that are free or serve the region. */
  ghost function Supply(ph: Phys): set<nat>
    requires Sized(ph)
  {
    set f: nat | f < FRAME_COUNT && ForHeap(ph.own[f])
  }

  ghost function ClearBits(used: seq<bool>): set<nat> { set f: nat | f < |used| && !used[f] }

  lemma {:induction false} CountFreeIs(used: seq<bool>)
    ensures CountFree(used) == |ClearBits(used)|
  {
    if used != [] {
      var n := |used| - 1;
      CountFreeIs(used[..n]);
      assert ClearBits(used) == ClearBits(used[..n]) + if used[n] then {} else {n};
    }
  }

  lemma {:induction false} SupplySplits(s: State)
    requires HeapInv(s)
    ensures |Supply(s.ph)| == CountFree(s.ph.used) + |PageFrames(s.ph)| + |TableFrames(s.ph)|
  {
    hide Linked, Coherent, HeapShared, PagesMapped, HeapClear, HeapTablePath, CountFree;
    CountFreeIs(s.ph.used);
    assert ClearBits(s.ph.used) == FreeFrames(s.ph);
    assert Supply(s.ph) == FreeFrames(s.ph) + PageFrames(s.ph) + TableFrames(s.ph);
    assert |FreeFrames(s.ph) + PageFrames(s.ph)| == |FreeFrames(s.ph)| + |PageFrames(s.ph)|;
  }

  /** An access moves frames from free to serving and no others. */
  lemma {:induction false} AccessKeepsSupply(s: State, h: HeapAction)
    requires HeapInv(s) && HeapLegal(s, h) && IsAccess(h)
    ensures Sized(HeapStep(s, h).0.ph) && Supply(HeapStep(s, h).0.ph) == Supply(s.ph)
  {
    hide HeapStep, HeapLegal, HeapInv, ForHeap;
    InvOf(s);
    HeapStepKeepsInv(s, h);
    InvOf(HeapStep(s, h).0);
    forall f: nat | f < FRAME_COUNT
      ensures ForHeap(HeapStep(s, h).0.ph.own[f]) <==> ForHeap(s.ph.own[f])
    {
      HeapStepServes(s, h, f);
      if s.ph.own[f].Free? { FreeForHeap(s.ph.own[f]); }
    }
  }

  lemma {:induction false} FreeForHeap(o: Owner)
    requires o.Free?
    ensures ForHeap(o)
  {
  }

  // ---- A starved access finds less than the whole region's supply ----

  /** Every table has an ancestor on each level above it. */
  lemma {:induction false} Ancestor(ph: Phys, y: nat, n: nat) returns (a: nat)
    requires PhysInv(ph) && IsTable(ph, y) && n <= |ph.own[y].path|
    ensures IsTable(ph, a) && ph.own[a].path == ph.own[y].path[..n]
    decreases |ph.own[y].path|
  {
    a := y;
    if n < |ph.own[y].path| {
      assert LinkUp(ph, y);
      a := Ancestor(ph, ph.own[y].parent, n);
    }
  }

  /** A table of the region is linked from whichever table has its parent's path. */
  lemma {:induction false} LinkedBelow(ph: Phys, t: nat, i: Index, a: nat)
    requires PhysInv(ph) && HeapShared(ph) && IsTable(ph, t) && IsTable(ph, a)
    requires ph.own[a].path == ph.own[t].path + [i] && ph.own[a].path[0] == 256
    ensures Down(ph.mem[t][i]) && ph.mem[t][i].frame == a
  {
    hide Linked;
    assert LinkUp(ph, a) by { LinksUp(ph, a); }
    var p := ph.own[a].parent;
    assert ph.own[p].path == ph.own[t].path;
    if ph.own[t].path == [] {
      assert IsSpace(ph, t) && IsSpace(ph, p);
    } else {
      OneTablePerPath(ph, p, t);
    }
  }

  lemma {:induction false} LinksUp(ph: Phys, a: nat)
    requires PhysInv(ph) && IsTable(ph, a)
    ensures LinkUp(ph, a)
  {
  }

  /** If there is a table for the first k indices, the walk gets at least that far. */
  lemma {:induction false} TableMeansReached(ph: Phys, t: nat, path: seq<Index>, y: nat, k: nat)
    requires PhysInv(ph) && HeapShared(ph) && IsTable(ph, t) && IsTable(ph, y)
    requires |ph.own[t].path| + |path| == 4 && k < |path| && (ph.own[t].path + path)[0] == 256
    requires ph.own[y].path == ph.own[t].path + path[..k]
    ensures Missing(ph.mem, t, path).Some? ==> Missing(ph.mem, t, path).value <= |path| - 1 - k
    decreases k
  {
    hide Linked, HeapShared;
    if k > 0 {
      var full := ph.own[t].path + path;
      var a := Ancestor(ph, y, |ph.own[t].path| + 1);
      assert ph.own[a].path == ph.own[t].path + [path[0]];
      assert ph.own[a].path[0] == full[0];
      LinkedBelow(ph, t, path[0], a);
      assert ph.own[a].path + path[1..] == full && path[1..][..k - 1] == path[..k][1..];
      assert ph.own[y].path == ph.own[a].path + path[1..][..k - 1];
      TableMeansReached(ph, a, path[1..], y, k - 1);
    }
  }

  /** The numbers of the tables on the way to a page of which the last m are missing. */
  function Holes(page: nat, m: nat): (r: set<nat>)
    requires page < HEAP_PAGES && m <= 3
    ensures |r| == m && forall n :: n in r ==> n < 10
  {
    var last := 2 + page / 512;
    if m == 0 then {} else if m == 1 then {last} else if m == 2 then {1, last} else {0, 1, last}
  }

  lemma {:induction false} NotInHoles(s: State, page: nat, y: nat)
    requires HeapInv(s) && page < HEAP_PAGES && y in TableFrames(s.ph)
    requires Missing(s.ph.mem, s.cr3, HeapPath(page)).Some?
    ensures Number(s.ph.own[y]) !in Holes(page, Missing(s.ph.mem, s.cr3, HeapPath(page)).value)
  {
    hide Linked, Coherent, HeapShared, PagesMapped, PagesOwned, HeapClear, Missing, UpTo;
    var path, full := s.ph.own[y].path, HeapPath(page);
    var k := |path|;
    assert s.ph.own[s.cr3].path + full == full && s.ph.own[s.cr3].path + full[..k] == full[..k];
    if path == full[..k] {
      TableMeansReached(s.ph, s.cr3, full, y, k);
    }
    assert k == 3 && path[2] == page / 512 ==> path == full[..3];
  }

  lemma {:induction false} StarvedShort(s: State, page: nat)
    requires HeapInv(s) && Starved(s, page)
    ensures |Supply(s.ph)| < REGION_FRAMES
  {
    hide Linked, Coherent, HeapShared, HeapClear, Missing, HeapTablePath, Holes, UpTo, PagesMapped;
    var m := Missing(s.ph.mem, s.cr3, HeapPath(page)).value;
    HeapSlot(page);
    assert s.ph.own[s.cr3].path + HeapPath(page) == HeapPath(page);
    ClearMissing(s.ph, s.cr3, HeapPath(page));
    PagesCount(s, UpTo(4096) - {page});
    forall y | y in TableFrames(s.ph)
      ensures Number(s.ph.own[y]) in UpTo(10) - Holes(page, m)
    {
      NotInHoles(s, page, y);
      NumberBelowTen(s.ph.own[y]);
    }
    assert Holes(page, m) <= UpTo(10);
    TablesCount(s, UpTo(10) - Holes(page, m));
    SupplySplits(s);
  }

  lemma {:induction false} NumberBelowTen(o: Owner)
    requires o.Table? && HeapTablePath(o.path)
    ensures Number(o) < 10
  {
  }

  // ---- Enough frames are enough ----

  /** Uses of the region: loads, stores, evictions, and switches between the spaces there are. */
  predicate Uses(ph: Phys, h: HeapAction) {
    h.Load? || h.Store? || h.a.Evict? || (h.a.Switch? && IsSpace(ph, h.a.space))
  }

  predicate UsesOnly(ph: Phys, run: seq<HeapAction>) { forall i :: 0 <= i < |run| ==> Uses(ph, run[i]) }

  /** Uses of the region from any space, with new spaces created in between. */
  predicate UsesOrCreates(run: seq<HeapAction>) {
    forall i :: 0 <= i < |run| ==>
      run[i].Load? || run[i].Store? || run[i].a.Evict? || run[i].a.Switch? || run[i].a.NewSpace?
  }

  function Creations(run: seq<HeapAction>): nat {
    if run == [] then 0 else (if run[0] == Other(NewSpace) then 1 else 0) + Creations(run[1..])
  }

  /** Uses are legal as long as they last. */
  lemma {:induction false} UsesLegal(s: State, run: seq<HeapAction>)
    requires HeapInv(s) && UsesOnly(s.ph, run)
    ensures HeapLegalRun(s, run) && UsesOrCreates(run) && Creations(run) == 0
    decreases |run|
  {
    hide HeapInv, HeapStep, HeapLegal, StopsAt, Supply;
    InvOf(s);
    if run != [] {
      UseStep(s, run[0]);
      HeapStepKeepsInv(s, run[0]);
      var s' := HeapStep(s, run[0]).0;
      assert UsesOnly(s'.ph, run[1..]);
      UsesLegal(s', run[1..]);
    }
  }

  lemma {:induction false} UseStep(s: State, h: HeapAction)
    requires HeapInv(s) && Uses(s.ph, h)
    ensures HeapLegal(s, h) && Sized(HeapStep(s, h).0.ph)
    ensures forall r: nat :: IsSpace(s.ph, r) ==> IsSpace(HeapStep(s, h).0.ph, r)
  {
    hide HeapInv, ForHeap, Access;
    InvOf(s);
    if IsAccess(h) {
      HeapStepKeepsInv(s, h);
      InvOf(HeapStep(s, h).0);
      forall r: nat | IsSpace(s.ph, r)
        ensures IsSpace(HeapStep(s, h).0.ph, r)
      {
        HeapStepServes(s, h, r);
      }
    }
  }

  /** A new space takes at most one frame from the supply. */
  lemma {:induction false} CreationCosts(s: State)
    requires HeapInv(s) && HeapLegal(s, Other(NewSpace))
    ensures Sized(HeapStep(s, Other(NewSpace)).0.ph)
    ensures |Supply(HeapStep(s, Other(NewSpace)).0.ph)| + 1 >= |Supply(s.ph)|
  {
    hide HeapInv, VmCreateSpace, HeapTablePath;
    InvOf(s);
    CreateKeepsInv(s);
    var (s', f) := VmCreateSpace(s);
    if f != 0 {
      SubsetSize(Supply(s.ph) - {f}, Supply(s'.ph));
    }
  }

  /** The supply after one step, and why the step does not stop. */
  lemma {:induction false} SupplyStep(s: State, h: HeapAction)
    requires HeapInv(s) && HeapLegal(s, h) && UsesOrCreates([h])
    ensures Sized(HeapStep(s, h).0.ph)
    ensures |Supply(HeapStep(s, h).0.ph)| + (if h == Other(NewSpace) then 1 else 0) >= |Supply(s.ph)|
    ensures StopsAt(s, h) ==> |Supply(s.ph)| < REGION_FRAMES
  {
    hide HeapInv, ForHeap, Access, Starved, Supply, VmCreateSpace;
    InvOf(s);
    assert [h][0] == h;
    if IsAccess(h) {
      AccessKeepsSupply(s, h);
      if StopsAt(s, h) { StarvedShort(s, h.at / 512); }
    } else if h == Other(NewSpace) {
      CreationCosts(s);
    }
  }

  /**
   * With 4106 frames free or serving, and one more for every space the run creates,
   * every use of the region, from whatever space, goes through and gives what the
   * flat array gives.
   */
  lemma {:induction false} EnoughFrames(s: State, run: seq<HeapAction>, flat: seq<Word>)
    requires HeapInv(s) && Shows(s.ph, s.kernel, flat) && HeapLegalRun(s, run) && UsesOrCreates(run)
    requires REGION_FRAMES + Creations(run) <= |Supply(s.ph)|
    ensures Outputs(s, run) == FlatOutputs(flat, run)
    decreases |run|
  {
    hide HeapInv, HeapStep, HeapLegal, FlatStep, HeapWord, StopsAt, Supply;
    InvOf(s);
    if run != [] {
      assert UsesOrCreates([run[0]]) && UsesOrCreates(run[1..]);
      SupplyStep(s, run[0]);
      HeapStopsIff(s, run[0]);
      HeapStepRefines(s, run[0], flat);
      EnoughFrames(HeapStep(s, run[0]).0, run[1..], FlatStep(flat, run[0]).0);
    }
  }

  // ---- Fewer are not ----

  /** A load from each page from page k on. */
  function LoadsFrom(k: nat): (run: seq<HeapAction>)
    requires k <= HEAP_PAGES
    ensures |run| == HEAP_PAGES - k && forall i :: 0 <= i < |run| ==> run[i].Load?
    decreases HEAP_PAGES - k
  {
    if k == HEAP_PAGES then [] else [Load(512 * k)] + LoadsFrom(k + 1)
  }

  ghost predicate MappedBelow(s: State, k: nat) {
    Sized(s.ph) && forall page :: 0 <= page < k && page < HEAP_PAGES ==> PageMapping(s.ph, s.kernel, page).Some?
  }

  /** A load that goes through leaves its page mapped, and the pages that were. */
  lemma {:induction false} LoadMaps(s: State, k: nat)
    requires HeapInv(s) && k < HEAP_PAGES && MappedBelow(s, k) && HeapLegal(s, Load(512 * k))
    requires HeapStep(s, Load(512 * k)).1 != Stopped
    ensures MappedBelow(HeapStep(s, Load(512 * k)).0, k + 1)
  {
    hide Access, Resolve, Linked, Coherent, HeapShared, HeapClear, PathOf, HeapPath, HeapWord;
    var at := 512 * k;
    WordAccess(s, at, 0, FlatOf(s));
    var s' := Access(s, WordAddress(at), 0).0;
    forall page | 0 <= page < k
      ensures PageMapping(s'.ph, s.kernel, page).Some?
    {
      var f := PageMapping(s.ph, s.kernel, page).value.frame;
      AccessServes(s, WordAddress(at), 0, f);
      assert s'.ph.own[f] == HeapPage(page);
    }
  }

  lemma {:induction false} LoadAll(s: State, k: nat)
    requires HeapInv(s) && k <= HEAP_PAGES && MappedBelow(s, k)
    requires HeapLegalRun(s, LoadsFrom(k)) && Stopped !in Outputs(s, LoadsFrom(k))
    ensures var s' := HeapRun(s, LoadsFrom(k));
      HeapInv(s') && MappedBelow(s', HEAP_PAGES) && Supply(s'.ph) == Supply(s.ph)
    decreases HEAP_PAGES - k
  {
    hide HeapInv, HeapStep, HeapLegal, MappedBelow, Supply;
    InvOf(s);
    if k < HEAP_PAGES {
      var run, h := LoadsFrom(k), Load(512 * k);
      assert run[0] == h && run[1..] == LoadsFrom(k + 1);
      var (s', o) := HeapStep(s, h);
      assert Outputs(s, run)[0] == o;
      assert o != Stopped;
      assert Outputs(s, run) == [o] + Outputs(s', run[1..]);
      LoadMaps(s, k);
      HeapStepKeepsInv(s, h);
      AccessKeepsSupply(s, h);
      LoadAll(s', k + 1);
    }
  }

  /** Some frame of fs has number n. */
  ghost predicate HasNumber(own: seq<Owner>, fs: set<nat>, n: nat) {
    exists f :: f in fs && f < |own| && Serves(own[f]) && Number(own[f]) == n
  }

  lemma {:induction false} AllNumbersCount(own: seq<Owner>, fs: set<nat>, k: nat)
    requires forall n: nat :: n < k ==> HasNumber(own, fs, n)
    ensures k <= |fs|
    decreases k
  {
    if k > 0 {
      assert HasNumber(own, fs, k - 1);
      var f :| f in fs && f < |own| && Serves(own[f]) && Number(own[f]) == k - 1;
      forall n: nat | n < k - 1
        ensures HasNumber(own, fs - {f}, n)
      {
        assert HasNumber(own, fs, n);
      }
      AllNumbersCount(own, fs - {f}, k - 1);
    }
  }

  /** A mapped page of slot 256 is reached through a last-level table. */
  lemma {:induction false} MappedHasLeaf(ph: Phys, t: nat, p: seq<Index>)
    requires PhysInv(ph) && HeapClear(ph) && IsTable(ph, t) && 1 <= |p| && |ph.own[t].path| + |p| == 4
    requires (ph.own[t].path + p)[0] == 256 && Resolve(ph.mem, t, p).Some?
    ensures Leaf(ph.mem, t, p).Some?
    decreases |p|
  {
    if |p| > 1 {
      assert (ph.own[t].path + [p[0]])[0] == (ph.own[t].path + p)[0];
      assert NotLarge(ph, t, p[0]) && LinkDown(ph, t, p[0]);
      assert ph.own[t].path + [p[0]] + p[1..] == ph.own[t].path + p;
      MappedHasLeaf(ph, ph.mem[t][p[0]].frame, p[1..]);
    }
  }

  /** The tables on the way to a mapped page are there. */
  lemma {:induction false} MappedHasTable(s: State, page: nat, n: nat)
    requires HeapInv(s) && page < HEAP_PAGES && PageMapping(s.ph, s.kernel, page).Some? && 1 <= n <= 3
    ensures HasNumber(s.ph.own, TableFrames(s.ph), Number(Table(HeapPath(page)[..n], 0)))
  {
    hide Linked, Coherent, HeapShared, HeapClear, PagesOwned, PagesMapped, Resolve, Leaf;
    var p := HeapPath(page);
    assert s.ph.own[s.kernel].path + p == p;
    MappedHasLeaf(s.ph, s.kernel, p);
    LeafPath(s.ph, s.kernel, p);
    var end := Leaf(s.ph.mem, s.kernel, p).value;
    assert s.ph.own[end].path == p[..3];
    var a := Ancestor(s.ph, end, n);
    assert p[..3][..n] == p[..n];
    HeapPrefix(page, n);
    assert a in TableFrames(s.ph) && Serves(s.ph.own[a]);
  }

  /** A region with every page mapped has all its tables. */
  lemma {:induction false} FullRegion(s: State)
    requires HeapInv(s) && MappedBelow(s, HEAP_PAGES)
    ensures |PageFrames(s.ph)| >= 4096 && |TableFrames(s.ph)| >= 10
  {
    hide Linked, Coherent, HeapShared, HeapClear, PagesOwned, Resolve;
    forall n: nat | n < 4096
      ensures HasNumber(s.ph.own, PageFrames(s.ph), n)
    {
      var f := PageMapping(s.ph, s.kernel, n).value.frame;
      assert s.ph.own[f] == HeapPage(n);
      assert f in PageFrames(s.ph) && Serves(s.ph.own[f]) && Number(s.ph.own[f]) == n;
    }
    AllNumbersCount(s.ph.own, PageFrames(s.ph), 4096);
    forall n: nat | n < 10
      ensures HasNumber(s.ph.own, TableFrames(s.ph), n)
    {
      MappedHasTable(s, if n < 2 then 0 else 512 * (n - 2), if n < 2 then n + 1 else 3);
    }
    AllNumbersCount(s.ph.own, TableFrames(s.ph), 10);
  }

  /** Loading from every page needs the whole supply. */
  lemma {:induction false} TooFewFrames(s: State)
    requires HeapInv(s) && HeapLegalRun(s, LoadsFrom(0)) && Stopped !in Outputs(s, LoadsFrom(0))
    ensures REGION_FRAMES <= |Supply(s.ph)|
  {
    hide HeapInv, HeapLegalRun, Outputs, LoadsFrom, HeapRun, Supply, CountFree;
    InvOf(s);
    LoadAll(s, 0);
    var s' := HeapRun(s, LoadsFrom(0));
    FullRegion(s');
    SupplySplits(s');
  }

  /** Every use of the region, from this state on, goes through and gives what the flat array gives. */
  ghost predicate Sufficient(s: State)
    requires Sized(s.ph)
  {
    forall run :: UsesOnly(s.ph, run) ==> HeapLegalRun(s, run) && Outputs(s, run) == FlatOutputs(FlatOf(s), run)
  }

  lemma {:induction false} FlatNeverStops(flat: seq<Word>, run: seq<HeapAction>)
    requires |flat| == HEAP_WORDS
    ensures Stopped !in FlatOutputs(flat, run)
    decreases |run|
  {
    if run != [] { FlatNeverStops(FlatStep(flat, run[0]).0, run[1..]); }
  }

  /** The region can be used without limit exactly if 4106 frames are free or serve it already. */
  lemma {:induction false} SufficientIff(s: State)
    requires HeapInv(s)
    ensures Sufficient(s) <==> REGION_FRAMES <= |Supply(s.ph)|
  {
    hide HeapInv, HeapWord, HeapLegalRun, Outputs, FlatOutputs, Supply, LoadsFrom;
    InvOf(s);
    if REGION_FRAMES <= |Supply(s.ph)| {
      forall run | UsesOnly(s.ph, run)
        ensures HeapLegalRun(s, run) && Outputs(s, run) == FlatOutputs(FlatOf(s), run)
      {
        UsesLegal(s, run);
        EnoughFrames(s, run, FlatOf(s));
      }
    }
    if Sufficient(s) {
      var run := LoadsFrom(0);
      assert UsesOnly(s.ph, run);
      FlatNeverStops(FlatOf(s), run);
      TooFewFrames(s);
    }
  }
}
