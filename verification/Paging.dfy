// Four-level page tables in physical memory: translation, the walk that
// allocates missing tables, and the invariant that ties every table to the one
// index path that leads to it.
module Paging {
  import opened Words
  import opened FrameSpec

  /** A translation: the frame, and the entry it came from (which holds the flags). */
  datatype Mapping = Mapping(frame: nat, entry: Word)

  /**
   * What a frame is for. `path` lists the indices that lead from a root table to
   * this table (a root has the empty path); `parent` is the table that links to it.
   */
  datatype Owner =
    | Free
    | Reserved
    | Table(path: seq<Index>, parent: nat)
    | Data
    | HeapPage(page: nat)

  /** Physical memory, the allocator's bits, and the purpose of every frame. */
  datatype Phys = Phys(mem: Memory, used: seq<bool>, own: seq<Owner>)

  predicate Sized(ph: Phys) {
    |ph.mem| == |ph.used| == |ph.own| == FRAME_COUNT
  }

  predicate IsTable(ph: Phys, t: nat) {
    Sized(ph) && t < FRAME_COUNT && ph.own[t].Table?
  }

  /** An address space is named by the frame of its root table. */
  predicate IsSpace(ph: Phys, t: nat) {
    IsTable(ph, t) && ph.own[t].path == []
  }

  /** The number whose base-512 digits are the given indices. */
  function Offset(path: seq<Index>): nat {
    if path == [] then 0 else Offset(path[..|path| - 1]) * 512 + path[|path| - 1]
  }

  /**
   * The translation the processor computes from table t with the remaining
   * indices. A large page ends the walk early; in a root table the same bit is
   * reserved and the access faults.
   */
  function Resolve(mem: Memory, t: nat, path: seq<Index>): (r: Option<Mapping>)
    requires |mem| == FRAME_COUNT && 1 <= |path| <= 4
    decreases |path|
  {
    if t >= FRAME_COUNT then None
    else
      var e := mem[t][path[0]];
      if !e.present then None
      else if |path| == 1 then Some(Mapping(e.frame, e))
      else if !e.huge then Resolve(mem, e.frame, path[1..])
      else if |path| == 4 then None
      else Some(Mapping(e.frame + Offset(path[1..]), e))
  }

  /** The last-level table that the walk from t reaches. */
  function Leaf(mem: Memory, t: nat, path: seq<Index>): (r: Option<nat>)
    requires |mem| == FRAME_COUNT && 1 <= |path| <= 4
    decreases |path|
  {
    if t >= FRAME_COUNT then None
    else if |path| == 1 then Some(t)
    else if !Down(mem[t][path[0]]) then None
    else Leaf(mem, mem[t][path[0]].frame, path[1..])
  }

  /** Claims the lowest free frame as a zeroed table and links it at entry i of t. */
  function AddTable(ph: Phys, t: nat, i: Index, f: nat): (r: Phys)
    requires IsTable(ph, t) && f < FRAME_COUNT
    ensures Sized(r)
  {
    var zeroed := ph.mem[f := ZeroFrame()];
    Phys(zeroed[t := zeroed[t][i := Pte(f, TABLE_FLAGS)]], ph.used[f := true],
         ph.own[f := Table(ph.own[t].path + [i], t)])
  }

  /** One level of vm_walk: the state afterwards and the next table, if any. */
  function Descend(ph: Phys, t: nat, i: Index, create: bool): (r: (Phys, Option<nat>))
    requires IsTable(ph, t)
    ensures Sized(r.0)
  {
    var e := ph.mem[t][i];
    if !e.present then
      if !create || LowestFree(ph.used).None? then (ph, None)
      else
        var f := LowestFree(ph.used).value;
        (AddTable(ph, t, i, f), Some(f))
    else if e.huge then (ph, None)
    else (ph, Some(e.frame))
  }

  /**
   * vm_walk: the state afterwards and the last-level table, if it was reached. Under
   * the invariant below every link leads to a table, so the test for it never fails.
   */
  function Walk(ph: Phys, t: nat, path: seq<Index>, create: bool): (r: (Phys, Option<nat>))
    requires IsTable(ph, t) && 1 <= |path| <= 4
    ensures Sized(r.0) && (r.1.Some? ==> IsTable(r.0, r.1.value))
    decreases |path|
  {
    if |path| == 1 then (ph, Some(t))
    else
      var (ph', next) := Descend(ph, t, path[0], create);
      if next.None? || !IsTable(ph', next.value) then (ph', None)
      else Walk(ph', next.value, path[1..], create)
  }

  // ---- The invariant ----

  /** Entry i of table t, if it leads down, leads to the table for that path. */
  predicate LinkDown(ph: Phys, t: nat, i: Index)
    requires IsTable(ph, t)
  {
    var c := ph.mem[t][i].frame;
    Down(ph.mem[t][i]) && |ph.own[t].path| < 3 ==>
      && IsTable(ph, c)
      && ph.own[c].path == ph.own[t].path + [i]
      && (ph.own[t].path != [] ==> ph.own[c].parent == t)
  }

  /** Table c, unless a root, is linked from its parent at the last index of its path. */
  predicate LinkUp(ph: Phys, c: nat)
    requires IsTable(ph, c)
  {
    var path, p := ph.own[c].path, ph.own[c].parent;
    && |path| <= 3
    && (path != [] ==>
      && IsTable(ph, p)
      && ph.own[p].path == path[..|path| - 1]
      && Down(ph.mem[p][path[|path| - 1]])
      && ph.mem[p][path[|path| - 1]].frame == c)
  }

  ghost predicate Linked(ph: Phys)
    requires Sized(ph)
  {
    && (forall t: nat, i: Index {:trigger LinkDown(ph, t, i)} :: IsTable(ph, t) ==> LinkDown(ph, t, i))
    && (forall c: nat {:trigger LinkUp(ph, c)} :: IsTable(ph, c) ==> LinkUp(ph, c))
  }

  /** The bits agree with the purposes; frame zero, whose address means "none", is reserved. */
  ghost predicate Accounted(ph: Phys)
    requires Sized(ph)
  {
    && (forall f :: 0 <= f < FRAME_COUNT ==> (ph.used[f] <==> ph.own[f] != Free))
    && ph.own[0] == Reserved
  }

  ghost predicate PhysInv(ph: Phys) {
    Sized(ph) && Accounted(ph) && Linked(ph)
  }

  lemma {:induction false} AddTableKeepsInv(ph: Phys, t: nat, i: Index, f: nat)
    requires PhysInv(ph) && IsTable(ph, t) && |ph.own[t].path| < 3 && !ph.mem[t][i].present
    requires f < FRAME_COUNT && ph.own[f] == Free
    ensures PhysInv(AddTable(ph, t, i, f))
  {
    var ph' := AddTable(ph, t, i, f);
    forall x: nat, j: Index | IsTable(ph', x)
      ensures LinkDown(ph', x, j)
    {
      if x != f { assert LinkDown(ph, x, j); }
    }
    forall c: nat | IsTable(ph', c)
      ensures LinkUp(ph', c)
    {
      if c != f { assert LinkUp(ph, c); }
    }
  }

  /** A non-free frame other than a table with a gap: a walk leaves its contents alone. */
  predicate Settled(o: Owner) {
    o != Free && (o.Table? ==> |o.path| == 3)
  }

  /**
   * All that a walk from root table r may do: turn free frames into tables, and
   * fill empty entries of tables above the last level. Of the root tables only r
   * can change.
   */
  ghost predicate Grown(ph: Phys, ph': Phys, r: nat) {
    && Sized(ph) && Sized(ph')
    && (forall f :: 0 <= f < FRAME_COUNT && ph.own[f] != Free ==> ph'.own[f] == ph.own[f])
    && (forall f :: 0 <= f < FRAME_COUNT && ph.own[f] == Free ==>
          ph'.own[f] == Free || (ph'.own[f].Table? && ph'.own[f].path != []))
    && (forall f :: 0 <= f < FRAME_COUNT && (Settled(ph.own[f]) || (IsSpace(ph, f) && f != r)) ==>
          ph'.mem[f] == ph.mem[f])
    && (forall t: nat, j: Index :: IsTable(ph, t) && ph.mem[t][j].present ==> ph'.mem[t][j] == ph.mem[t][j])
    && (forall t: nat, j: Index :: IsTable(ph, t) && !ph.mem[t][j].present && ph'.mem[t][j].present ==>
          ph'.mem[t][j].frame < FRAME_COUNT && ph.own[ph'.mem[t][j].frame] == Free)
  }

  lemma {:induction false} AddTableGrows(ph: Phys, t: nat, i: Index, f: nat, r: nat)
    requires PhysInv(ph) && IsTable(ph, t) && |ph.own[t].path| < 3 && !ph.mem[t][i].present
    requires f < FRAME_COUNT && ph.own[f] == Free
    requires ph.own[t].path == [] ==> t == r
    ensures Grown(ph, AddTable(ph, t, i, f), r)
  {
  }

  /** A freshly added table holds nothing, so no translation changes. */
  lemma {:induction false} AddTableKeepsResolve(ph: Phys, t: nat, i: Index, f: nat, x: nat, p: seq<Index>)
    requires PhysInv(ph) && IsTable(ph, t) && |ph.own[t].path| < 3 && !ph.mem[t][i].present
    requires f < FRAME_COUNT && ph.own[f] == Free
    requires IsTable(ph, x) && 1 <= |p| && |ph.own[x].path| + |p| == 4
    ensures Resolve(AddTable(ph, t, i, f).mem, x, p) == Resolve(ph.mem, x, p)
    decreases |p|
  {
    var mem' := AddTable(ph, t, i, f).mem;
    if x == t && p[0] == i {
      assert mem'[x][i] == Pte(f, TABLE_FLAGS);
      assert mem'[f] == ZeroFrame();
      assert Resolve(mem', f, p[1..]) == None;
    } else {
      assert mem'[x][p[0]] == ph.mem[x][p[0]];
      if |p| > 1 && Down(ph.mem[x][p[0]]) {
        assert LinkDown(ph, x, p[0]);
        AddTableKeepsResolve(ph, t, i, f, ph.mem[x][p[0]].frame, p[1..]);
      }
    }
  }

  lemma {:induction false} DescendFacts(ph: Phys, t: nat, i: Index, create: bool, r: nat)
    requires PhysInv(ph) && IsTable(ph, t) && |ph.own[t].path| < 3
    requires ph.own[t].path == [] ==> t == r
    ensures var d := Descend(ph, t, i, create);
      && PhysInv(d.0) && Grown(ph, d.0, r)
      && (d.1.Some? ==> IsTable(d.0, d.1.value) && d.0.own[d.1.value].path == ph.own[t].path + [i]
                        && Down(d.0.mem[t][i]) && d.0.mem[t][i].frame == d.1.value)
      && (!create ==> d.0 == ph)
  {
    if !ph.mem[t][i].present && create && LowestFree(ph.used).Some? {
      var f := LowestFree(ph.used).value;
      AddTableKeepsInv(ph, t, i, f);
      AddTableGrows(ph, t, i, f, r);
      assert LinkUp(AddTable(ph, t, i, f), f);
    } else {
      assert LinkDown(ph, t, i);
    }
  }

  lemma {:induction false} GrownTransitive(a: Phys, b: Phys, c: Phys, r: nat)
    requires Grown(a, b, r) && Grown(b, c, r)
    ensures Grown(a, c, r)
  {
    forall t: nat, j: Index | IsTable(a, t) && a.mem[t][j].present
      ensures c.mem[t][j] == a.mem[t][j]
    {
      assert b.mem[t][j] == a.mem[t][j];
      assert IsTable(b, t);
    }
    forall t: nat, j: Index | IsTable(a, t) && !a.mem[t][j].present && c.mem[t][j].present
      ensures c.mem[t][j].frame < FRAME_COUNT && a.own[c.mem[t][j].frame] == Free
    {
      assert IsTable(b, t);
      if b.mem[t][j].present {
        assert c.mem[t][j] == b.mem[t][j];
      }
    }
  }

  /** Growing the tables keeps the root tables root tables. */
  lemma {:induction false} TablesStay(ph: Phys, ph': Phys, r: nat)
    requires Grown(ph, ph', r)
    ensures forall t: nat :: IsTable(ph, t) ==> IsTable(ph', t) && ph'.own[t] == ph.own[t]
    ensures forall t: nat :: IsSpace(ph, t) ==> IsSpace(ph', t)
  {
  }

  /** A walk keeps the invariant and only grows the tables. */
  lemma {:induction false} WalkGrows(ph: Phys, t: nat, path: seq<Index>, create: bool, r: nat)
    requires PhysInv(ph) && IsTable(ph, t) && 1 <= |path| && |ph.own[t].path| + |path| == 4
    requires ph.own[t].path == [] ==> t == r
    ensures PhysInv(Walk(ph, t, path, create).0) && Grown(ph, Walk(ph, t, path, create).0, r)
    ensures !create ==> Walk(ph, t, path, create).0 == ph
    decreases |path|
  {
    if |path| > 1 {
      DescendFacts(ph, t, path[0], create, r);
      var (ph', next) := Descend(ph, t, path[0], create);
      if next.Some? {
        WalkGrows(ph', next.value, path[1..], create, r);
        GrownTransitive(ph, ph', Walk(ph', next.value, path[1..], create).0, r);
      }
    }
  }

  /** A table reached from x has the path of x extended by the indices used. */
  lemma {:induction false} LeafPath(ph: Phys, x: nat, p: seq<Index>)
    requires PhysInv(ph) && IsTable(ph, x) && 1 <= |p| && |ph.own[x].path| + |p| == 4
    requires Leaf(ph.mem, x, p).Some?
    ensures var end := Leaf(ph.mem, x, p).value;
      IsTable(ph, end) && ph.own[end].path == ph.own[x].path + p[..|p| - 1]
    decreases |p|
  {
    if |p| > 1 {
      assert LinkDown(ph, x, p[0]);
      LeafPath(ph, ph.mem[x][p[0]].frame, p[1..]);
      assert p[..|p| - 1] == [p[0]] + p[1..][..|p| - 2];
    }
  }

  /** The table a successful walk returns is the one the processor reaches with these indices. */
  lemma {:induction false} WalkReaches(ph: Phys, t: nat, path: seq<Index>, create: bool)
    requires PhysInv(ph) && IsTable(ph, t) && 1 <= |path| && |ph.own[t].path| + |path| == 4
    requires Walk(ph, t, path, create).1.Some?
    ensures Leaf(Walk(ph, t, path, create).0.mem, t, path) == Walk(ph, t, path, create).1
    decreases |path|
  {
    if |path| > 1 {
      DescendFacts(ph, t, path[0], create, t);
      var (ph', next) := Descend(ph, t, path[0], create);
      WalkReaches(ph', next.value, path[1..], create);
      WalkGrows(ph', next.value, path[1..], create, t);
      assert Walk(ph', next.value, path[1..], create).0.mem[t][path[0]] == ph'.mem[t][path[0]];
    }
  }

  lemma {:induction false} WalkKeepsResolve(ph: Phys, t: nat, path: seq<Index>, create: bool, x: nat, p: seq<Index>)
    requires PhysInv(ph) && IsTable(ph, t) && 1 <= |path| && |ph.own[t].path| + |path| == 4
    requires IsTable(ph, x) && 1 <= |p| && |ph.own[x].path| + |p| == 4
    ensures Resolve(Walk(ph, t, path, create).0.mem, x, p) == Resolve(ph.mem, x, p)
    decreases |path|
  {
    if |path| > 1 {
      DescendFacts(ph, t, path[0], create, t);
      var (ph', next) := Descend(ph, t, path[0], create);
      if ph' != ph {
        AddTableKeepsResolve(ph, t, path[0], LowestFree(ph.used).value, x, p);
      }
      if next.Some? {
        WalkKeepsResolve(ph', next.value, path[1..], create, x, p);
      }
    }
  }

  // ---- Writing a last-level entry ----

  function SetEntry(mem: Memory, t: nat, i: Index, e: Word): (r: Memory)
    requires t < |mem|
  {
    mem[t := mem[t][i := e]]
  }

  function EntryMapping(e: Word): Option<Mapping> {
    if e.present then Some(Mapping(e.frame, e)) else None
  }

  /** The last-level entry is the translation. */
  lemma {:induction false} ResolveAtLeaf(mem: Memory, x: nat, p: seq<Index>)
    requires |mem| == FRAME_COUNT && 1 <= |p| <= 4 && Leaf(mem, x, p).Some?
    ensures Leaf(mem, x, p).value < FRAME_COUNT
    ensures Resolve(mem, x, p) == EntryMapping(mem[Leaf(mem, x, p).value][p[|p| - 1]])
    decreases |p|
  {
    if |p| > 1 {
      ResolveAtLeaf(mem, mem[x][p[0]].frame, p[1..]);
    }
  }

  /** A write to a last-level entry changes exactly the walks that end at that entry. */
  lemma {:induction false} ResolveAfterLeafWrite(ph: Phys, t: nat, i: Index, e: Word, x: nat, p: seq<Index>)
    requires PhysInv(ph) && IsTable(ph, t) && |ph.own[t].path| == 3
    requires IsTable(ph, x) && 1 <= |p| && |ph.own[x].path| + |p| == 4
    ensures Resolve(SetEntry(ph.mem, t, i, e), x, p) ==
      if Leaf(ph.mem, x, p) == Some(t) && p[|p| - 1] == i then EntryMapping(e) else Resolve(ph.mem, x, p)
    decreases |p|
  {
    if |p| > 1 {
      assert x != t;
      if Down(ph.mem[x][p[0]]) {
        assert LinkDown(ph, x, p[0]);
        ResolveAfterLeafWrite(ph, t, i, e, ph.mem[x][p[0]].frame, p[1..]);
      }
    }
  }

  lemma {:induction false} LeafWriteKeepsInv(ph: Phys, t: nat, i: Index, e: Word)
    requires PhysInv(ph) && IsTable(ph, t) && |ph.own[t].path| == 3
    ensures PhysInv(ph.(mem := SetEntry(ph.mem, t, i, e)))
  {
    var ph' := ph.(mem := SetEntry(ph.mem, t, i, e));
    forall x: nat, j: Index | IsTable(ph', x)
      ensures LinkDown(ph', x, j)
    {
      assert LinkDown(ph, x, j);
    }
    forall c: nat | IsTable(ph', c)
      ensures LinkUp(ph', c)
    {
      assert LinkUp(ph, c);
    }
  }

  // ---- Which spaces share a table ----

  /** Spaces r and s use the same tables below slot i. */
  predicate Shares(mem: Memory, r: nat, s: nat, i: Index)
    requires r < |mem| && s < |mem|
  {
    r == s || (Down(mem[r][i]) && Down(mem[s][i]) && mem[r][i].frame == mem[s][i].frame)
  }

  /** Below the roots every table has one parent, so walks that meet at a leaf met before. */
  lemma {:induction false} LeafFromOne(ph: Phys, x: nat, y: nat, p: seq<Index>)
    requires PhysInv(ph) && IsTable(ph, x) && IsTable(ph, y) && ph.own[x].path == ph.own[y].path != []
    requires 1 <= |p| && |ph.own[x].path| + |p| == 4
    requires Leaf(ph.mem, x, p).Some? && Leaf(ph.mem, x, p) == Leaf(ph.mem, y, p)
    ensures x == y
    decreases |p|
  {
    if |p| > 1 {
      assert LinkDown(ph, x, p[0]) && LinkDown(ph, y, p[0]);
      LeafFromOne(ph, ph.mem[x][p[0]].frame, ph.mem[y][p[0]].frame, p[1..]);
    }
  }

  /** Two spaces reach the same last-level table exactly if they share the slot. */
  lemma {:induction false} LeafShared(ph: Phys, r: nat, s: nat, p: seq<Index>)
    requires PhysInv(ph) && IsSpace(ph, r) && IsSpace(ph, s) && |p| == 4
    requires Leaf(ph.mem, r, p).Some?
    ensures Leaf(ph.mem, s, p) == Leaf(ph.mem, r, p) <==> Shares(ph.mem, r, s, p[0])
  {
    if Leaf(ph.mem, s, p) == Leaf(ph.mem, r, p) && r != s {
      assert LinkDown(ph, r, p[0]) && LinkDown(ph, s, p[0]);
      LeafFromOne(ph, ph.mem[r][p[0]].frame, ph.mem[s][p[0]].frame, p[1..]);
    }
  }

  /** Two spaces that share a slot, or have the same entry in it, translate everything below it alike. */
  lemma {:induction false} SharedSlotAgrees(mem: Memory, r: nat, s: nat, p: seq<Index>)
    requires |mem| == FRAME_COUNT && r < FRAME_COUNT && s < FRAME_COUNT && |p| == 4
    requires Shares(mem, r, s, p[0]) || mem[r][p[0]] == mem[s][p[0]]
    ensures Resolve(mem, r, p) == Resolve(mem, s, p)
  {
  }

  /** A walk from r does not change which spaces share slot i with r. */
  lemma {:induction false} GrownKeepsShares(ph: Phys, ph': Phys, r: nat, s: nat, i: Index)
    requires PhysInv(ph) && PhysInv(ph') && Grown(ph, ph', r) && IsSpace(ph, r) && IsSpace(ph, s)
    ensures Shares(ph'.mem, r, s, i) <==> Shares(ph.mem, r, s, i)
  {
    assert LinkDown(ph, r, i) && LinkDown(ph, s, i);
  }
}
