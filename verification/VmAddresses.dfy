// From addresses to table indices and back: the indices are the digits of the
// page number, and a translation turns an address into a physical address.
module VmAddresses {
  import opened Words
  import opened Paging
  import opened VmSpec
  import opened VmFaults

  /** A canonical address is a 64-bit number whose bits 47..63 are all clear or all set. */
  lemma {:induction false} CanonicalBits(va: nat)
    requires va < WORD_LIMIT
    ensures Canonical(va) <==> va / 0x8000_0000_0000 == 0 || va / 0x8000_0000_0000 == 0x1_FFFF
  {
  }

  lemma {:induction false} FourDigits(p: seq<Index>)
    requires |p| == 4
    ensures Offset(p) == ((p[0] as int * 512 + p[1]) * 512 + p[2]) * 512 + p[3]
  {
    assert p[..3][..2] == p[..2] && p[..2][..1] == p[..1] && p[..1][..0] == [];
    assert Offset(p[..1]) == p[0];
    assert Offset(p[..2]) == p[0] as int * 512 + p[1];
    assert Offset(p[..3]) == (p[0] as int * 512 + p[1]) * 512 + p[2];
  }

  /** The four indices are the digits, in base 512, of bits 12..47 of the address. */
  lemma {:induction false} PathDigits(va: nat)
    ensures Offset(PathOf(va)) == va / 4096 % 0x10_0000_0000
  {
    hide Offset;
    var p, page, top := PathOf(va), va / 4096, va / 0x80_0000_0000;
    Quotients(va);
    FourDigits(p);
    var digits := ((p[0] as int * 512 + p[1]) * 512 + p[2]) * 512 + p[3];
    assert page == digits + 0x10_0000_0000 * (top / 512);
    Quotient(top / 512, digits, 0x10_0000_0000);
  }

  /** The physical address the processor computes for va in space r. */
  function AddressOf(mem: Memory, r: nat, va: nat): Option<nat>
    requires |mem| == FRAME_COUNT
  {
    var m := Resolve(mem, r, PathOf(va));
    if m.Some? then Some(m.value.frame * PAGE_SIZE + va % PAGE_SIZE) else None
  }

  /** Entry j of table t leads down to table `next`. */
  predicate Leads(mem: Memory, t: nat, j: Index, next: nat) {
    t < |mem| && Down(mem[t][j]) && mem[t][j].frame == next
  }

  lemma {:induction false} TwoDigits(p: seq<Index>)
    requires |p| == 2
    ensures Offset(p) == p[0] as int * 512 + p[1] && Offset(p[1..]) == p[1]
  {
    assert p[..1][..0] == [] && p[1..][..0] == [];
    assert Offset(p[..1]) == p[0];
  }

  /** A 4KB page: the entry's frame, and bits 0..11 of the address. */
  lemma {:induction false} SmallPageAddress(mem: Memory, r: nat, pdpt: nat, pd: nat, pt: nat, va: nat)
    requires |mem| == FRAME_COUNT && pt < FRAME_COUNT
    requires var p := PathOf(va); Leads(mem, r, p[0], pdpt) && Leads(mem, pdpt, p[1], pd) && Leads(mem, pd, p[2], pt)
    ensures var e := mem[pt][va / 4096 % 512];
      AddressOf(mem, r, va) == if e.present then Some(e.frame * 4096 + va % 4096) else None
  {
    var p := PathOf(va);
    assert p[1..][1..] == p[2..] && p[2..][1..] == p[3..];
    assert Resolve(mem, pd, p[2..]) == Resolve(mem, pt, p[3..]);
    assert Resolve(mem, pdpt, p[1..]) == Resolve(mem, pd, p[2..]);
  }

  /** A 2MB page: the entry's frame, and bits 0..20 of the address. */
  lemma {:induction false} LargePageAddress(mem: Memory, r: nat, pdpt: nat, pd: nat, va: nat)
    requires |mem| == FRAME_COUNT && pd < FRAME_COUNT
    requires var p := PathOf(va); Leads(mem, r, p[0], pdpt) && Leads(mem, pdpt, p[1], pd)
    requires var e := mem[pd][va / 0x20_0000 % 512]; e.present && e.huge
    ensures AddressOf(mem, r, va) == Some(mem[pd][va / 0x20_0000 % 512].frame * 4096 + va % 0x20_0000)
  {
    var p := PathOf(va);
    assert p[1..][1..] == p[2..];
    TwoDigits(p[2..]);
    assert Resolve(mem, pdpt, p[1..]) == Resolve(mem, pd, p[2..]);
    LowBits(va);
  }

  /** A 1GB page: the entry's frame, and bits 0..29 of the address. */
  lemma {:induction false} HugePageAddress(mem: Memory, r: nat, pdpt: nat, va: nat)
    requires |mem| == FRAME_COUNT && pdpt < FRAME_COUNT && Leads(mem, r, PathOf(va)[0], pdpt)
    requires var e := mem[pdpt][va / 0x4000_0000 % 512]; e.present && e.huge
    ensures AddressOf(mem, r, va) == Some(mem[pdpt][va / 0x4000_0000 % 512].frame * 4096 + va % 0x4000_0000)
  {
    var p := PathOf(va);
    assert p[1..][1..] == p[2..];
    TwoDigits(p[2..]);
    assert Resolve(mem, pdpt, p[1..]) == Some(Mapping(mem[pdpt][p[1]].frame + Offset(p[2..]), mem[pdpt][p[1]]));
    LowBits(va);
  }

  lemma {:induction false} LowBits(va: nat)
    ensures va % 0x20_0000 == va / 4096 % 512 * 4096 + va % 4096
    ensures va % 0x4000_0000 == (va / 0x20_0000 % 512 * 512 + va / 4096 % 512) * 4096 + va % 4096
  {
    Quotients(va);
  }
}
