// The keyboard handler's scancode state machine, and the two-pass description of
// what it types.
module KeyboardSpec {
  import opened Words

  const PREFIX: Byte := 0xE0
  const LEFT_SHIFT: Byte := 0x2A
  const RIGHT_SHIFT: Byte := 0x36

  /** kb_normal: the character of a make code, '\\0' if it has none. */
  function NormalKey(code: nat): char {
    match code
    case 0x01 => '\U{1B}'
    case 0x02 => '1'
    case 0x03 => '2'
    case 0x04 => '3'
    case 0x05 => '4'
    case 0x06 => '5'
    case 0x07 => '6'
    case 0x08 => '7'
    case 0x09 => '8'
    case 0x0A => '9'
    case 0x0B => '0'
    case 0x0C => '-'
    case 0x0D => '='
    case 0x0E => '\U{08}'
    case 0x0F => '\t'
    case 0x10 => 'q'
    case 0x11 => 'w'
    case 0x12 => 'e'
    case 0x13 => 'r'
    case 0x14 => 't'
    case 0x15 => 'y'
    case 0x16 => 'u'
    case 0x17 => 'i'
    case 0x18 => 'o'
    case 0x19 => 'p'
    case 0x1A => '['
    case 0x1B => ']'
    case 0x1C => '\n'
    case 0x1E => 'a'
    case 0x1F => 's'
    case 0x20 => 'd'
    case 0x21 => 'f'
    case 0x22 => 'g'
    case 0x23 => 'h'
    case 0x24 => 'j'
    case 0x25 => 'k'
    case 0x26 => 'l'
    case 0x27 => ';'
    case 0x28 => '\''
    case 0x29 => '`'
    case 0x2B => '\\'
    case 0x2C => 'z'
    case 0x2D => 'x'
    case 0x2E => 'c'
    case 0x2F => 'v'
    case 0x30 => 'b'
    case 0x31 => 'n'
    case 0x32 => 'm'
    case 0x33 => ','
    case 0x34 => '.'
    case 0x35 => '/'
    case 0x37 => '*'
    case 0x39 => ' '
    case 0x47 => '7'
    case 0x48 => '8'
    case 0x49 => '9'
    case 0x4A => '-'
    case 0x4B => '4'
    case 0x4C => '5'
    case 0x4D => '6'
    case 0x4E => '+'
    case 0x4F => '1'
    case 0x50 => '2'
    case 0x51 => '3'
    case 0x52 => '0'
    case 0x53 => '.'
    case _ => '\0'
  }

  /** kb_shift: the same with Shift held. */
  function ShiftedKey(code: nat): char {
    match code
    case 0x01 => '\U{1B}'
    case 0x02 => '!'
    case 0x03 => '@'
    case 0x04 => '#'
    case 0x05 => '$'
    case 0x06 => '%'
    case 0x07 => '^'
    case 0x08 => '&'
    case 0x09 => '*'
    case 0x0A => '('
    case 0x0B => ')'
    case 0x0C => '_'
    case 0x0D => '+'
    case 0x0E => '\U{08}'
    case 0x0F => '\t'
    case 0x10 => 'Q'
    case 0x11 => 'W'
    case 0x12 => 'E'
    case 0x13 => 'R'
    case 0x14 => 'T'
    case 0x15 => 'Y'
    case 0x16 => 'U'
    case 0x17 => 'I'
    case 0x18 => 'O'
    case 0x19 => 'P'
    case 0x1A => '{'
    case 0x1B => '}'
    case 0x1C => '\n'
    case 0x1E => 'A'
    case 0x1F => 'S'
    case 0x20 => 'D'
    case 0x21 => 'F'
    case 0x22 => 'G'
    case 0x23 => 'H'
    case 0x24 => 'J'
    case 0x25 => 'K'
    case 0x26 => 'L'
    case 0x27 => ':'
    case 0x28 => '\"'
    case 0x29 => '~'
    case 0x2B => '|'
    case 0x2C => 'Z'
    case 0x2D => 'X'
    case 0x2E => 'C'
    case 0x2F => 'V'
    case 0x30 => 'B'
    case 0x31 => 'N'
    case 0x32 => 'M'
    case 0x33 => '<'
    case 0x34 => '>'
    case 0x35 => '?'
    case 0x37 => '*'
    case 0x39 => ' '
    case _ => '\0'
  }

  datatype Keys = Keys(prefixed: bool, left: bool, right: bool)

  const RELEASED := Keys(false, false, false)

  /** keyboard_handler up to the ring: the new state and the character, if the byte types one. */
  function Handle(k: Keys, sc: Byte): (r: (Keys, Option<char>)) {
    if k.prefixed then (k.(prefixed := false), None)
    else if sc == PREFIX then (k.(prefixed := true), None)
    else
      var release, code := sc >= 0x80, sc % 0x80;
      if code == LEFT_SHIFT then (k.(left := !release), None)
      else if code == RIGHT_SHIFT then (k.(right := !release), None)
      else if release then (k, None)
      else
        var c := if k.left || k.right then ShiftedKey(code) else NormalKey(code);
        (k, Printed(c))
  }

  /** The state after a stream of bytes, and all characters typed. */
  function Handled(bs: seq<Byte>): (r: (Keys, seq<char>)) {
    if bs == [] then (RELEASED, [])
    else
      var (k, typed) := Handled(bs[..|bs| - 1]);
      var (k', c) := Handle(k, bs[|bs| - 1]);
      (k', if c.Some? then typed + [c.value] else typed)
  }

  // ---- The two passes ----

  /** First pass: drop each 0xE0 and the byte after it. */
  function Strip(bs: seq<Byte>): seq<Byte> {
    if bs == [] then []
    else if bs[0] != PREFIX then [bs[0]] + Strip(bs[1..])
    else if |bs| == 1 then [] else Strip(bs[2..])
  }

  /** The stream ends in a 0xE0 whose second byte is still to come. */
  predicate Dangling(bs: seq<Byte>) {
    bs != [] && if bs[0] != PREFIX then Dangling(bs[1..]) else |bs| == 1 || Dangling(bs[2..])
  }

  /** A key is held after these bytes: its last make code is not followed by its break code. */
  ghost predicate Held(kept: seq<Byte>, code: Byte)
    requires code < 0x80
  {
    exists i :: 0 <= i < |kept| && kept[i] == code && forall j :: i < j < |kept| ==> kept[j] != code + 0x80
  }

  ghost predicate ShiftHeld(kept: seq<Byte>) { Held(kept, LEFT_SHIFT) || Held(kept, RIGHT_SHIFT) }

  /** Second pass: what one make code types, given the bytes before it. */
  ghost function Types(before: seq<Byte>, sc: Byte): Option<char> {
    if sc >= 0x80 || sc == LEFT_SHIFT || sc == RIGHT_SHIFT then None
    else if ShiftHeld(before) then Printed(ShiftedKey(sc)) else Printed(NormalKey(sc))
  }

  /** A table entry of '\\0' is no character. */
  function Printed(c: char): Option<char> { if c == '\0' then None else Some(c) }

  ghost function Typed(kept: seq<Byte>): seq<char> {
    if kept == [] then []
    else
      var n := |kept| - 1;
      Typed(kept[..n]) + (var c := Types(kept[..n], kept[n]); if c.Some? then [c.value] else [])
  }

  lemma {:induction false} StripLast(bs: seq<Byte>, x: Byte)
    ensures Strip(bs + [x]) == if Dangling(bs) || x == PREFIX then Strip(bs) else Strip(bs) + [x]
    ensures Dangling(bs + [x]) <==> !Dangling(bs) && x == PREFIX
    decreases |bs|
  {
    if bs == [] {
      assert bs + [x] == [x] && [x][1..] == [];
    } else if bs[0] != PREFIX {
      assert (bs + [x])[1..] == bs[1..] + [x];
      StripLast(bs[1..], x);
    } else if |bs| == 1 {
      assert (bs + [x])[2..] == [];
    } else {
      assert (bs + [x])[2..] == bs[2..] + [x];
      StripLast(bs[2..], x);
    }
  }

  /** A byte changes whether a key is held only if it is that key's make or break code. */
  lemma {:induction false} HeldLast(kept: seq<Byte>, x: Byte, code: Byte)
    requires code < 0x80
    ensures Held(kept + [x], code) <==> x == code || (Held(kept, code) && x != code + 0x80)
  {
    var n := |kept|;
    if x == code {
      assert (kept + [x])[n] == code;
    } else if Held(kept, code) && x != code + 0x80 {
      var i :| 0 <= i < |kept| && kept[i] == code && forall j :: i < j < |kept| ==> kept[j] != code + 0x80;
      assert (kept + [x])[i] == code;
    }
    if Held(kept + [x], code) && x != code {
      var i :| 0 <= i < n + 1 && (kept + [x])[i] == code && forall j :: i < j < n + 1 ==> (kept + [x])[j] != code + 0x80;
      assert (kept + [x])[n] == x;
      assert kept[i] == code;
      assert forall j :: i < j < |kept| ==> kept[j] == (kept + [x])[j];
    }
  }

  /**
   * For every byte stream the state and the characters are those of the two passes.
   * As this holds for each prefix, the characters come out byte by byte as described.
   */
  lemma {:induction false} TwoPasses(bs: seq<Byte>)
    ensures Handled(bs).1 == Typed(Strip(bs))
    ensures var kept := Strip(bs);
      Handled(bs).0 == Keys(Dangling(bs), Held(kept, LEFT_SHIFT), Held(kept, RIGHT_SHIFT))
    decreases |bs|
  {
    if bs == [] {
      return;
    }
    hide NormalKey, ShiftedKey, Held, Strip, Dangling;
    var most, x := bs[..|bs| - 1], bs[|bs| - 1];
    assert bs == most + [x];
    TwoPasses(most);
    StripLast(most, x);
    if !Dangling(most) && x != PREFIX {
      KeptByte(Strip(most), x);
    }
  }

  /** A byte that is kept is handled as the second pass says. */
  lemma {:induction false} KeptByte(kept: seq<Byte>, x: Byte)
    requires x != PREFIX
    ensures var k := Keys(false, Held(kept, LEFT_SHIFT), Held(kept, RIGHT_SHIFT));
      var k' := Keys(false, Held(kept + [x], LEFT_SHIFT), Held(kept + [x], RIGHT_SHIFT));
      Handle(k, x) == (k', Types(kept, x))
    ensures Typed(kept + [x]) == Typed(kept) + if Types(kept, x).Some? then [Types(kept, x).value] else []
  {
    hide NormalKey, ShiftedKey, Held;
    HeldLast(kept, x, LEFT_SHIFT);
    HeldLast(kept, x, RIGHT_SHIFT);
    assert (kept + [x])[..|kept|] == kept;
  }

  /** Neither a break code nor a prefix nor the byte after a prefix types anything. */
  lemma {:induction false} SilentBytes(bs: seq<Byte>, x: Byte)
    ensures Dangling(bs) || x >= 0x80 ==> Handled(bs + [x]).1 == Handled(bs).1
  {
    TwoPasses(bs);
    assert (bs + [x])[..|bs|] == bs;
  }
}
