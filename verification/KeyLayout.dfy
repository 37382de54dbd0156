// The keyboard's layout, row by row as it stands on the keys: what the two scancode
// tables hold.
module KeyLayout {
  import opened KeyboardSpec

  /** Four rows of keys from left to right, without and with Shift, and the keypad. */
  const DIGITS := "1234567890-="
  const DIGITS_SHIFTED := "!@#$%^&*()_+"
  const UPPER := "qwertyuiop[]"
  const UPPER_SHIFTED := "QWERTYUIOP{}"
  const HOME := "asdfghjkl;'`"
  const HOME_SHIFTED := "ASDFGHJKL:\"~"
  const LOWER := "\\zxcvbnm,./"
  const LOWER_SHIFTED := "|ZXCVBNM<>?"
  const KEYPAD := "789-456+1230."

  /** The key stands in a row that starts at the given scancode. */
  predicate InRow(code: nat, start: nat, row: string) { start <= code < start + |row| }

  /** The keys that give the same character with and without Shift: Esc, Backspace, Tab, Enter, keypad *, Space. */
  function Plain(code: nat): char {
    if code == 0x01 then 27 as char else if code == 0x0E then 8 as char else if code == 0x0F then '\t'
    else if code == 0x1C then '\n' else if code == 0x37 then '*' else if code == 0x39 then ' ' else '\0'
  }

  function OnKey(code: nat, shift: bool): char {
    if InRow(code, 0x02, DIGITS) then (if shift then DIGITS_SHIFTED else DIGITS)[code - 0x02]
    else if InRow(code, 0x10, UPPER) then (if shift then UPPER_SHIFTED else UPPER)[code - 0x10]
    else if InRow(code, 0x1E, HOME) then (if shift then HOME_SHIFTED else HOME)[code - 0x1E]
    else if InRow(code, 0x2B, LOWER) then (if shift then LOWER_SHIFTED else LOWER)[code - 0x2B]
    else if InRow(code, 0x47, KEYPAD) then (if shift then '\0' else KEYPAD[code - 0x47])
    else Plain(code)
  }

  lemma {:induction false} DigitsRow(code: nat)
    requires InRow(code, 0x02, DIGITS)
    ensures NormalKey(code) == DIGITS[code - 0x02] && ShiftedKey(code) == DIGITS_SHIFTED[code - 0x02]
  {
  }

  lemma {:induction false} UpperRow(code: nat)
    requires InRow(code, 0x10, UPPER)
    ensures NormalKey(code) == UPPER[code - 0x10] && ShiftedKey(code) == UPPER_SHIFTED[code - 0x10]
  {
  }

  lemma {:induction false} HomeRow(code: nat)
    requires InRow(code, 0x1E, HOME)
    ensures NormalKey(code) == HOME[code - 0x1E] && ShiftedKey(code) == HOME_SHIFTED[code - 0x1E]
  {
  }

  lemma {:induction false} LowerRow(code: nat)
    requires InRow(code, 0x2B, LOWER)
    ensures NormalKey(code) == LOWER[code - 0x2B] && ShiftedKey(code) == LOWER_SHIFTED[code - 0x2B]
  {
  }

  lemma {:induction false} KeypadRow(code: nat)
    requires InRow(code, 0x47, KEYPAD)
    ensures NormalKey(code) == KEYPAD[code - 0x47] && ShiftedKey(code) == '\0'
  {
  }

  lemma {:induction false} OtherKeys(code: nat)
    requires !InRow(code, 0x02, DIGITS) && !InRow(code, 0x10, UPPER) && !InRow(code, 0x1E, HOME)
    requires !InRow(code, 0x2B, LOWER) && !InRow(code, 0x47, KEYPAD)
    ensures NormalKey(code) == ShiftedKey(code) == Plain(code)
  {
  }

  /** Both tables are the layout, for every scancode. */
  lemma {:induction false} TablesAreLayout(code: nat)
    ensures NormalKey(code) == OnKey(code, false) && ShiftedKey(code) == OnKey(code, true)
  {
    hide NormalKey, ShiftedKey, Plain;
    if InRow(code, 0x02, DIGITS) { DigitsRow(code); }
    else if InRow(code, 0x10, UPPER) { UpperRow(code); }
    else if InRow(code, 0x1E, HOME) { HomeRow(code); }
    else if InRow(code, 0x2B, LOWER) { LowerRow(code); }
    else if InRow(code, 0x47, KEYPAD) { KeypadRow(code); }
    else { OtherKeys(code); }
  }

  predicate Letter(c: char) { 'a' <= c <= 'z' }

  /** Shift turns each letter into its capital, and no other key into one. */
  lemma {:induction false} ShiftCapitalizes(code: nat)
    ensures Letter(NormalKey(code)) <==> 'A' <= ShiftedKey(code) <= 'Z'
    ensures Letter(NormalKey(code)) ==> ShiftedKey(code) as int == NormalKey(code) as int - 'a' as int + 'A' as int
  {
  }
}
