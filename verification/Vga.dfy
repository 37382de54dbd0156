// The terminal driver: the VGA text buffer changed in place.
module Vga {
  import opened Terminal

  class Vga {
    const buffer: array<int>
    var row: nat
    var col: nat
    var color: Color

    ghost function Abstract(): Screen
      reads this, buffer
    {
      Screen(buffer[..], row, col, color)
    }

    ghost predicate Valid()
      reads this, buffer
    {
      InRange(Abstract())
    }

    /** The buffer as the firmware leaves it. */
    constructor (buffer: array<int>)
      requires buffer.Length == WIDTH * HEIGHT
      ensures Valid() && Abstract() == Screen(buffer[..], 0, 0, 7) && this.buffer == buffer
    {
      this.buffer := buffer;
      row, col, color := 0, 0, 7;
    }

    /** vga_scroll */
    method Scroll()
      requires buffer.Length == WIDTH * HEIGHT
      modifies buffer
      ensures buffer[..] == Scrolled(old(buffer[..]), color)
    {
      for i := 0 to (HEIGHT - 1) * WIDTH
        invariant forall j :: 0 <= j < i ==> buffer[j] == old(buffer[..])[j + WIDTH]
        invariant forall j :: i <= j < buffer.Length ==> buffer[j] == old(buffer[..])[j]
      {
        buffer[i] := buffer[i + WIDTH];
      }
      for i := (HEIGHT - 1) * WIDTH to HEIGHT * WIDTH
        invariant forall j :: 0 <= j < (HEIGHT - 1) * WIDTH ==> buffer[j] == old(buffer[..])[j + WIDTH]
        invariant forall j :: (HEIGHT - 1) * WIDTH <= j < i ==> buffer[j] == Entry(' ', color)
      {
        buffer[i] := Entry(' ', color);
      }
    }

    /** vga_newline */
    method Newline()
      requires buffer.Length == WIDTH * HEIGHT && row < HEIGHT
      modifies this`row, this`col, buffer
      ensures Abstract() == NewLine(old(Abstract()))
    {
      col := 0;
      row := row + 1;
      if row >= HEIGHT {
        Scroll();
        row := HEIGHT - 1;
      }
    }

    method Clear()
      requires Valid()
      modifies this`row, this`col, buffer
      ensures Valid() && Abstract() == Cleared(color)
    {
      for i := 0 to WIDTH * HEIGHT
        invariant forall j :: 0 <= j < i ==> buffer[j] == Entry(' ', color)
      {
        buffer[i] := Entry(' ', color);
      }
      row := 0;
      col := 0;
    }

    method SetColor(attr: Color)
      requires Valid()
      modifies this`color
      ensures Valid() && Abstract() == old(Abstract()).(color := attr)
    {
      color := attr;
    }

    /** vga_putchar: every write stays inside the buffer, and so does the cursor. */
    method Putchar(c: Char8)
      requires Valid()
      modifies this`row, this`col, buffer
      ensures Valid() && Abstract() == PutChar(old(Abstract()), c)
    {
      if c == '\n' {
        Newline();
      } else if c == '\r' {
        col := 0;
      } else if c == '\t' {
        col := (col + 8) / 8 * 8;
        if col >= WIDTH {
          Newline();
        }
      } else if c == '\U{08}' {
        if col > 0 {
          col := col - 1;
        }
      } else {
        buffer[row * WIDTH + col] := Entry(c, color);
        col := col + 1;
        if col >= WIDTH {
          Newline();
        }
      }
    }
  }
}
