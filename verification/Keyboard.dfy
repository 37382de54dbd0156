// The keyboard driver: the interrupt handler and kb_get over the shared ring.
module Keyboard {
  import opened Words
  import opened KeyboardSpec
  import opened KeyRing

  class Keyboard {
    const buf: array<char>
    var head: Slot
    var tail: Slot
    var prefixed: bool
    var left: bool
    var right: bool
    ghost var accepted: seq<char>
    ghost var delivered: seq<char>

    ghost function KeyState(): Keys
      reads this
    {
      Keys(prefixed, left, right)
    }

    /** The ring between two calls of kb_get. */
    ghost function RingState(): System
      reads this, buf
    {
      System(Ring(buf[..], head, tail), Idle, accepted, delivered)
    }

    ghost predicate Valid()
      reads this, buf
    {
      Inv(RingState())
    }

    constructor ()
      ensures Valid() && KeyState() == RELEASED && RingState() == START
    {
      buf := new char[64](_ => '\0');
      head, tail := 0, 0;
      prefixed, left, right := false, false, false;
      accepted, delivered := [], [];
      new;
      assert buf[..] == START.ring.buf;
    }

    /** keyboard_handler on the byte read from port 0x60. */
    method Handler(sc: Byte)
      requires Valid()
      modifies this, buf
      ensures Valid()
      ensures KeyState() == Handle(old(KeyState()), sc).0
      ensures var c := Handle(old(KeyState()), sc).1;
        RingState() == if c.Some? then Produce(old(RingState()), c.value) else old(RingState())
    {
      hide NormalKey, ShiftedKey, Inv;
      if prefixed {
        prefixed := false;
        return;
      }
      if sc == PREFIX {
        prefixed := true;
        return;
      }
      var release := sc >= 0x80;
      var code := sc % 0x80;
      if code == LEFT_SHIFT {
        left := !release;
        return;
      }
      if code == RIGHT_SHIFT {
        right := !release;
        return;
      }
      if release {
        return;
      }
      var c := if left || right then ShiftedKey(code) else NormalKey(code);
      if c == '\0' {
        return;
      }
      ProduceKeepsInv(RingState(), c);
      BufferSize(RingState());
      var next := Next(head);
      if next == tail {
        return;
      }
      buf[head] := c;
      head := next;
      accepted := accepted + [c];
    }

    /** kb_get, when no interrupt strikes: the oldest character, or -1. */
    method KbGet() returns (c: int)
      requires Valid()
      modifies this`tail, this`delivered
      ensures Valid() && accepted == old(accepted)
      ensures var q := Queue(old(RingState()));
        if q == [] then c == -1 && RingState() == old(RingState())
        else c == q[0] as int && Queue(RingState()) == q[1..]
      ensures RingState() == RunSteps(old(RingState()), Uninterrupted())
    {
      hide Next, Waiting;
      var s := RingState();
      UninterruptedCall(s);
      if head == tail {
        SameSlot(|delivered|, |accepted|);
        return -1;
      }
      assert |delivered| < |accepted|;
      FrontWaits(s);
      var ch := buf[tail];
      RetireKeepsInv(s.(pc := LoadedCharTail(ch, tail)), Advance);
      tail := Next(tail);
      delivered := delivered + [ch];
      return ch as int;
    }
  }

  lemma {:induction false} BufferSize(s: System)
    requires Inv(s)
    ensures |s.ring.buf| == SIZE
  {
  }
}
