// From scancode bytes to delivered characters: the handler's state machine and the
// ring together, under every interleaving of interrupts with the loads and stores
// of kb_get.
module KeyStream {
  import opened Words
  import opened KeyboardSpec
  import opened KeyRing

  /** An interrupt with its scancode byte, or one load or store of kb_get. */
  datatype Event = Key(sc: Byte) | Consumer(step: Step)

  datatype Machine = Machine(keys: Keys, system: System)

  /** A character the handler found, with the number of accepted characters not yet retired when it came. */
  datatype Arrival = Arrival(c: char, waiting: int)

  /** The ring after the handler has found a character, or none. */
  function Arrive(s: System, c: Option<char>): (s': System)
    requires |s.ring.buf| == SIZE
    ensures |s'.ring.buf| == SIZE
  {
    if c.Some? then Produce(s, c.value) else s
  }

  function AfterEvent(m: Machine, e: Event): (m': Machine)
    requires |m.system.ring.buf| == SIZE
    ensures |m'.system.ring.buf| == SIZE
  {
    match e
    case Key(sc) =>
      Machine(Handle(m.keys, sc).0, Arrive(m.system, Handle(m.keys, sc).1))
    case Consumer(step) =>
      Machine(m.keys, Take(m.system, step))
  }

  /** No key is down and nothing was typed yet; the zeroed ring of START is such a state. */
  ghost predicate Quiet(m: Machine) { m.keys == RELEASED && Inv(m.system) && m.system.accepted == [] }

  lemma {:induction false} StartIsQuiet()
    ensures Quiet(Machine(RELEASED, START))
  {
    StartHolds();
  }

  function Reached(m: Machine, es: seq<Event>): (r: Machine)
    requires |m.system.ring.buf| == SIZE
    ensures |r.system.ring.buf| == SIZE
  {
    if es == [] then m else AfterEvent(Reached(m, es[..|es| - 1]), es[|es| - 1])
  }

  /** The characters the handler found over the run, in order. */
  function Arrivals(m: Machine, es: seq<Event>): seq<Arrival>
    requires |m.system.ring.buf| == SIZE
  {
    if es == [] then []
    else
      var now, e := Reached(m, es[..|es| - 1]), es[|es| - 1];
      Arrivals(m, es[..|es| - 1]) +
        if e.Key? && Handle(now.keys, e.sc).1.Some?
        then [Arrival(Handle(now.keys, e.sc).1.value, |now.system.accepted| - |now.system.delivered|)]
        else []
  }

  function BytesOf(es: seq<Event>): seq<Byte> {
    if es == [] then []
    else BytesOf(es[..|es| - 1]) + if es[|es| - 1].Key? then [es[|es| - 1].sc] else []
  }

  function Characters(arrivals: seq<Arrival>): seq<char> {
    if arrivals == [] then []
    else Characters(arrivals[..|arrivals| - 1]) + [arrivals[|arrivals| - 1].c]
  }

  /** The characters that came with fewer than 63 waiting. */
  function Admitted(arrivals: seq<Arrival>): seq<char> {
    if arrivals == [] then []
    else
      var last := arrivals[|arrivals| - 1];
      Admitted(arrivals[..|arrivals| - 1]) + if last.waiting < 63 then [last.c] else []
  }

  lemma {:induction false} OneMore(arrivals: seq<Arrival>, a: Arrival)
    ensures Characters(arrivals + [a]) == Characters(arrivals) + [a.c]
    ensures Admitted(arrivals + [a]) == Admitted(arrivals) + if a.waiting < 63 then [a.c] else []
  {
    assert (arrivals + [a])[..|arrivals|] == arrivals;
  }

  lemma {:induction false} HandledLast(bs: seq<Byte>, sc: Byte)
    ensures var (k, typed) := Handled(bs); var (k', c) := Handle(k, sc);
      Handled(bs + [sc]) == (k', if c.Some? then typed + [c.value] else typed)
  {
    hide Handle;
    assert (bs + [sc])[..|bs|] == bs;
  }

  /** The ring's invariant holds throughout. */
  lemma {:induction false} ReachedInv(m: Machine, es: seq<Event>)
    requires Inv(m.system)
    ensures Inv(Reached(m, es).system)
    decreases |es|
  {
    hide Handle, Produce, Take, Loaded, Waiting;
    if es != [] {
      var most, e := es[..|es| - 1], es[|es| - 1];
      ReachedInv(m, most);
      var now := Reached(m, most);
      match e
      case Key(sc) => if Handle(now.keys, sc).1.Some? { ProduceKeepsInv(now.system, Handle(now.keys, sc).1.value); }
      case Consumer(step) => TakeKeepsInv(now.system, step);
    }
  }

  /** What one event does to the keys and to the characters accepted. */
  lemma {:induction false} EventFacts(m: Machine, e: Event)
    requires Inv(m.system)
    ensures var m' := AfterEvent(m, e);
      var c := if e.Key? then Handle(m.keys, e.sc).1 else None;
      && m'.system.accepted == m.system.accepted +
           (if c.Some? && |m.system.accepted| - |m.system.delivered| < 63 then [c.value] else [])
      && m'.keys == (if e.Key? then Handle(m.keys, e.sc).0 else m.keys)
  {
    hide Handle;
    DropsIff(m.system);
  }

  lemma {:induction false} Follows(m: Machine, es: seq<Event>)
    requires Quiet(m)
    ensures Reached(m, es).keys == Handled(BytesOf(es)).0
    ensures Characters(Arrivals(m, es)) == Handled(BytesOf(es)).1
    ensures Reached(m, es).system.accepted == Admitted(Arrivals(m, es))
    decreases |es|
  {
    hide Handle, AfterEvent, Loaded, Waiting;
    if es != [] {
      var most, e := es[..|es| - 1], es[|es| - 1];
      Follows(m, most);
      var now := Reached(m, most);
      ReachedInv(m, most);
      EventFacts(now, e);
      assert Arrivals(m, most) + [] == Arrivals(m, most) && BytesOf(most) + [] == BytesOf(most);
      if e.Key? {
        HandledLast(BytesOf(most), e.sc);
        var c := Handle(now.keys, e.sc).1;
        if c.Some? {
          OneMore(Arrivals(m, most), Arrival(c.value, |now.system.accepted| - |now.system.delivered|));
        }
      }
    }
  }

  /**
   * Over every interleaving of scancode bytes with the loads and stores of kb_get, the
   * characters found are those of the two passes over the bytes; the ring accepts
   * exactly those that came with fewer than 63 waiting; and what kb_get delivers is
   * the beginning of what was accepted.
   */
  lemma {:induction false} BytesToCharacters(m: Machine, es: seq<Event>)
    requires Quiet(m)
    ensures Characters(Arrivals(m, es)) == Typed(Strip(BytesOf(es)))
    ensures Reached(m, es).system.accepted == Admitted(Arrivals(m, es))
    ensures Reached(m, es).system.delivered <= Reached(m, es).system.accepted
  {
    hide Handle, AfterEvent, Arrivals, Typed, Strip, Handled, Characters, Admitted, Loaded, Waiting;
    TwoPasses(BytesOf(es));
    Follows(m, es);
    ReachedInv(m, es);
  }
}
