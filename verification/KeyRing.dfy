// The single-producer single-consumer ring between the keyboard interrupt and the
// main loop, with the interrupt striking between any two loads or stores of kb_get.
module KeyRing {
  const SIZE: nat := 64

  type Slot = i: nat | i < 64

  /** The shared variables. */
  datatype Ring = Ring(buf: seq<char>, head: Slot, tail: Slot)

  /**
   * Where kb_get stands, with what it has loaded. In the test `kb_head == kb_tail`
   * the two loads may come in either order. `seen` is how many characters had been
   * accepted when the head was loaded.
   */
  datatype Pc =
    | Idle
    | LoadedHead(head: Slot, seen: nat)
    | LoadedTail(tail: Slot)
    | NotEmpty
    | LoadedSlot(slot: Slot)
    | LoadedChar(c: char)
    | LoadedCharTail(c: char, tail: Slot)

  /** The ring, the consumer, and the history: characters accepted and characters delivered. */
  datatype System = System(ring: Ring, pc: Pc, accepted: seq<char>, delivered: seq<char>)

  datatype Step =
    | Interrupt(c: char)
    | LoadHead
    | LoadTail
    | Advance

  function Next(i: Slot): Slot { (i + 1) % 64 }

  /** The producer, which runs to its end once it has struck: a full ring drops the new character. */
  function Produce(s: System, c: char): System
    requires |s.ring.buf| == SIZE
  {
    var r := s.ring;
    if Next(r.head) == r.tail then s
    else s.(ring := Ring(r.buf[r.head := c], Next(r.head), r.tail), accepted := s.accepted + [c])
  }

  predicate Drops(s: System) { Next(s.ring.head) == s.ring.tail }

  /** One load or store of kb_get. `LoadHead` and `LoadTail` start a call. */
  function Take(s: System, step: Step): System
    requires |s.ring.buf| == SIZE
  {
    var r := s.ring;
    match s.pc
    case Idle =>
      if step.LoadHead? then s.(pc := LoadedHead(r.head, |s.accepted|))
      else if step.LoadTail? then s.(pc := LoadedTail(r.tail))
      else s
    case LoadedHead(head, seen) => s.(pc := if head == r.tail then Idle else NotEmpty)
    case LoadedTail(tail) => s.(pc := if r.head == tail then Idle else NotEmpty)
    case NotEmpty => s.(pc := LoadedSlot(r.tail))
    case LoadedSlot(slot) => s.(pc := LoadedChar(r.buf[slot]))
    case LoadedChar(c) => s.(pc := LoadedCharTail(c, r.tail))
    case LoadedCharTail(c, tail) =>
      s.(ring := r.(tail := Next(tail)), pc := Idle, delivered := s.delivered + [c])
  }

  function After(s: System, step: Step): System
    requires |s.ring.buf| == SIZE
  {
    if step.Interrupt? then Produce(s, step.c) else Take(s, step)
  }

  // ---- The invariant ----

  /** Character number k waits in slot k mod 64. */
  predicate Waiting(buf: seq<char>, accepted: seq<char>, k: nat)
    requires |buf| == SIZE && k < |accepted|
  {
    buf[k % 64] == accepted[k]
  }

  /** What kb_get has loaded is what it needs. */
  predicate Loaded(s: System) {
    var d, n := |s.delivered|, |s.accepted|;
    match s.pc
    case Idle => true
    case LoadedHead(head, seen) => d <= seen <= n && head == seen % 64
    case LoadedTail(tail) => tail == d % 64
    case NotEmpty => d < n
    case LoadedSlot(slot) => d < n && slot == d % 64
    case LoadedChar(c) => d < n && c == s.accepted[d]
    case LoadedCharTail(c, tail) => d < n && c == s.accepted[d] && tail == d % 64
  }

  ghost predicate Inv(s: System) {
    && |s.ring.buf| == SIZE
    && |s.delivered| <= |s.accepted| <= |s.delivered| + 63
    && s.ring.head == |s.accepted| % 64 && s.ring.tail == |s.delivered| % 64
    && s.delivered == s.accepted[..|s.delivered|]
    && (forall k :: |s.delivered| <= k < |s.accepted| ==> Waiting(s.ring.buf, s.accepted, k))
    && Loaded(s)
  }

  /** Within a window of 64 equal slots mean equal positions. */
  lemma {:induction false} SameSlot(x: nat, y: nat)
    requires x <= y < x + 64 && x % 64 == y % 64
    ensures x == y
  {
  }

  lemma {:induction false} NextSlot(n: nat)
    ensures Next(n % 64) == (n + 1) % 64
  {
  }

  /** The producer drops a character exactly if 63 are not yet retired. */
  lemma {:induction false} DropsIff(s: System)
    requires Inv(s)
    ensures Drops(s) <==> |s.accepted| == |s.delivered| + 63
  {
  }

  lemma {:induction false} ProduceKeepsInv(s: System, c: char)
    requires Inv(s)
    ensures Inv(Produce(s, c))
  {
    hide Next;
    var n, d := |s.accepted|, |s.delivered|;
    DropsIff(s);
    NextSlot(n);
    if !Drops(s) {
      var s' := Produce(s, c);
      forall k | d <= k < n + 1
        ensures Waiting(s'.ring.buf, s'.accepted, k)
      {
        if k < n {
          assert Waiting(s.ring.buf, s.accepted, k);
          if k % 64 == n % 64 { SameSlot(k, n); }
        }
      }
      assert s'.accepted[..d] == s.accepted[..d];
    }
  }

  lemma {:induction false} RetireKeepsInv(s: System, step: Step)
    requires Inv(s) && s.pc.LoadedCharTail?
    ensures Inv(Take(s, step))
  {
    hide Next, Waiting;
    var d := |s.delivered|;
    NextSlot(d);
    assert s.accepted[..d + 1] == s.accepted[..d] + [s.accepted[d]];
  }

  lemma {:induction false} TakeKeepsInv(s: System, step: Step)
    requires Inv(s)
    ensures Inv(Take(s, step))
  {
    hide Next, Waiting;
    match s.pc
    case LoadedSlot(slot) => FrontWaits(s);
    case LoadedCharTail(c, tail) => RetireKeepsInv(s, step);
    case _ =>
  }

  lemma {:induction false} FrontWaits(s: System)
    requires Inv(s) && |s.delivered| < |s.accepted|
    ensures s.ring.buf[|s.delivered| % 64] == s.accepted[|s.delivered|]
  {
    assert Waiting(s.ring.buf, s.accepted, |s.delivered|);
  }

  // ---- Refinement of a bounded queue ----

  /** The characters accepted and not yet retired. */
  function Queue(s: System): seq<char>
    requires |s.delivered| <= |s.accepted|
  {
    s.accepted[|s.delivered|..]
  }

  /** The step is the store that ends a successful kb_get. */
  predicate Retires(s: System, step: Step) { !step.Interrupt? && s.pc.LoadedCharTail? }

  /** The test of kb_get finds the ring empty and returns -1. */
  predicate ReturnsEmpty(s: System, step: Step) {
    !step.Interrupt? &&
    match s.pc
    case LoadedHead(head, _) => head == s.ring.tail
    case LoadedTail(tail) => s.ring.head == tail
    case _ => false
  }

  /** The step ends a call of kb_get. */
  predicate EndsCall(s: System, step: Step)
    requires |s.ring.buf| == SIZE
  {
    !s.pc.Idle? && After(s, step).pc.Idle?
  }

  /**
   * Each step is a step of a queue of capacity 63: an interrupt appends unless 63
   * characters are not yet retired, the last store of kb_get removes the front and
   * returns it, and all other loads and stores leave the queue alone. A call ends with
   * that store, or with a test that finds the ring empty, and in no other way.
   */
  lemma {:induction false} RefinesQueue(s: System, step: Step)
    requires Inv(s)
    ensures Inv(After(s, step))
    ensures var q, q' := Queue(s), Queue(After(s, step));
      && (step.Interrupt? ==> q' == if |q| < 63 then q + [step.c] else q)
      && (Retires(s, step) ==> q != [] && s.pc.c == q[0] && q' == q[1..]
                               && After(s, step).delivered == s.delivered + [q[0]])
      && (!step.Interrupt? && !Retires(s, step) ==> q' == q && After(s, step).delivered == s.delivered)
    ensures EndsCall(s, step) <==> Retires(s, step) || ReturnsEmpty(s, step)
  {
    if step.Interrupt? {
      ProduceKeepsInv(s, step.c);
    } else {
      TakeKeepsInv(s, step);
    }
  }

  /** kb_get finds the ring empty exactly if every character accepted when it loaded the head had been delivered. */
  lemma {:induction false} EmptyIsEmpty(s: System, step: Step)
    requires Inv(s) && !step.Interrupt?
    ensures ReturnsEmpty(s, step) <==>
      || (s.pc.LoadedHead? && s.pc.seen == |s.delivered|)
      || (s.pc.LoadedTail? && Queue(s) == [])
  {
    if s.pc.LoadedHead? && s.pc.head == s.ring.tail { SameSlot(|s.delivered|, s.pc.seen); }
    if s.pc.LoadedTail? && s.ring.head == s.pc.tail { SameSlot(|s.delivered|, |s.accepted|); }
  }

  // ---- Whole calls ----

  function RunSteps(s: System, steps: seq<Step>): (t: System)
    requires |s.ring.buf| == SIZE
    ensures |t.ring.buf| == SIZE
    decreases |steps|
  {
    if steps == [] then s else RunSteps(After(s, steps[0]), steps[1..])
  }

  /** The loads and stores of kb_get among the steps. */
  function OwnSteps(steps: seq<Step>): nat {
    if steps == [] then 0 else (if steps[0].Interrupt? then 0 else 1) + OwnSteps(steps[1..])
  }

  /** The loads and stores still to come once the ring was found not empty. */
  function Remaining(pc: Pc): nat {
    match pc
    case NotEmpty => 4
    case LoadedSlot(_) => 3
    case LoadedChar(_) => 2
    case LoadedCharTail(_, _) => 1
    case _ => 0
  }

  /** Interrupts alone neither move kb_get nor deliver anything. */
  lemma {:induction false} InterruptsOnly(s: System, steps: seq<Step>)
    requires |s.ring.buf| == SIZE && OwnSteps(steps) == 0
    ensures RunSteps(s, steps).pc == s.pc && RunSteps(s, steps).delivered == s.delivered
    decreases |steps|
  {
    if steps != [] { InterruptsOnly(After(s, steps[0]), steps[1..]); }
  }

  /** Once it has found the ring not empty, kb_get delivers the front, whatever interrupts strike. */
  lemma {:induction false} Delivers(s: System, steps: seq<Step>)
    requires Inv(s) && Remaining(s.pc) > 0 && OwnSteps(steps) == Remaining(s.pc)
    ensures |s.delivered| < |s.accepted|
    ensures var t := RunSteps(s, steps); t.pc.Idle? && t.delivered == s.delivered + [s.accepted[|s.delivered|]]
    decreases |steps|
  {
    hide Waiting;
    var s' := After(s, steps[0]);
    RefinesQueue(s, steps[0]);
    if s'.pc.Idle? {
      InterruptsOnly(s', steps[1..]);
    } else {
      Delivers(s', steps[1..]);
    }
  }

  /** Between its two loads kb_get has loaded a head, or will load one, that is ahead of the tail. */
  predicate WillFind(s: System) {
    match s.pc
    case LoadedHead(_, seen) => |s.delivered| < seen
    case LoadedTail(_) => |s.delivered| < |s.accepted|
    case _ => false
  }

  lemma {:induction false} FindsAndDelivers(s: System, steps: seq<Step>)
    requires Inv(s) && WillFind(s) && OwnSteps(steps) == 5
    ensures |s.delivered| < |s.accepted|
    ensures var t := RunSteps(s, steps); t.pc.Idle? && t.delivered == s.delivered + [s.accepted[|s.delivered|]]
    decreases |steps|
  {
    hide Waiting;
    var s' := After(s, steps[0]);
    RefinesQueue(s, steps[0]);
    if steps[0].Interrupt? {
      FindsAndDelivers(s', steps[1..]);
    } else {
      EmptyIsEmpty(s, steps[0]);
      Delivers(s', steps[1..]);
    }
  }

  /**
   * A call of kb_get that starts when characters wait delivers the first of them, after
   * its six loads and stores, in either order of the first two and with any interrupts
   * in between.
   */
  lemma {:induction false} CallDelivers(s: System, first: Step, steps: seq<Step>)
    requires Inv(s) && s.pc.Idle? && (first.LoadHead? || first.LoadTail?) && OwnSteps(steps) == 5
    requires Queue(s) != []
    ensures var t := RunSteps(s, [first] + steps); t.pc.Idle? && t.delivered == s.delivered + [Queue(s)[0]]
  {
    RefinesQueue(s, first);
    assert ([first] + steps)[1..] == steps;
    FindsAndDelivers(After(s, first), steps);
  }

  /** The six loads and stores of a call without interrupts. */
  function Uninterrupted(): seq<Step> { [LoadHead, Advance, Advance, Advance, Advance, Advance] }

  /** Such a call removes the front of the queue, or finds the queue empty and changes nothing. */
  lemma {:induction false} UninterruptedCall(s: System)
    requires Inv(s) && s.pc.Idle?
    ensures var t := RunSteps(s, Uninterrupted());
      if Queue(s) == [] then t == s
      else t == s.(ring := s.ring.(tail := Next(s.ring.tail)), delivered := s.delivered + [Queue(s)[0]])
  {
    hide Waiting, Next;
    var steps := Uninterrupted();
    var s1 := After(s, steps[0]);
    RefinesQueue(s, LoadHead);
    EmptyIsEmpty(s1, Advance);
    var s2 := After(s1, Advance);
    assert steps[1..] == [Advance, Advance, Advance, Advance, Advance];
    assert steps[1..][1..] == [Advance, Advance, Advance, Advance];
    FourMore(s2);
    if Queue(s) != [] { FrontWaits(s); }
  }

  lemma {:induction false} FourMore(s: System)
    requires |s.ring.buf| == SIZE && (s.pc.Idle? || s.pc.NotEmpty?)
    ensures RunSteps(s, [Advance, Advance, Advance, Advance]) ==
      if s.pc.Idle? then s
      else
        s.(ring := s.ring.(tail := Next(s.ring.tail)), pc := Idle,
           delivered := s.delivered + [s.ring.buf[s.ring.tail]])
  {
    hide Next;
    var steps := [Advance, Advance, Advance, Advance];
    assert steps[1..] == [Advance, Advance, Advance] && [Advance, Advance, Advance][1..] == [Advance, Advance];
    assert [Advance, Advance][1..] == [Advance] && [Advance][1..] == [];
    var s1 := After(s, Advance);
    var s2 := After(s1, Advance);
    var s3 := After(s2, Advance);
    var s4 := After(s3, Advance);
    assert RunSteps(s3, [Advance]) == s4;
    assert RunSteps(s2, [Advance, Advance]) == s4;
    assert RunSteps(s1, [Advance, Advance, Advance]) == s4;
    assert RunSteps(s, steps) == s4;
  }

  // ---- Runs ----

  const START := System(Ring(seq(64, _ => '\0'), 0, 0), Idle, [], [])

  lemma {:induction false} StartHolds()
    ensures Inv(START)
  {
  }

  /**
   * Under every interleaving the characters delivered are the first of those
   * accepted, in order, and those not yet delivered still stand in their slots.
   */
  lemma {:induction false} Interleavings(s: System, steps: seq<Step>)
    requires Inv(s)
    ensures var t := RunSteps(s, steps);
      && Inv(t) && t.delivered <= t.accepted
      && s.accepted <= t.accepted && s.delivered <= t.delivered
    decreases |steps|
  {
    if steps != [] {
      RefinesQueue(s, steps[0]);
      Interleavings(After(s, steps[0]), steps[1..]);
    }
  }
}
