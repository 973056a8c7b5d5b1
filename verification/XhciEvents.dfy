/** The event ring, filled by the controller (kernel/usb_xhci.c). */
module XhciEvents {
  import opened XhciRing

  /** Ring memory, the controller's enqueue pointer and cycle state, the driver's position,
      and, as history, everything produced and everything received. */
  datatype EventState = EventState(events: seq<Trb>, enq: nat, pcs: nat, index: nat, cycle: nat,
                                   produced: seq<Trb>, received: seq<Trb>)

  function EventsInitial(): EventState {
    EventState(seq(RING_SIZE, _ => Trb(0, 0, 0, 0)), 0, 1, 0, 1, [], [])
  }

  predicate CanProduce(s: EventState, t: Trb) {
    s.enq < RING_SIZE == |s.events| && s.pcs < 2 && t.flags % 2 == s.pcs
  }

  /** The controller writes an event with its cycle state and toggles it at the end of the ring. */
  function Produce(s: EventState, t: Trb): EventState
    requires CanProduce(s, t)
  {
    var end := s.enq + 1 == RING_SIZE;
    s.(events := s.events[s.enq := t], enq := if end then 0 else s.enq + 1,
       pcs := if end then 1 - s.pcs else s.pcs, produced := s.produced + [t])
  }

  predicate CanReceive(s: EventState) {
    s.index < RING_SIZE == |s.events| && s.cycle < 2 && Cycle(s.events[s.index]) == s.cycle
  }

  /** The driver copies the event out and moves on. */
  function Receive(s: EventState): EventState
    requires CanReceive(s)
  {
    var end := s.index + 1 == RING_SIZE;
    s.(index := if end then 0 else s.index + 1, cycle := if end then 1 - s.cycle else s.cycle,
       received := s.received + [s.events[s.index]])
  }

  function Waiting(s: EventState): int { |s.produced| - |s.received| }

  /** What entry `j` holds when the controller is on lap `lap`. */
  predicate EventOk(s: EventState, lap: nat, j: nat)
    requires j < RING_SIZE == |s.events|
  {
    if j < s.enq then
      RING_SIZE * lap + j < |s.produced| && s.events[j] == s.produced[RING_SIZE * lap + j]
      && Cycle(s.events[j]) == (lap + 1) % 2
    else if lap == 0 then Cycle(s.events[j]) == 0
    else
      RING_SIZE * (lap - 1) + j < |s.produced| && s.events[j] == s.produced[RING_SIZE * (lap - 1) + j]
      && Cycle(s.events[j]) == lap % 2
  }

  ghost predicate EventInvAt(s: EventState, lap: nat, dlap: nat) {
    && |s.events| == RING_SIZE
    && |s.produced| == RING_SIZE * lap + s.enq && s.enq < RING_SIZE && s.pcs == (lap + 1) % 2
    && |s.received| == RING_SIZE * dlap + s.index && s.index < RING_SIZE && s.cycle == (dlap + 1) % 2
    && 0 <= Waiting(s) <= RING_SIZE
    && s.received == s.produced[..|s.received|]
    && forall j | 0 <= j < RING_SIZE :: EventOk(s, lap, j)
  }

  ghost predicate EventInv(s: EventState) {
    exists lap: nat, dlap: nat :: EventInvAt(s, lap, dlap)
  }

  lemma EventsInitialInv()
    ensures EventInv(EventsInitial())
  {
    assert EventInvAt(EventsInitial(), 0, 0);
  }

  /** A controller that respects the ring's size keeps the invariant. */
  lemma ProduceKeeps(s: EventState, t: Trb)
    requires EventInv(s) && CanProduce(s, t) && Waiting(s) < RING_SIZE
    ensures EventInv(Produce(s, t))
  {
    var lap: nat, dlap: nat :| EventInvAt(s, lap, dlap);
    var s' := Produce(s, t);
    var lap' := if s.enq + 1 == RING_SIZE then lap + 1 else lap;
    forall j | 0 <= j < RING_SIZE
      ensures EventOk(s', lap', j)
    {
      assert EventOk(s, lap, j);
    }
    assert s'.received == s'.produced[..|s'.received|];
    assert EventInvAt(s', lap', dlap);
  }

  /** The driver sees an event exactly when one is waiting, and then it is the oldest. */
  lemma ReceiveIsNext(s: EventState)
    requires EventInv(s)
    ensures CanReceive(s) <==> Waiting(s) > 0
    ensures CanReceive(s) ==> Receive(s).received == s.produced[..|s.received| + 1] && EventInv(Receive(s))
  {
    var lap: nat, dlap: nat :| EventInvAt(s, lap, dlap);
    assert EventOk(s, lap, s.index);
    assert lap == dlap || lap == dlap + 1;
    if CanReceive(s) {
      var s' := Receive(s);
      assert s.produced[..|s.received| + 1] == s.produced[..|s.received|] + [s.produced[|s.received|]];
      forall j | 0 <= j < RING_SIZE
        ensures EventOk(s', lap, j)
      {
        assert EventOk(s, lap, j);
      }
      assert EventInvAt(s', lap, if s.index + 1 == RING_SIZE then dlap + 1 else dlap);
    }
  }

  /** The size is exact: an event produced into a full ring hides all that is waiting. */
  lemma FullRingOverrun(s: EventState, t: Trb)
    requires EventInv(s) && CanProduce(s, t) && Waiting(s) == RING_SIZE
    ensures !CanReceive(Produce(s, t))
  {
    var lap: nat, dlap: nat :| EventInvAt(s, lap, dlap);
    assert s.enq == s.index && lap == dlap + 1;
  }

  // ----- whole runs -----

  /** One step of either party; a controller keeps track of what the driver has acknowledged and
      produces only into a ring with room. */
  ghost predicate EventStep(s: EventState, s': EventState) {
    || (exists t :: CanProduce(s, t) && Waiting(s) < RING_SIZE && s' == Produce(s, t))
    || (CanReceive(s) && s' == Receive(s))
  }

  ghost predicate EventStepAt(states: seq<EventState>, i: nat)
    requires i + 1 < |states|
  {
    EventStep(states[i], states[i + 1])
  }

  ghost predicate IsEventRun(states: seq<EventState>) {
    && states != [] && states[0] == EventsInitial()
    && forall i | 0 <= i < |states| - 1 :: EventStepAt(states, i)
  }

  lemma EventStepKeeps(s: EventState, s': EventState)
    requires EventInv(s) && EventStep(s, s')
    ensures EventInv(s')
  {
    if CanReceive(s) && s' == Receive(s) {
      ReceiveIsNext(s);
    } else {
      var t :| CanProduce(s, t) && Waiting(s) < RING_SIZE && s' == Produce(s, t);
      ProduceKeeps(s, t);
    }
  }

  lemma {:induction false} EventRunInv(states: seq<EventState>, i: nat)
    requires IsEventRun(states) && i < |states|
    ensures EventInv(states[i])
  {
    if i == 0 {
      EventsInitialInv();
    } else {
      EventRunInv(states, i - 1);
      assert EventStepAt(states, i - 1);
      EventStepKeeps(states[i - 1], states[i]);
    }
  }

  /** In every interleaving, across any number of laps, the driver has received exactly a prefix of
      what was produced, in order. */
  lemma ReceivedIsPrefixOfProduced(states: seq<EventState>, i: nat)
    requires IsEventRun(states) && i < |states|
    ensures states[i].received <= states[i].produced && Waiting(states[i]) <= RING_SIZE
  {
    EventRunInv(states, i);
  }

  /** What the driver has once it has called until nothing is found. */
  ghost function Drained(s: EventState): EventState
    requires EventInv(s)
    decreases Waiting(s)
  {
    ReceiveIsNext(s);
    if CanReceive(s) then Drained(Receive(s)) else s
  }

  /** Nothing is lost: calling until nothing is found delivers everything that was produced. */
  lemma {:induction false} DrainedHasAll(s: EventState)
    requires EventInv(s)
    ensures Drained(s).received == s.produced == Drained(s).produced
    decreases Waiting(s)
  {
    ReceiveIsNext(s);
    if CanReceive(s) {
      DrainedHasAll(Receive(s));
    } else {
      assert s.received == s.produced[..|s.produced|];
    }
  }

  class EventRing {
    const events: array<Trb>
    var index: nat
    var cycle: nat

    ghost predicate Valid()
      reads this
    {
      events.Length == RING_SIZE && index < RING_SIZE && cycle < 2
    }

    ghost function View(enq: nat, pcs: nat, produced: seq<Trb>, received: seq<Trb>): EventState
      requires Valid()
      reads this, events
    {
      EventState(events[..], enq, pcs, index, cycle, produced, received)
    }

    constructor ()
      ensures Valid() && fresh(events)
      ensures View(0, 1, [], []) == EventsInitial()
    {
      events := new Trb[RING_SIZE](_ => Trb(0, 0, 0, 0));
      index := 0;
      cycle := 1;
      new;
      assert events[..] == EventsInitial().events;
    }

    /** Takes the next event if its cycle bit is the expected one. */
    method NextEvent(ghost enq: nat, ghost pcs: nat, ghost produced: seq<Trb>, ghost received: seq<Trb>)
      returns (found: bool, e: Trb)
      requires Valid()
      modifies this`index, this`cycle
      ensures Valid() && e == events[old(index)]
      ensures found == CanReceive(old(View(enq, pcs, produced, received)))
      ensures found ==> View(enq, pcs, produced, received + [e]) == Receive(old(View(enq, pcs, produced, received)))
      ensures !found ==> index == old(index) && cycle == old(cycle)
    {
      e := events[index];
      if e.flags % 2 != cycle { return false, e; }
      index := index + 1;
      if index == RING_SIZE {
        index := 0;
        cycle := 1 - cycle;
      }
      return true, e;
    }
  }
}
