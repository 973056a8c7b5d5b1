/** TRB rings shared with the host controller (kernel/usb_xhci.c). */
module XhciRing {

  const RING_SIZE: nat := 64
  /** Entries 0..61 carry commands; entry 62 is the link back to the start. */
  const LINK: nat := RING_SIZE - 2
  const LINK_TYPE: nat := 6 * 0x400
  const TOGGLE: nat := 2

  datatype Trb = Trb(lo: nat, hi: nat, size: nat, flags: nat)

  /** Bit 0 of the flags word. */
  function Cycle(t: Trb): nat { t.flags % 2 }

  /** The same TRB with the given cycle bit; callers pass flags with that bit clear. */
  function WithCycle(t: Trb, c: nat): Trb
    requires t.flags % 2 == 0 && c < 2
  {
    t.(flags := t.flags + c)
  }

  /** Where the driver is inside `enqueue`. */
  datatype Pc = Idle | Filled(t: Trb) | Wrapping

  /** The ring's memory and producer state, the controller's dequeue pointer and cycle state,
      and, as history, everything published and everything taken. */
  datatype State = State(trbs: seq<Trb>, index: nat, cycle: nat, pc: Pc,
                         deq: nat, ccs: nat, sent: seq<Trb>, got: seq<Trb>)

  function Initial(base: nat): State {
    State(seq(LINK, _ => Trb(0, 0, 0, 0)) + [Trb(base, 0, 0, LINK_TYPE + TOGGLE)], 0, 1, Idle, 0, 1, [], [])
  }

  // ----- steps of the driver -----

  /** Writes everything but the flags word. */
  predicate CanFill(s: State, t: Trb) {
    s.pc == Idle && t.flags % 2 == 0 && s.index < LINK < |s.trbs|
  }

  function Fill(s: State, t: Trb): State
    requires CanFill(s, t)
  {
    s.(trbs := s.trbs[s.index := t.(flags := s.trbs[s.index].flags)], pc := Filled(t))
  }

  /** Writes the flags word, and with it the cycle bit that hands the entry over. */
  predicate CanPublish(s: State) {
    s.pc.Filled? && s.pc.t.flags % 2 == 0 && s.cycle < 2 && s.index < LINK < |s.trbs|
  }

  function Publish(s: State): State
    requires CanPublish(s)
  {
    var t := s.trbs[s.index].(flags := s.pc.t.flags + s.cycle);
    s.(trbs := s.trbs[s.index := t], index := s.index + 1,
       pc := if s.index + 1 == LINK then Wrapping else Idle, sent := s.sent + [s.pc.t])
  }

  /** Publishes the link and starts over with the other cycle bit. */
  predicate CanWrap(s: State) {
    s.pc == Wrapping && s.cycle < 2 && LINK < |s.trbs|
  }

  function Wrap(s: State): State
    requires CanWrap(s)
  {
    s.(trbs := s.trbs[LINK := s.trbs[LINK].(flags := LINK_TYPE + TOGGLE + s.cycle)],
       index := 0, cycle := 1 - s.cycle, pc := Idle)
  }

  // ----- steps of the controller -----
  // These follow section 4.9 of the eXtensible Host Controller Interface for USB specification.

  /** The entry at the dequeue pointer carries the expected cycle bit. */
  predicate CanTake(s: State) {
    s.deq < LINK < |s.trbs| && Cycle(s.trbs[s.deq]) == s.ccs
  }

  function Take(s: State): State
    requires CanTake(s)
  {
    var t := s.trbs[s.deq];
    s.(deq := s.deq + 1, got := s.got + [t.(flags := t.flags - t.flags % 2)])
  }

  /** A link with the expected cycle bit is followed and toggles the cycle state. */
  predicate CanFollow(s: State) {
    s.deq == LINK < |s.trbs| && s.ccs < 2 && Cycle(s.trbs[LINK]) == s.ccs
  }

  function Follow(s: State): State
    requires CanFollow(s)
  {
    s.(deq := 0, ccs := 1 - s.ccs)
  }

  // ----- the invariant -----

  function Outstanding(s: State): int { |s.sent| - |s.got| }

  /** What data entry `j` must hold when the driver is on lap `lap`. */
  predicate EntryOk(s: State, lap: nat, j: nat)
    requires j < LINK < |s.trbs|
  {
    if j < s.index then
      LINK * lap + j < |s.sent|
      && s.sent[LINK * lap + j].flags % 2 == 0
      && s.trbs[j] == WithCycle(s.sent[LINK * lap + j], (lap + 1) % 2)
    else if lap == 0 then Cycle(s.trbs[j]) == 0
    else
      LINK * (lap - 1) + j < |s.sent|
      && s.sent[LINK * (lap - 1) + j].flags % 2 == 0
      && Cycle(s.trbs[j]) == lap % 2
      && ((s.pc.Filled? && j == s.index) || s.trbs[j] == WithCycle(s.sent[LINK * (lap - 1) + j], lap % 2))
  }

  predicate FillInProgress(s: State)
    requires s.pc.Filled?
  {
    && s.index < |s.trbs| && s.pc.t.flags % 2 == 0 && Outstanding(s) < LINK
    && s.trbs[s.index] == s.pc.t.(flags := s.trbs[s.index].flags)
  }

  /** The driver is on lap `lap` and the controller on lap `clap`. */
  ghost predicate InvAt(s: State, lap: nat, clap: nat) {
    && |s.trbs| == LINK + 1 && clap <= lap
    && |s.sent| == LINK * lap + s.index && s.cycle == (lap + 1) % 2
    && (if s.pc == Wrapping then s.index == LINK else s.index < LINK)
    && (s.pc.Filled? ==> FillInProgress(s))
    && Cycle(s.trbs[LINK]) == lap % 2
    && |s.got| == LINK * clap + s.deq && s.deq <= LINK && s.ccs == (clap + 1) % 2
    && 0 <= Outstanding(s) <= LINK
    && s.got == s.sent[..|s.got|]
    && forall j | 0 <= j < LINK :: EntryOk(s, lap, j)
  }

  ghost predicate Inv(s: State) {
    exists lap, clap :: InvAt(s, lap, clap)
  }

  /** One step of either party; the driver begins an entry only with fewer than 62 outstanding. */
  ghost predicate Step(s: State, s': State) {
    || (exists t :: CanFill(s, t) && Outstanding(s) < LINK && s' == Fill(s, t))
    || (CanPublish(s) && s' == Publish(s))
    || (CanWrap(s) && s' == Wrap(s))
    || (CanTake(s) && s' == Take(s))
    || (CanFollow(s) && s' == Follow(s))
  }

  lemma InitialInv(base: nat)
    ensures Inv(Initial(base))
  {
    assert InvAt(Initial(base), 0, 0);
  }

  lemma FillKeeps(s: State, t: Trb, lap: nat, clap: nat)
    requires InvAt(s, lap, clap) && CanFill(s, t) && Outstanding(s) < LINK
    ensures InvAt(Fill(s, t), lap, clap)
  {
    var s' := Fill(s, t);
    forall j | 0 <= j < LINK
      ensures EntryOk(s', lap, j)
    {
      assert EntryOk(s, lap, j);
    }
  }

  lemma PublishKeeps(s: State, lap: nat, clap: nat)
    requires InvAt(s, lap, clap) && CanPublish(s)
    ensures InvAt(Publish(s), lap, clap)
  {
    var s' := Publish(s);
    forall j | 0 <= j < LINK
      ensures EntryOk(s', lap, j)
    {
      assert EntryOk(s, lap, j);
    }
    assert s'.got == s'.sent[..|s'.got|];
  }

  lemma WrapKeeps(s: State, lap: nat, clap: nat)
    requires InvAt(s, lap, clap) && CanWrap(s)
    ensures InvAt(Wrap(s), lap + 1, clap)
  {
    var s', lap' := Wrap(s), lap + 1;
    forall j | 0 <= j < LINK
      ensures EntryOk(s', lap', j)
    {
      assert EntryOk(s, lap, j);
    }
  }

  /** How far apart driver and controller can be. */
  lemma Laps(s: State, lap: nat, clap: nat)
    requires InvAt(s, lap, clap)
    ensures lap == clap ==> s.deq <= s.index
    ensures lap == clap + 1 ==> s.index <= s.deq
    ensures lap == clap || lap == clap + 1 || (lap == clap + 2 && AtStaleLink(s))
  {
  }

  /** The controller has not followed the last link, and the driver has gone round once more. */
  predicate AtStaleLink(s: State) {
    s.deq == LINK && s.index == 0 && Outstanding(s) == LINK
  }

  /** The controller sees a valid entry only where the next unread one is. */
  lemma TakeIsNext(s: State, lap: nat, clap: nat)
    requires InvAt(s, lap, clap) && CanTake(s)
    ensures Outstanding(s) > 0
    ensures Take(s).got == s.sent[..|s.got| + 1]
  {
    assert EntryOk(s, lap, s.deq);
    Laps(s, lap, clap);
    assert s.sent[..|s.got| + 1] == s.sent[..|s.got|] + [s.sent[|s.got|]];
  }

  lemma TakeKeeps(s: State, lap: nat, clap: nat)
    requires InvAt(s, lap, clap) && CanTake(s)
    ensures InvAt(Take(s), lap, clap)
  {
    TakeIsNext(s, lap, clap);
    EntriesKept(s, Take(s), lap);
  }

  lemma EntriesKept(s: State, s': State, lap: nat)
    requires |s.trbs| == LINK + 1 && s' == s.(deq := s'.deq, ccs := s'.ccs, got := s'.got)
    requires forall j | 0 <= j < LINK :: EntryOk(s, lap, j)
    ensures forall j | 0 <= j < LINK :: EntryOk(s', lap, j)
  {
    forall j: nat | j < LINK
      ensures EntryOk(s', lap, j)
    {
      assert EntryOk(s, lap, j);
    }
  }

  lemma FollowKeeps(s: State, lap: nat, clap: nat)
    requires InvAt(s, lap, clap) && CanFollow(s)
    ensures InvAt(Follow(s), lap, clap + 1)
  {
    Laps(s, lap, clap);
    EntriesKept(s, Follow(s), lap);
  }

  lemma StepKeeps(s: State, s': State)
    requires Inv(s) && Step(s, s')
    ensures Inv(s')
  {
    var lap: nat, clap: nat :| InvAt(s, lap, clap);
    if CanPublish(s) && s' == Publish(s) {
      PublishKeeps(s, lap, clap);
    } else if CanWrap(s) && s' == Wrap(s) {
      WrapKeeps(s, lap, clap);
    } else if CanTake(s) && s' == Take(s) {
      TakeKeeps(s, lap, clap);
    } else if CanFollow(s) && s' == Follow(s) {
      FollowKeeps(s, lap, clap);
    } else {
      var t :| CanFill(s, t) && Outstanding(s) < LINK && s' == Fill(s, t);
      FillKeeps(s, t, lap, clap);
    }
  }

  // ----- whole runs -----

  ghost predicate IsRun(states: seq<State>, base: nat) {
    && states != [] && states[0] == Initial(base)
    && forall i | 0 <= i < |states| - 1 :: StepAt(states, i)
  }

  ghost predicate IsRunFrom(states: seq<State>, s: State) {
    states != [] && states[0] == s && forall i | 0 <= i < |states| - 1 :: StepAt(states, i)
  }

  ghost predicate StepAt(states: seq<State>, i: nat)
    requires i + 1 < |states|
  {
    Step(states[i], states[i + 1])
  }

  lemma {:induction false} RunInv(states: seq<State>, base: nat, i: nat)
    requires IsRun(states, base) && i < |states|
    ensures Inv(states[i])
  {
    if i == 0 {
      InitialInv(base);
    } else {
      RunInv(states, base, i - 1);
      assert StepAt(states, i - 1);
      StepKeeps(states[i - 1], states[i]);
    }
  }

  /** The link entry: back to the start of the ring, of type 6, toggling the cycle state. */
  predicate IsLink(t: Trb, base: nat) {
    t.lo == base && t.hi == 0 && t.size == 0 && t.flags / 1024 == 6 && t.flags / 2 % 2 == 1
  }

  /** In every run the last entry used, number 62, is such a link and nothing else. */
  lemma {:induction false} LinkStays(states: seq<State>, base: nat, i: nat)
    requires IsRun(states, base) && i < |states|
    ensures |states[i].trbs| == 63 && IsLink(states[i].trbs[62], base)
  {
    RunInv(states, base, i);
    if i > 0 {
      LinkStays(states, base, i - 1);
      RunInv(states, base, i - 1);
      assert StepAt(states, i - 1);
      StepKeepsLink(states[i - 1], states[i], base);
    }
  }

  lemma StepKeepsLink(s: State, s': State, base: nat)
    requires Inv(s) && Step(s, s') && IsLink(s.trbs[62], base)
    ensures |s'.trbs| == 63 && IsLink(s'.trbs[62], base)
  {
  }

  /** In every interleaving, across any number of laps, the controller has taken exactly a prefix
      of what was published, in order, and never more than 62 entries are outstanding. */
  lemma TakenIsPrefixOfSent(states: seq<State>, base: nat, i: nat)
    requires IsRun(states, base) && i < |states|
    ensures states[i].got <= states[i].sent && |states[i].sent| <= |states[i].got| + LINK
  {
    RunInv(states, base, i);
  }

  /** Nothing is lost: while entries are outstanding, the controller can go on at once or as
      soon as the driver has published its link. The one exception is a controller that has
      not yet followed a link when the driver, 62 entries ahead, overwrites it. */
  lemma ControllerCanGoOn(s: State)
    requires Inv(s) && Outstanding(s) > 0
    ensures CanTake(s) || CanFollow(s) || CanWrap(s) <==> !AtStaleLink(s)
  {
    var lap: nat, clap: nat :| InvAt(s, lap, clap);
    Laps(s, lap, clap);
    if s.deq < LINK { assert EntryOk(s, lap, s.deq); }
  }

  /** With at most 61 entries outstanding the exception cannot arise. */
  lemma SixtyOneIsSafe(s: State)
    requires Inv(s) && 0 < Outstanding(s) < LINK
    ensures CanTake(s) || CanFollow(s) || CanWrap(s)
  {
    ControllerCanGoOn(s);
  }

  /** A controller that is not stuck takes everything that was published, by its own steps and the
      driver's pending wrap. */
  lemma {:induction false} DrainsAll(s: State) returns (states: seq<State>)
    requires Inv(s) && !AtStaleLink(s)
    ensures IsRunFrom(states, s) && Last(states).got == Last(states).sent == s.sent
    decreases Outstanding(s), (if s.deq == LINK then 1 else 0) + (if s.pc == Wrapping then 1 else 0)
  {
    var lap: nat, clap: nat :| InvAt(s, lap, clap);
    if Outstanding(s) == 0 {
      assert s.got == s.sent[..|s.sent|];
      return [s];
    }
    ControllerCanGoOn(s);
    var next := if CanTake(s) then Take(s) else if CanFollow(s) then Follow(s) else Wrap(s);
    assert Step(s, next);
    StepKeeps(s, next);
    if !CanTake(s) && !CanFollow(s) { WrapIsLate(s, lap, clap); }
    var rest := DrainsAll(next);
    states := [s] + rest;
    forall i | 0 <= i < |states| - 1
      ensures StepAt(states, i)
    {
      assert i > 0 ==> StepAt(rest, i - 1);
    }
  }

  /** A driver that has to wrap before the controller can go on does not overtake it. */
  lemma WrapIsLate(s: State, lap: nat, clap: nat)
    requires InvAt(s, lap, clap) && CanWrap(s) && !CanTake(s) && !CanFollow(s)
    ensures !AtStaleLink(Wrap(s))
  {
    Laps(s, lap, clap);
  }

  /** Once stuck, neither party can take another step. */
  lemma StuckForever(s: State)
    requires Inv(s) && AtStaleLink(s)
    ensures forall s' :: !Step(s, s')
  {
    var lap: nat, clap: nat :| InvAt(s, lap, clap);
    Laps(s, lap, clap);
    ControllerCanGoOn(s);
  }

  /** The exact condition: some run from here takes everything published by then, if and only if
      the controller is not stuck. */
  lemma DrainsIff(s: State)
    requires Inv(s)
    ensures (exists states :: IsRunFrom(states, s) && Last(states).got == Last(states).sent) <==> !AtStaleLink(s)
  {
    if AtStaleLink(s) {
      StuckForever(s);
      forall states | IsRunFrom(states, s)
        ensures Last(states).got != Last(states).sent
      {
        assert |states| > 1 ==> StepAt(states, 0);
      }
    } else {
      var states := DrainsAll(s);
    }
  }

  // ----- a driver that waits -----

  /** The most entries this driver has outstanding on a ring: the stages of a control transfer. */
  const IN_FLIGHT: nat := 3

  /** The driver begins an entry only with fewer than that outstanding. */
  ghost predicate Waits(states: seq<State>) {
    forall i | 0 <= i < |states| - 1 :: WaitsAt(states, i)
  }

  ghost predicate WaitsAt(states: seq<State>, i: nat)
    requires i + 1 < |states|
  {
    states[i].pc == Idle && states[i + 1].pc.Filled? ==> Outstanding(states[i]) < IN_FLIGHT
  }

  /** Then, in every run, no more than three are ever outstanding, the controller is never stuck,
      and whatever has been handed over can still be taken. */
  lemma {:induction false} WaitingIsSafe(states: seq<State>, base: nat, i: nat)
    requires IsRun(states, base) && Waits(states) && i < |states|
    ensures Outstanding(states[i]) + (if states[i].pc.Filled? then 1 else 0) <= IN_FLIGHT
    ensures !AtStaleLink(states[i])
    ensures exists rest :: IsRunFrom(rest, states[i]) && Last(rest).got == Last(rest).sent
  {
    RunInv(states, base, i);
    if i > 0 {
      WaitingIsSafe(states, base, i - 1);
      assert StepAt(states, i - 1) && WaitsAt(states, i - 1);
      RunInv(states, base, i - 1);
      StepOutstanding(states[i - 1], states[i]);
    }
    DrainsIff(states[i]);
  }

  lemma StepOutstanding(s: State, s': State)
    requires Inv(s) && Step(s, s')
    ensures
      || (s.pc == Idle && s'.pc.Filled? && Outstanding(s') == Outstanding(s))
      || (Outstanding(s') + (if s'.pc.Filled? then 1 else 0) <= Outstanding(s) + (if s.pc.Filled? then 1 else 0))
  {
  }

  /** With 62 it can: the controller could follow the link, the driver wraps first, and then
      neither party can take another step. */
  lemma SixtyTwoCanDeadlock(s: State)
    requires Inv(s) && s.pc == Wrapping && s.deq == LINK && Outstanding(s) == LINK
    ensures CanFollow(s) && CanWrap(s)
    ensures AtStaleLink(Wrap(s)) && forall s' :: !Step(Wrap(s), s')
  {
    var lap: nat, clap: nat :| InvAt(s, lap, clap);
    Laps(s, lap, clap);
    assert AtStaleLink(Wrap(s));
    WrapKeeps(s, lap, clap);
    ControllerCanGoOn(Wrap(s));
  }

  /** With everything taken, the controller waits: no stale entry looks valid. */
  lemma ControllerWaits(s: State)
    requires Inv(s) && Outstanding(s) == 0
    ensures !CanTake(s)
    ensures CanFollow(s) ==> !CanTake(Follow(s))
  {
    var lap: nat, clap: nat :| InvAt(s, lap, clap);
    NothingToTake(s, lap, clap);
    if CanFollow(s) {
      FollowKeeps(s, lap, clap);
      NothingToTake(Follow(s), lap, clap + 1);
    }
  }

  lemma NothingToTake(s: State, lap: nat, clap: nat)
    requires InvAt(s, lap, clap) && Outstanding(s) == 0
    ensures !CanTake(s)
  {
    Laps(s, lap, clap);
    if s.deq < LINK { assert EntryOk(s, lap, s.deq); }
  }

  /** The limit on what may be outstanding is exact: beginning one entry more, with 62
      outstanding, hides the oldest entry, and the controller cannot take anything. */
  lemma OverrunStalls(s: State, t: Trb)
    requires Inv(s) && s.pc == Idle && t.flags % 2 == 0 && Outstanding(s) == LINK
    ensures CanFill(s, t) && CanPublish(Fill(s, t))
    ensures !CanTake(Publish(Fill(s, t))) && !CanFollow(Publish(Fill(s, t)))
  {
    var lap: nat, clap: nat :| InvAt(s, lap, clap);
    Laps(s, lap, clap);
  }

  function Last(states: seq<State>): State
    requires states != []
  {
    states[|states| - 1]
  }

  lemma RunGoesOn(states: seq<State>, base: nat, s: State)
    requires IsRun(states, base) && Step(Last(states), s)
    ensures IsRun(states + [s], base)
  {
    var longer := states + [s];
    forall i | 0 <= i < |longer| - 1
      ensures StepAt(longer, i)
    {
      assert i + 1 < |states| ==> StepAt(states, i);
    }
  }

  /** Fills the rest of a lap, with nothing taken meanwhile. */
  lemma {:induction false} FillLap(states: seq<State>, base: nat, lap: nat, clap: nat) returns (longer: seq<State>)
    requires IsRun(states, base) && InvAt(Last(states), lap, clap)
    requires var s := Last(states); s.pc == (if s.index == LINK then Wrapping else Idle) && Outstanding(s) <= s.index
    ensures IsRun(longer, base) && InvAt(Last(longer), lap, clap)
    ensures var s, s' := Last(states), Last(longer);
      s'.index == LINK && s'.pc == Wrapping && s'.deq == s.deq && s'.got == s.got
    decreases LINK - Last(states).index
  {
    var s := Last(states);
    if s.index == LINK { return states; }
    var t := Trb(0, 0, 0, 0);
    FillKeeps(s, t, lap, clap);
    RunGoesOn(states, base, Fill(s, t));
    var filled := states + [Fill(s, t)];
    PublishKeeps(Fill(s, t), lap, clap);
    RunGoesOn(filled, base, Publish(Fill(s, t)));
    longer := FillLap(filled + [Publish(Fill(s, t))], base, lap, clap);
  }

  /** Takes the rest of a published lap, up to the link. */
  lemma {:induction false} TakeLap(states: seq<State>, base: nat) returns (longer: seq<State>)
    requires IsRun(states, base) && InvAt(Last(states), 1, 0)
    requires Last(states).pc == Idle && Last(states).index == 0
    ensures IsRun(longer, base) && InvAt(Last(longer), 1, 0)
    ensures Last(longer).pc == Idle && Last(longer).index == 0 && Last(longer).deq == LINK
    decreases LINK - Last(states).deq
  {
    var s := Last(states);
    if s.deq == LINK { return states; }
    assert EntryOk(s, 1, s.deq);
    TakeKeeps(s, 1, 0);
    RunGoesOn(states, base, Take(s));
    longer := TakeLap(states + [Take(s)], base);
  }

  /** The deadlock really happens: fill a lap, let the controller take all of it without
      following the link, fill another, and wrap. */
  lemma DeadlockIsReachable(base: nat) returns (states: seq<State>)
    ensures IsRun(states, base) && AtStaleLink(Last(states))
    ensures forall s' :: !Step(Last(states), s')
  {
    assert InvAt(Initial(base), 0, 0);
    states := FillLap([Initial(base)], base, 0, 0);
    var s := Last(states);
    WrapKeeps(s, 0, 0);
    RunGoesOn(states, base, Wrap(s));
    states := TakeLap(states + [Wrap(s)], base);
    states := FillLap(states, base, 1, 0);
    SixtyTwoCanDeadlock(Last(states));
    RunGoesOn(states, base, Wrap(Last(states)));
    states := states + [Wrap(Last(states))];
  }

  // ----- the driver's code -----

  /** One whole `enqueue`. */
  function Enqueued(s: State, t: Trb): State
    requires CanFill(s, t) && s.cycle < 2
  {
    var p := Publish(Fill(s, t));
    if CanWrap(p) then Wrap(p) else p
  }

  class Ring {
    const base: nat
    const trbs: array<Trb>
    var index: nat
    var cycle: nat

    ghost predicate Valid()
      reads this
    {
      trbs.Length == LINK + 1 && index < LINK && cycle < 2
    }

    /** This ring's memory, seen together with a controller at `deq`, `ccs` and a history. */
    ghost function View(deq: nat, ccs: nat, sent: seq<Trb>, got: seq<Trb>): State
      requires Valid()
      reads this, trbs
    {
      State(trbs[..], index, cycle, Idle, deq, ccs, sent, got)
    }

    /** `init_ring`. */
    constructor (base: nat)
      ensures Valid() && fresh(trbs) && this.base == base
      ensures View(0, 1, [], []) == Initial(base)
    {
      this.base := base;
      trbs := new Trb[LINK + 1](_ => Trb(0, 0, 0, 0));
      index := 0;
      cycle := 1;
      new;
      trbs[LINK] := Trb(base, 0, 0, LINK_TYPE + TOGGLE);
      assert trbs[..] == Initial(base).trbs;
    }

    /** Appends one TRB, giving the entry over with its flags word, and returns its address. */
    method Enqueue(lo: nat, hi: nat, size: nat, flags: nat,
                   ghost deq: nat, ghost ccs: nat, ghost sent: seq<Trb>, ghost got: seq<Trb>) returns (address: nat)
      requires Valid() && flags % 2 == 0
      modifies this`index, this`cycle, trbs
      ensures Valid() && address == base + 16 * old(index)
      ensures View(deq, ccs, sent + [Trb(lo, hi, size, flags)], got)
           == Enqueued(old(View(deq, ccs, sent, got)), Trb(lo, hi, size, flags))
    {
      ghost var s, t := View(deq, ccs, sent, got), Trb(lo, hi, size, flags);
      trbs[index] := trbs[index].(lo := lo, hi := hi, size := size);
      assert trbs[..] == Fill(s, t).trbs;
      trbs[index] := trbs[index].(flags := flags + cycle);
      assert trbs[..] == Publish(Fill(s, t)).trbs;
      address := base + 16 * index;
      index := index + 1;
      if index == LINK {
        trbs[LINK] := trbs[LINK].(flags := LINK_TYPE + TOGGLE + cycle);
        index := 0;
        cycle := 1 - cycle;
      }
    }
  }
}
