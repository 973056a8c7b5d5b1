/** What a monitoring cycle does on the bus: the transfers of a cycle, in order, and what is made of
    their answers. Nothing here mentions how a stage is coded; a transfer is a register, a direction
    and a value. */
module ThermalMeaning {
  import opened Bytes
  import opened Thermal

  // ----- answers -----

  lemma BitsOf(s: byte)
    ensures (Bit(s, 0) <==> s % 2 == 1) && (Bit(s, 1) <==> s / 2 % 2 == 1) && (Bit(s, 2) <==> s / 4 % 2 == 1)
    ensures (Bit(s, 3) <==> s / 8 % 2 == 1) && (Bit(s, 4) <==> s / 16 % 2 == 1)
  {
    BitIs(s, 0);
    BitIs(s, 1);
    BitIs(s, 2);
    BitIs(s, 3);
    BitIs(s, 4);
    assert Pow2(2) == 4;
    assert Pow2(4) == 16;
  }

  lemma BadIs(s: byte)
    ensures Bad(s) <==> s / 4 % 2 == 1 || s / 8 % 2 == 1 || s / 16 % 2 == 1 || s / 2 % 2 == 0
  {
    LowThree(s / 4);
    assert s / 4 / 2 == s / 8;
    assert s / 4 / 4 == s / 16;
  }

  /** A transfer has failed if it is still under way, has an error, or is not marked as done. */
  lemma StatusBits(r: Reads)
    ensures Busy(r.status) <==> Bit(r.status, 0)
    ensures TransferFailed(r) <==>
      Bit(r.status, 0) || Bit(r.status, 2) || Bit(r.status, 3) || Bit(r.status, 4) || !Bit(r.status, 1)
  {
    BitsOf(r.status);
    BadIs(r.status);
  }

  lemma LowThree(n: nat)
    ensures n % 8 == 0 <==> n % 2 == 0 && n / 2 % 2 == 0 && n / 4 % 2 == 0
  {
    var (h, a) := (n / 2, n % 2);
    var (g, b, c) := (h / 2, h % 2, h / 2 % 2);
    assert g == n / 4;
    QuotientIs(n, 8, g / 2, 4 * c + 2 * b + a);
  }

  /** Milliseconds since a time, with the wrap-around of the counter. */
  function Since(now: u32, was: u32): nat {
    (now - was) % 0x1_0000_0000
  }

  /** A transfer under way is left alone for 10 ms and then stopped, and its controller given up if that does
      not help; a bus busy with something else is given 50 ms. */
  lemma Patience(m: Monitor, now: u32, r: Reads)
    requires MonitorOk(m) && m.active
    ensures m.transaction && Bit(r.status, 0) && Since(now, m.started) < 10 ==> StepOf(m, now, r) == Outcome(m, [], 0)
    ensures m.transaction && Bit(r.status, 0) && Since(now, m.started) >= 10 ==>
      && Stop(m.base) in StepOf(m, now, r).events
      && (Bit(r.again, 0) ==> StepOf(m, now, r).result == -1 && StepOf(m, now, r).m.base == 0)
    ensures !m.transaction && Bit(r.host, 0) ==>
      && StepOf(m, now, r).events == []
      && (StepOf(m, now, r).result == -1 <==> Since(now, m.started) >= 50)
  {
    BitIs(r.status, 0);
    BitIs(r.again, 0);
    BitIs(r.host, 0);
    assert Since(now, m.started) == Sub32(now, m.started);
  }

  // ----- the program of a cycle -----

  function Get(base: nat, reg: byte): Event { Begin(base, reg, false, 0) }
  function Select(base: nat, bank: byte): Event { Begin(base, 0x4E, true, bank) }

  /** The registers of a cycle: selector and vendor, twice; chip, configuration, fan divisors,
      temperature and fans in bank 0; temperature, its fraction and its configuration in banks 1 and 2. */
  const REGISTERS: seq<byte> :=
    [0x4E, 0x4F, 0x4E, 0x4F, 0x4E, 0x58, 0x40, 0x47, 0x4B, 0x5D, 0x27, 0x28, 0x29, 0x2A,
     0x4E, 0x50, 0x51, 0x52, 0x4E, 0x50, 0x51, 0x52, 0x4E]

  /** Transfer `j` of a cycle that began with `bank` selected. The selector is set to the other half of the
      vendor's number, to banks 0, 1 and 2, and put back at the end; all else is read. */
  function Transfer(base: nat, bank: byte, j: nat): Event
    requires j < 23
  {
    if j == 2 then Select(base, if bank < 128 then bank + 128 else bank - 128)
    else if j == 4 then Select(base, 128)
    else if j == 14 then Select(base, 129)
    else if j == 18 then Select(base, 130)
    else if j == 22 then Select(base, bank)
    else Get(base, REGISTERS[j])
  }

  function Program(base: nat, bank: byte): (p: seq<Event>)
    ensures |p| == 23
  {
    seq(23, j requires 0 <= j < 23 => Transfer(base, bank, j))
  }

  lemma ProgramAt(base: nat, bank: byte, j: nat)
    requires j <= 22
    ensures Program(base, bank)[j] == Begin(base, Register(j), Writes(j), WriteValue(j, bank))
  {
  }

  /** Transfers begun so far in a cycle that has not failed. */
  function Count(m: Monitor): nat {
    m.stage + if m.transaction then 1 else 0
  }

  function Begins(es: seq<Event>): seq<Event> {
    if es == [] then [] else (if es[0].Begin? then [es[0]] else []) + Begins(es[1..])
  }

  lemma BeginsOf(a: seq<Event>, e: Event, b: seq<Event>)
    requires forall x | x in a :: !x.Begin?
    requires b == [] || (b == [e] && e.Begin?)
    ensures Begins(a + b) == b
  {
    if a == [] {
      assert a + b == b;
      if b != [] { assert b[1..] == []; }
    } else {
      assert (a + b)[0] == a[0] && (a + b)[1..] == a[1..] + b;
      BeginsOf(a[1..], e, b);
    }
  }

  /** The transfer that would be next. */
  function NextOf(m: Monitor): Event
    requires m.stage <= LAST
  {
    Begin(m.base, Register(m.stage), Writes(m.stage), WriteValue(m.stage, m.bank))
  }

  lemma IssueBegins(m: Monitor, now: u32, r: Reads)
    requires m.stage <= LAST && !m.transaction && m.active
    ensures var o := Issue(m, now, r);
      o.m.active ==>
        && o.m.stage == m.stage && o.m.bank == m.bank && o.m.base == m.base && o.m.failed == m.failed
        && o.events == if o.m.transaction then [NextOf(m)] else []
  {
  }

  lemma ReceivedPlace(m: Monitor, r: Reads)
    requires m.stage <= LAST
    ensures Received(m, r).stage == m.stage && (m.stage >= 1 ==> Received(m, r).bank == m.bank)
  {
  }

  lemma FinishedBegins(base: nat, n: Monitor, now: u32, r: Reads)
    requires Ready(n) && n.base == base
    ensures var (f, a) := (Finished(n, now, r), (if Busy(r.status) then [Stop(base)] else []) + [Clear(base)]);
      && (f.m.active && !f.m.failed ==>
            && f.m.base == base && f.m.stage == n.stage + 1 <= LAST
            && Begins(a + f.events) == if f.m.transaction then [NextOf(f.m)] else [])
      && (n.stage == LAST ==> Begins(a + f.events) == [] && f.m.bank == n.bank)
      && (f.result == 1 ==> n.stage == LAST)
  {
    var f, a := Finished(n, now, r), (if Busy(r.status) then [Stop(base)] else []) + [Clear(base)];
    if n.stage == LAST {
      BeginsOf(a, Clear(base), f.events);
    } else if !n.failed {
      var i := n.(stage := n.stage + 1);
      IssueBegins(i, now, r);
      if f.m.active { BeginsOf(a, NextOf(i), f.events); }
    }
  }

  /** One step begins nothing, or the next transfer of the program. */
  lemma StepBegins(m: Monitor, now: u32, r: Reads)
    requires MonitorOk(m) && m.active && !m.failed
    ensures var o := StepOf(m, now, r);
      o.m.active && !o.m.failed ==>
        && o.m.base == m.base && o.m.stage <= LAST
        && ((Count(o.m) == Count(m) && Begins(o.events) == [])
            || (Count(o.m) == Count(m) + 1 && o.m.transaction && Begins(o.events) == [NextOf(o.m)]))
    ensures var o := StepOf(m, now, r);
      o.result == 1 ==> Begins(o.events) == [] && Count(m) == 23 && o.m.bank == m.bank
  {
    var o := StepOf(m, now, r);
    if !m.transaction {
      IssueBegins(m, now, r);
      BeginsOf([], NextOf(m), o.events);
      assert [] + o.events == o.events;
    } else if Busy(r.status) && (!TimedOut(m, now, r) || Busy(r.again)) {
    } else {
      ReceivedIsReady(m, r);
      FinishedBegins(m.base, Received(m, r), now, r);
      ReceivedPlace(m, r);
    }
  }

  // ----- cycles -----

  /** A cycle tick by tick: the states a monitor goes through from the start on, whatever it is answered. */
  ghost predicate IsTrace(states: seq<Monitor>, ticks: seq<Tick>) {
    && |states| == |ticks| + 1 && Begun(states[0])
    && forall i | 0 <= i < |ticks| :: Moves(states, ticks, i)
  }

  /** A cycle has just been started. */
  ghost predicate Begun(m: Monitor) {
    exists was, now, r ::
      MonitorOk(was) && StartOf(was, false, now, r) == Outcome(m, [Begin(m.base, 0x4E, false, 0)], 1)
  }

  ghost predicate Moves(states: seq<Monitor>, ticks: seq<Tick>, i: nat)
    requires i < |ticks| && |states| == |ticks| + 1
  {
    states[i + 1] == OutcomeOf(states[i], ticks[i]).m
  }

  /** The cycles of `Thermal.IsCycle` are such cycles. */
  lemma CyclesAre(m: Monitor, first: byte, ticks: seq<Tick>, states: seq<Monitor>)
    requires IsCycle(m, first, ticks) && |states| == |ticks| + 1
    requires forall i | 0 <= i < |states| :: states[i] == StateAt(m, ticks, i)
    ensures IsTrace(states, ticks)
  {
  }

  lemma BegunIs(m: Monitor)
    requires Begun(m)
    ensures MonitorOk(m) && m.active && m.transaction && m.stage == 0 && !m.failed
  {
  }

  lemma {:induction false} TraceOk(states: seq<Monitor>, ticks: seq<Tick>, n: nat)
    requires IsTrace(states, ticks) && n <= |ticks|
    ensures MonitorOk(states[n])
  {
    if n == 0 {
      BegunIs(states[0]);
    } else {
      TraceOk(states, ticks, n - 1);
      assert Moves(states, ticks, n - 1);
      StepIsSafe(states[n - 1], ticks[n - 1].now, ticks[n - 1].seen);
    }
  }

  /** All transfers begun in the first `n` ticks of a cycle, the one that started it first. */
  ghost function Sent(states: seq<Monitor>, ticks: seq<Tick>, n: nat): seq<Event>
    requires n <= |ticks| && |states| == |ticks| + 1
  {
    if n == 0 then [Get(states[0].base, 0x4E)]
    else Sent(states, ticks, n - 1) + Begins(OutcomeOf(states[n - 1], ticks[n - 1]).events)
  }

  /** The first two transfers are the same whatever bank is selected. */
  lemma ProgramBegins(base: nat, bank: byte, other: byte, k: nat)
    requires k <= 2
    ensures Program(base, bank)[..k] == Program(base, other)[..k]
  {
  }

  lemma NextSent(base: nat, bank: byte, k: nat)
    requires k <= 22
    ensures Program(base, bank)[..k + 1] == Program(base, bank)[..k] + [Program(base, bank)[k]]
  {
  }

  lemma ProgramStarts(base: nat, bank: byte)
    ensures Program(base, bank)[..1] == [Get(base, 0x4E)]
  {
  }

  /** As long as nothing has failed, what has been sent is the beginning of the program. */
  ghost predicate OnProgram(base: nat, s: Monitor, sent: seq<Event>) {
    s.active && !s.failed ==> s.base == base && s.stage <= LAST && sent == Program(base, s.bank)[..Count(s)]
  }

  lemma {:induction false} SentIsProgram(states: seq<Monitor>, ticks: seq<Tick>, n: nat)
    requires IsTrace(states, ticks) && n <= |ticks|
    ensures OnProgram(states[0].base, states[n], Sent(states, ticks, n))
  {
    if n == 0 {
      BegunIs(states[0]);
      ProgramStarts(states[0].base, states[0].bank);
    } else {
      SentIsProgram(states, ticks, n - 1);
      TraceOk(states, ticks, n - 1);
      assert Moves(states, ticks, n - 1);
      SentStep(states[0].base, states[n - 1], ticks[n - 1], Sent(states, ticks, n - 1));
    }
  }

  lemma SentStep(base: nat, s: Monitor, t: Tick, sent: seq<Event>)
    requires MonitorOk(s) && OnProgram(base, s, sent)
    ensures OnProgram(base, OutcomeOf(s, t).m, sent + Begins(OutcomeOf(s, t).events))
  {
    var o := OutcomeOf(s, t);
    if o.m.active && !o.m.failed {
      FailuresStay(s, t.now, t.seen);
      StepBegins(s, t.now, t.seen);
      StageMoves(s, t.now, t.seen);
      if s.bank != o.m.bank { ProgramBegins(base, s.bank, o.m.bank, Count(s)); }
      if Begins(o.events) != [] {
        NextSent(base, o.m.bank, Count(s));
        ProgramAt(base, o.m.bank, Count(s));
      } else {
        assert sent + [] == sent;
      }
    }
  }

  /** A cycle that has failed goes on failed, and an ended one does not begin again by itself. */
  lemma FailuresStay(m: Monitor, now: u32, r: Reads)
    requires MonitorOk(m)
    ensures var o := StepOf(m, now, r); o.m.active && !o.m.failed ==> m.active && !m.failed
  {
  }

  /** Tick `i` ends the cycle with success. */
  ghost predicate Succeeds(states: seq<Monitor>, ticks: seq<Tick>, i: nat)
    requires i < |ticks| && |states| == |ticks| + 1
  {
    OutcomeOf(states[i], ticks[i]).result == 1
  }

  /** A cycle that succeeds has sent just its program, from first to last. */
  lemma CycleSends(states: seq<Monitor>, ticks: seq<Tick>, i: nat)
    requires IsTrace(states, ticks) && i < |ticks| && Succeeds(states, ticks, i)
    ensures Sent(states, ticks, i + 1) == Program(states[0].base, states[i + 1].bank)
  {
    var (s, t, base) := (states[i], ticks[i], states[0].base);
    SentIsProgram(states, ticks, i);
    TraceOk(states, ticks, i);
    assert Moves(states, ticks, i);
    SucceedsFrom(s, t.now, t.seen);
    StepBegins(s, t.now, t.seen);
    assert Program(base, s.bank)[..23] == Program(base, s.bank);
    assert Sent(states, ticks, i) + [] == Sent(states, ticks, i);
  }

  lemma SucceedsFrom(m: Monitor, now: u32, r: Reads)
    requires MonitorOk(m) && StepOf(m, now, r).result == 1
    ensures m.active && !m.failed && m.stage == LAST && m.transaction && StepOf(m, now, r).m.stage == LAST
  {
  }

  // ----- what is read -----

  /** Stages that read something, and where a monitor keeps what they read. */
  predicate ReadsAt(g: nat) {
    g <= 21 && g !in {2, 4, 14, 18}
  }

  predicate Keeps(m: Monitor, g: nat, v: byte) {
    if g == 0 then m.bank == v
    else if g == 1 then m.vendorLo == v
    else if g == 3 then m.vendorHi == v
    else if g == 5 then m.chip == v
    else if g == 6 then m.config == v
    else g in m.samples && m.samples[g] == v
  }

  /** Tick `k` completed the read of stage `g`. */
  ghost predicate ReadIn(states: seq<Monitor>, ticks: seq<Tick>, k: nat, g: nat)
    requires k < |ticks| && |states| == |ticks| + 1
  {
    states[k].stage == g && GoodRead(states[k], ticks[k].seen)
  }

  /** What monitor `now` keeps of stage `g` was answered in the first `n` ticks to that stage's read. */
  ghost predicate Answered(states: seq<Monitor>, ticks: seq<Tick>, n: nat, now: Monitor, g: nat)
    requires n <= |ticks| && |states| == |ticks| + 1
  {
    exists k | 0 <= k < n :: ReadIn(states, ticks, k, g) && Keeps(now, g, ticks[k].seen.value)
  }

  /** What an identified chip says: a bank below 8, the vendor's two halves in the order the bank shows
      them, one of four chips, and a configuration that monitors. */
  predicate Identified(m: Monitor, upTo: nat) {
    && (upTo > 0 ==> m.bank % 128 < 8)
    && (upTo > 1 ==> if m.bank >= 128 then m.vendorLo in {0x5C, 0x12} else m.vendorLo in {0xA3, 0xC3})
    && (upTo > 3 ==> (if m.bank >= 128 then m.vendorHi + 256 * m.vendorLo else m.vendorLo + 256 * m.vendorHi)
                     in {0x5CA3, 0x12C3})
    && (upTo > 5 ==> m.chip == 0x31
                     || (m.chip in {0x10, 0x11, 0x30} && (if m.bank >= 128 then m.vendorLo else m.vendorHi) == 0x5C))
    && (upTo > 6 ==> m.config % 2 == 1 && m.config < 128)
  }

  /** Two monitors that keep the same answers. */
  predicate SameAnswers(m: Monitor, n: Monitor) {
    && n.bank == m.bank && n.vendorLo == m.vendorLo && n.vendorHi == m.vendorHi
    && n.chip == m.chip && n.config == m.config && n.samples == m.samples
  }

  lemma SameMeans(m: Monitor, n: Monitor, g: nat, w: byte, upTo: nat)
    requires SameAnswers(m, n)
    ensures (Keeps(m, g, w) <==> Keeps(n, g, w)) && (Identified(m, upTo) <==> Identified(n, upTo))
  {
  }

  lemma RejectedIs(m: Monitor)
    requires m.stage <= LAST && Identified(m, m.stage)
    ensures Rejected(m) <==> !Identified(m, m.stage + 1)
  {
    BankBits(m.bank);
  }

  lemma BankBits(b: byte)
    ensures b / 8 % 16 == 0 <==> b % 128 < 8
  {
    var low := if b < 128 then b else b - 128;
    QuotientIs(b, 128, if b < 128 then 0 else 1, low);
    QuotientIs(b, 8, (if b < 128 then 0 else 16) + low / 8, low % 8);
    QuotientIs(b / 8, 16, if b < 128 then 0 else 1, low / 8);
  }

  lemma StoredKeeps(m: Monitor, v: byte, g: nat, w: byte)
    requires m.stage <= LAST
    ensures Identified(m, m.stage) ==> Identified(Stored(m, v), m.stage)
    ensures ReadsAt(m.stage) ==> Keeps(Stored(m, v), m.stage, v)
    ensures g < m.stage && ReadsAt(g) && Keeps(m, g, w) ==> Keeps(Stored(m, v), g, w)
  {
  }

  lemma ReceivedIs(m: Monitor, r: Reads, s: Monitor)
    requires !m.failed && s == Stored(m.(transaction := false), r.value)
    ensures Received(m, r).failed <==> TransferFailed(r) || Rejected(s)
    ensures !TransferFailed(r) ==> SameAnswers(s, Received(m, r))
    ensures Received(m, r).stage == m.stage && s.stage == m.stage
  {
  }

  /** What a completed transfer leads to: its answer stored and on to the next stage, unless the
      transfer failed or the chip is not one that is supported. */
  lemma ReceivedMeans(m: Monitor, r: Reads, g: nat, w: byte)
    requires m.stage <= LAST && !m.failed && Identified(m, m.stage)
    ensures var n := Received(m, r);
      && n.stage == m.stage
      && (n.failed <==> TransferFailed(r) || !Identified(Stored(m.(transaction := false), r.value), m.stage + 1))
      && (!n.failed ==> Identified(n, n.stage + 1) && (ReadsAt(m.stage) ==> Keeps(n, m.stage, r.value)))
      && (!n.failed && g < m.stage && ReadsAt(g) && Keeps(m, g, w) ==> Keeps(n, g, w))
  {
    var before := m.(transaction := false);
    var s := Stored(before, r.value);
    SameMeans(m, before, g, w, m.stage);
    StoredKeeps(before, r.value, g, w);
    ReceivedIs(m, r, s);
    RejectedIs(s);
    if !TransferFailed(r) {
      SameMeans(s, Received(m, r), g, w, m.stage + 1);
      SameMeans(s, Received(m, r), m.stage, r.value, m.stage);
    }
  }

  lemma IssueKeeps(m: Monitor, now: u32, r: Reads)
    ensures var n := Issue(m, now, r).m; SameAnswers(m, n) && n.stage == m.stage && n.failed == m.failed
  {
  }

  /** How a step that does not fail goes on: as it was, or with an answer received and the next stage. */
  lemma StepShape(m: Monitor, now: u32, r: Reads)
    requires MonitorOk(m) && m.active && !m.failed
    ensures var (o, n) := (StepOf(m, now, r), Received(m, r));
      !o.m.failed && (o.m.active || o.result == 1) ==>
        || (SameAnswers(m, o.m) && o.m.stage == m.stage && o.result != 1)
        || (GoodRead(m, r) && !n.failed && SameAnswers(n, o.m)
            && o.m.stage == if m.stage == LAST then LAST else m.stage + 1)
  {
    if !m.transaction {
      IssueKeeps(m, now, r);
    } else if !(Busy(r.status) && (!TimedOut(m, now, r) || Busy(r.again))) {
      var n := Received(m, r);
      if n.stage != LAST && !n.failed { IssueKeeps(n.(stage := n.stage + 1), now, r); }
    }
  }

  /** One step of a cycle that does not fail. */
  lemma StepStores(m: Monitor, now: u32, r: Reads, g: nat, w: byte)
    requires MonitorOk(m) && m.active && !m.failed && Identified(m, m.stage)
    ensures var o := StepOf(m, now, r);
      !o.m.failed && (o.m.active || o.result == 1) ==>
        && Identified(o.m, o.m.stage)
        && (o.m.stage == m.stage || (o.m.stage == m.stage + 1 && GoodRead(m, r)))
        && (o.m.stage == m.stage + 1 && ReadsAt(m.stage) ==> Keeps(o.m, m.stage, r.value))
        && (g < m.stage && ReadsAt(g) && Keeps(m, g, w) ==> Keeps(o.m, g, w))
  {
    var o, n := StepOf(m, now, r), Received(m, r);
    if !o.m.failed && (o.m.active || o.result == 1) {
      StepShape(m, now, r);
      ReceivedMeans(m, r, g, w);
      if SameAnswers(m, o.m) { SameMeans(m, o.m, g, w, m.stage); }
      if SameAnswers(n, o.m) {
        SameMeans(n, o.m, g, w, n.stage + 1);
        SameMeans(n, o.m, m.stage, r.value, n.stage + 1);
      }
    }
  }

  /** The cycle has not failed by the end of its first `n` ticks. */
  ghost predicate GoesWell(states: seq<Monitor>, ticks: seq<Tick>, n: nat)
    requires n <= |ticks| && |states| == |ticks| + 1
  {
    (states[n].active && !states[n].failed) || (n > 0 && Succeeds(states, ticks, n - 1))
  }

  ghost predicate Stores(states: seq<Monitor>, ticks: seq<Tick>, n: nat, g: nat)
    requires n <= |ticks| && |states| == |ticks| + 1
  {
    && Identified(states[n], states[n].stage)
    && (g < states[n].stage ==> Answered(states, ticks, n, states[n], g))
  }

  /** Everything kept in a cycle that has not failed was answered in it, to the transfer it belongs
      to, and identifies a supported chip as far as it has been asked. */
  lemma {:induction false} CycleStores(states: seq<Monitor>, ticks: seq<Tick>, n: nat, g: nat)
    requires IsTrace(states, ticks) && n <= |ticks| && ReadsAt(g)
    ensures GoesWell(states, ticks, n) ==> Stores(states, ticks, n, g)
  {
    if n > 0 {
      CycleStores(states, ticks, n - 1, g);
      TraceOk(states, ticks, n - 1);
      assert Moves(states, ticks, n - 1);
      StoresStep(states, ticks, n - 1, g);
    } else {
      BegunIs(states[0]);
    }
  }

  lemma StoresStep(states: seq<Monitor>, ticks: seq<Tick>, n: nat, g: nat)
    requires n < |ticks| && |states| == |ticks| + 1 && ReadsAt(g) && MonitorOk(states[n]) && Moves(states, ticks, n)
    requires GoesWell(states, ticks, n) ==> Stores(states, ticks, n, g)
    ensures GoesWell(states, ticks, n + 1) ==> Stores(states, ticks, n + 1, g)
  {
    var (s, t, now) := (states[n], ticks[n], states[n + 1]);
    if GoesWell(states, ticks, n + 1) {
      FailuresStay(s, t.now, t.seen);
      if Succeeds(states, ticks, n) { SucceedsFrom(s, t.now, t.seen); }
      if g < s.stage {
        var k :| 0 <= k < n && ReadIn(states, ticks, k, g) && Keeps(s, g, ticks[k].seen.value);
        StepStores(s, t.now, t.seen, g, ticks[k].seen.value);
        assert ReadIn(states, ticks, k, g) && Keeps(now, g, ticks[k].seen.value);
      } else {
        StepStores(s, t.now, t.seen, g, 0);
        if g < now.stage { assert ReadIn(states, ticks, n, g) && Keeps(now, g, ticks[n].seen.value); }
      }
    }
  }

  /** A cycle that succeeds has identified the chip and holds an answer of this cycle to every read. */
  lemma CycleMeasures(states: seq<Monitor>, ticks: seq<Tick>, i: nat, g: nat)
    requires IsTrace(states, ticks) && i < |ticks| && Succeeds(states, ticks, i) && ReadsAt(g)
    ensures Identified(states[i + 1], 22) && Answered(states, ticks, i + 1, states[i + 1], g)
  {
    CycleStores(states, ticks, i + 1, g);
    TraceOk(states, ticks, i);
    assert Moves(states, ticks, i);
    SucceedsFrom(states[i], ticks[i].now, ticks[i].seen);
  }
}
