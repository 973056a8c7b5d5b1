/** The hardware monitor on the SMBus (kernel/thermal_hw.c): a stage machine that one timer
    interrupt after the other moves on, against a controller that may answer anything. */
module Thermal {
  import opened Bytes

  /** What the driver writes to a controller: a transfer begun, or its flags cleared, or the
      transfer stopped. */
  datatype Event = Begin(base: nat, reg: byte, write: bool, value: byte) | Clear(base: nat) | Stop(base: nat)

  /** What a call reads: the status, the status after stopping a transfer, the data, and the
      status before beginning one. */
  datatype Reads = Reads(status: byte, again: byte, value: byte, host: byte)

  /** Status bits: busy, done, and the three errors. */
  predicate Busy(status: byte) { status % 2 == 1 }

  predicate Bad(status: byte) { status / 4 % 8 != 0 || status / 2 % 2 == 0 }

  const BANK: byte := 0x4E
  const LAST: nat := 22

  datatype Monitor = Monitor(
    base: nat, stage: nat, active: bool, transaction: bool, changed: bool, failed: bool,
    bank: byte, vendorLo: byte, vendorHi: byte, chip: byte, config: byte, samples: map<nat, byte>, started: u32)

  datatype Outcome = Outcome(m: Monitor, events: seq<Event>, result: int)

  // ----- the transfer of each stage -----

  function FlipTop(b: byte): byte { if b >= 0x80 then b - 0x80 else b + 0x80 }

  /** The register a stage reads or writes; the only writes are to the bank selector. */
  function Register(stage: nat): byte
    requires stage <= LAST
  {
    match stage
    case 0 => BANK
    case 1 => 0x4F
    case 2 => BANK
    case 3 => 0x4F
    case 4 => BANK
    case 5 => 0x58
    case 6 => 0x40
    case 7 => 0x47
    case 8 => 0x4B
    case 9 => 0x5D
    case 10 => 0x27
    case 11 => 0x28
    case 12 => 0x29
    case 13 => 0x2A
    case 14 => BANK
    case 15 => 0x50
    case 16 => 0x51
    case 17 => 0x52
    case 18 => BANK
    case 19 => 0x50
    case 20 => 0x51
    case 21 => 0x52
    case 22 => BANK
  }

  predicate Writes(stage: nat) { stage == 2 || stage == 4 || stage == 14 || stage == 18 || stage == LAST }

  function WriteValue(stage: nat, bank: byte): byte {
    if stage == 2 then FlipTop(bank) else if stage == 4 then 0x80 else if stage == 14 then 0x81
    else if stage == 18 then 0x82 else if stage == LAST then bank else 0
  }

  // ----- the checks on what was read -----

  /** The vendor byte the selected half must show. */
  predicate VendorByte(bank: byte, val: byte) {
    if bank >= 0x80 then val == 0x5C || val == 0x12 else val == 0xA3 || val == 0xC3
  }

  function HighId(m: Monitor): byte { if m.bank >= 0x80 then m.vendorLo else m.vendorHi }

  function LowId(m: Monitor): byte { if m.bank >= 0x80 then m.vendorHi else m.vendorLo }

  function Stored(m: Monitor, val: byte): Monitor {
    match m.stage
    case 0 => m.(bank := val)
    case 1 => m.(vendorLo := val)
    case 3 => m.(vendorHi := val)
    case 5 => m.(chip := val)
    case 6 => m.(config := val)
    case s => if Writes(s) then m else m.(samples := m.samples[s := val])
  }

  predicate Rejected(m: Monitor) {
    match m.stage
    case 0 => m.bank / 8 % 16 != 0
    case 1 => !VendorByte(m.bank, m.vendorLo)
    case 3 => !((LowId(m) == 0xA3 && HighId(m) == 0x5C) || (LowId(m) == 0xC3 && HighId(m) == 0x12))
    case 5 => m.chip !in {0x10, 0x11, 0x30, 0x31} || (m.chip != 0x31 && HighId(m) != 0x5C)
    case 6 => m.config % 2 == 0 || m.config >= 0x80
    case _ => false
  }

  // ----- one call -----

  function Begun(m: Monitor, reg: byte, write: bool, value: byte, now: u32): Outcome {
    Outcome(m.(started := now, transaction := true), [Begin(m.base, reg, write, value)], 0)
  }

  /** Begins the transfer of the current stage; a controller busy for 50 ms is given up. */
  function Issue(m: Monitor, now: u32, r: Reads): Outcome {
    if m.stage == 0 || m.stage > LAST then Outcome(m.(active := false), [], -1)
    else
      var n := m.(changed := m.changed || Writes(m.stage));
      if !Busy(r.host) then Begun(n, Register(m.stage), Writes(m.stage), WriteValue(m.stage, m.bank), now)
      else if Sub32(now, m.started) >= 50 then Outcome(n.(base := 0, active := false), [], -1)
      else Outcome(n, [], 0)
  }

  predicate TimedOut(m: Monitor, now: u32, r: Reads) {
    Busy(r.status) && Sub32(now, m.started) >= 10
  }

  predicate TransferFailed(r: Reads) { Busy(r.status) || Bad(r.status) }

  /** The state once the transfer is over and its data looked at. */
  function Received(m: Monitor, r: Reads): Monitor {
    var n := m.(transaction := false);
    if m.failed || TransferFailed(r) then n.(failed := true)
    else
      var s := Stored(n, r.value);
      s.(failed := Rejected(s))
  }

  function Finished(m: Monitor, now: u32, r: Reads): Outcome {
    if m.stage == LAST then Outcome(m.(active := false), [], if m.failed then -1 else 1)
    else if m.failed && !m.changed then Outcome(m.(active := false), [], -1)
    else Issue(m.(stage := if m.failed then LAST else m.stage + 1), now, r)
  }

  function StepOf(m: Monitor, now: u32, r: Reads): Outcome {
    if !m.active then Outcome(m, [], 0)
    else if !m.transaction then Issue(m, now, r)
    else if Busy(r.status) && !TimedOut(m, now, r) then Outcome(m, [], 0)
    else if Busy(r.status) && Busy(r.again) then
      Outcome(m.(base := 0, active := false, transaction := false), [Stop(m.base)], -1)
    else
      var o := Finished(Received(m, r), now, r);
      o.(events := (if Busy(r.status) then [Stop(m.base)] else []) + [Clear(m.base)] + o.events)
  }

  /** -1: the bus is lent out; 0: no cycle can begin; 1: a cycle has begun. */
  function StartOf(m: Monitor, borrowed: bool, now: u32, r: Reads): Outcome {
    if borrowed then Outcome(m, [], -1)
    else if m.base == 0 || m.active || Busy(r.status) then Outcome(m, [], 0)
    else
      var n := m.(stage := 0, active := true, changed := false, failed := false);
      if Busy(r.host) then Outcome(n.(active := false), [], 0)
      else Begun(n, BANK, false, 0, now).(result := 1)
  }

  // ----- what every call keeps -----

  ghost predicate MonitorOk(m: Monitor) {
    && (m.transaction ==> m.active)
    && (m.active ==> m.base != 0 && m.stage <= LAST && (m.stage == 0 ==> m.transaction && !m.changed))
    && (m.active && m.stage >= 2 ==> VendorByte(m.bank, m.vendorLo))
    && (m.active && m.changed ==> m.stage >= 2)
    && (m.active && m.failed ==> m.changed && m.stage == LAST)
    && (m.active && Writes(m.stage) && m.transaction ==> m.changed)
  }

  /** What ends a call: a state that is well-formed, writes to the selector alone, and none before
      the vendor byte is checked. */
  ghost predicate SafeOutcome(o: Outcome, base: nat) {
    && MonitorOk(o.m) && (o.m.base == base || (o.m.base == 0 && !o.m.active))
    && (forall e | e in o.events :: e.base == base && (e.Begin? && e.write ==> e.reg == BANK))
    && (forall e | e in o.events && e.Begin? && e.write :: o.m.stage >= 2 && VendorByte(o.m.bank, o.m.vendorLo))
    && (o.result != 0 <==> !o.m.active)
  }

  /** Between the end of a transfer and what follows it. */
  ghost predicate Ready(n: Monitor) {
    && n.active && !n.transaction && n.base != 0 && n.stage <= LAST
    && (n.stage >= 2 || (n.stage == 1 && !n.failed) ==> VendorByte(n.bank, n.vendorLo))
    && (n.changed ==> n.stage >= 2) && (Writes(n.stage) ==> n.changed)
  }

  lemma ReceivedIsReady(m: Monitor, r: Reads)
    requires MonitorOk(m) && m.active && m.transaction
    ensures Ready(Received(m, r)) && Received(m, r).base == m.base
  {
  }

  lemma FinishedIsSafe(m: Monitor, now: u32, r: Reads)
    requires Ready(m)
    ensures SafeOutcome(Finished(m, now, r), m.base)
  {
  }

  /** Monitoring never writes a register but the bank selector, and that only once the vendor
      byte of the selected bank has been read in this cycle and found right. */
  lemma StepIsSafe(m: Monitor, now: u32, r: Reads)
    requires MonitorOk(m)
    ensures if m.active then SafeOutcome(StepOf(m, now, r), m.base) else StepOf(m, now, r) == Outcome(m, [], 0)
  {
    if m.active && m.transaction {
      ReceivedIsReady(m, r);
      FinishedIsSafe(Received(m, r), now, r);
    }
  }

  // ----- the chip's bank selector -----

  /** How a call that ends a transfer can leave the chip's bank selector, which only this driver
      writes: a good write sets it, a failed one may or may not have, and a good read shows it. */
  ghost predicate ChipStep(m: Monitor, now: u32, r: Reads, before: byte, after: byte) {
    if !m.active || !m.transaction || m.stage > LAST || (Busy(r.status) && !TimedOut(m, now, r)) then after == before
    else if Writes(m.stage) then
      if TransferFailed(r) then after == before || after == WriteValue(m.stage, m.bank)
      else after == WriteValue(m.stage, m.bank)
    else after == before && (m.stage == 0 && !TransferFailed(r) ==> r.value == before)
  }

  /** In a cycle that began with `first` selected: it is still selected until something is
      written, and once it was read it is remembered. */
  ghost predicate Remembered(m: Monitor, chip: byte, first: byte) {
    && (m.active && m.stage > 0 ==> m.bank == first)
    && (m.active && !m.changed ==> chip == first)
  }

  /** The controller reports that the restoring write has been made. */
  ghost predicate RestoreAcknowledged(m: Monitor, r: Reads) {
    m.active && m.transaction && m.stage == LAST && !TransferFailed(r)
  }

  /** A step that ends the cycle with the bank still, or again, selected that was at first. */
  ghost predicate EndsRestored(m: Monitor, now: u32, r: Reads) {
    var o := StepOf(m, now, r);
    o.result == 1 || (o.result == -1 && (!o.m.changed || RestoreAcknowledged(m, r)))
  }

  /** A cycle that succeeds leaves the bank selected that was selected when it began, and so does
      one that fails before it has tried to write or whose restoring write is acknowledged. */
  lemma StepRestores(m: Monitor, now: u32, r: Reads, before: byte, after: byte, first: byte)
    requires MonitorOk(m) && Remembered(m, before, first) && ChipStep(m, now, r, before, after)
    ensures var o := StepOf(m, now, r);
      && Remembered(o.m, after, first)
      && (EndsRestored(m, now, r) ==> after == first)
      && (RestoreAcknowledged(m, r) ==> o.result != 0)
  {
  }

  // ----- whole cycles -----

  /** A timer interrupt: when it came, what it read, and the bank selected on the chip after it. */
  datatype Tick = Tick(now: u32, seen: Reads, chip: byte)

  ghost function OutcomeOf(m: Monitor, t: Tick): Outcome {
    StepOf(m, t.now, t.seen)
  }

  /** The monitor after the first `n` ticks. */
  ghost function StateAt(m: Monitor, ticks: seq<Tick>, n: nat): Monitor
    requires n <= |ticks|
  {
    if n == 0 then m else OutcomeOf(StateAt(m, ticks, n - 1), ticks[n - 1]).m
  }

  ghost function ChipAt(first: byte, ticks: seq<Tick>, n: nat): byte
    requires n <= |ticks|
  {
    if n == 0 then first else ticks[n - 1].chip
  }

  /** A cycle begun with `first` selected, and the ticks that follow, at any times and with any
      answers. */
  ghost predicate IsCycle(m: Monitor, first: byte, ticks: seq<Tick>) {
    && (exists was, now, r ::
          MonitorOk(was) && StartOf(was, false, now, r) == Outcome(m, [Begin(m.base, BANK, false, 0)], 1))
    && forall i | 0 <= i < |ticks| :: ChipMoves(m, first, ticks, i)
  }

  ghost predicate ChipMoves(m: Monitor, first: byte, ticks: seq<Tick>, i: nat)
    requires i < |ticks|
  {
    ChipStep(StateAt(m, ticks, i), ticks[i].now, ticks[i].seen, ChipAt(first, ticks, i), ticks[i].chip)
  }

  lemma {:induction false} CycleRemembers(m: Monitor, first: byte, ticks: seq<Tick>, n: nat)
    requires IsCycle(m, first, ticks) && n <= |ticks|
    ensures MonitorOk(StateAt(m, ticks, n)) && Remembered(StateAt(m, ticks, n), ChipAt(first, ticks, n), first)
    decreases n
  {
    if n > 0 {
      CycleRemembers(m, first, ticks, n - 1);
      var t, was := ticks[n - 1], StateAt(m, ticks, n - 1);
      assert ChipMoves(m, first, ticks, n - 1);
      StepIsSafe(was, t.now, t.seen);
      StepRestores(was, t.now, t.seen, ChipAt(first, ticks, n - 1), t.chip, first);
    }
  }

  /** Whatever the controller answers, a cycle leaves the bank selected that was selected when it
      began, unless it fails having tried to write, and its restoring write is not acknowledged. */
  lemma CycleRestores(m: Monitor, first: byte, ticks: seq<Tick>, i: nat)
    requires IsCycle(m, first, ticks) && i < |ticks|
    ensures EndsRestored(StateAt(m, ticks, i), ticks[i].now, ticks[i].seen) ==> ticks[i].chip == first
  {
    CycleRemembers(m, first, ticks, i);
    assert ChipMoves(m, first, ticks, i);
    StepRestores(StateAt(m, ticks, i), ticks[i].now, ticks[i].seen, ChipAt(first, ticks, i), ticks[i].chip, first);
  }

  /** Tick `k` completed the good read of stage `stage`. */
  ghost predicate ReadAt(m: Monitor, ticks: seq<Tick>, k: nat, stage: nat)
    requires k < |ticks|
  {
    var was := StateAt(m, ticks, k);
    was.stage == stage && GoodRead(was, ticks[k].seen)
  }

  /** In this cycle the selected bank has been read, and after it the vendor byte it must show. */
  ghost predicate VendorChecked(m: Monitor, ticks: seq<Tick>, n: nat)
    requires n <= |ticks|
  {
    exists k, j :: 0 <= k < j < n && ReadAt(m, ticks, k, 0) && ReadAt(m, ticks, j, 1)
                   && VendorByte(ticks[k].seen.value, ticks[j].seen.value)
  }

  ghost predicate BankRead(m: Monitor, ticks: seq<Tick>, n: nat, bank: byte)
    requires n <= |ticks|
  {
    exists k | 0 <= k < n :: ReadAt(m, ticks, k, 0) && ticks[k].seen.value == bank
  }

  ghost predicate Checked(m: Monitor, ticks: seq<Tick>, n: nat)
    requires n <= |ticks|
  {
    var now := StateAt(m, ticks, n);
    (now.stage >= 1 ==> BankRead(m, ticks, n, now.bank)) && (now.stage >= 2 ==> VendorChecked(m, ticks, n))
  }

  /** What a step must have read to get beyond the first two stages. */
  lemma StageMoves(m: Monitor, now: u32, r: Reads)
    requires MonitorOk(m)
    ensures var o := StepOf(m, now, r);
      && (m.stage == 0 && o.m.stage >= 1 ==> GoodRead(m, r) && o.m.bank == r.value)
      && (m.stage >= 1 ==> o.m.stage >= 1 && o.m.bank == m.bank)
      && (m.stage == 1 && o.m.stage >= 2 ==> GoodRead(m, r) && VendorByte(m.bank, r.value))
      && (m.stage >= 2 ==> o.m.stage >= 2)
  {
  }

  ghost predicate GoodRead(m: Monitor, r: Reads) {
    m.active && m.transaction && !m.failed && !TransferFailed(r)
  }

  lemma CheckedStep(m: Monitor, ticks: seq<Tick>, n: nat)
    requires n < |ticks| && MonitorOk(StateAt(m, ticks, n)) && Checked(m, ticks, n)
    ensures Checked(m, ticks, n + 1)
  {
    var was, t := StateAt(m, ticks, n), ticks[n];
    var now := StateAt(m, ticks, n + 1);
    StageMoves(was, t.now, t.seen);
    if was.stage == 0 && now.stage >= 1 {
      assert ReadAt(m, ticks, n, 0) && t.seen.value == now.bank;
    } else if was.stage >= 1 {
      var k :| 0 <= k < n && ReadAt(m, ticks, k, 0) && ticks[k].seen.value == was.bank;
      if was.stage == 1 && now.stage >= 2 { assert ReadAt(m, ticks, n, 1); }
    }
  }

  /** In every cycle, with the controller answering anything, the only register ever written is the
      bank selector, and not before this cycle has read the selected bank and then the vendor
      byte that bank must show. */
  lemma {:induction false} CycleIsSafe(m: Monitor, first: byte, ticks: seq<Tick>, n: nat)
    requires IsCycle(m, first, ticks) && n <= |ticks|
    ensures Checked(m, ticks, n)
    ensures n > 0 ==> forall e | e in OutcomeOf(StateAt(m, ticks, n - 1), ticks[n - 1]).events && e.Begin? && e.write ::
      e.reg == BANK && VendorChecked(m, ticks, n)
    decreases n
  {
    if n > 0 {
      CycleIsSafe(m, first, ticks, n - 1);
      CycleRemembers(m, first, ticks, n - 1);
      CheckedStep(m, ticks, n - 1);
      StepIsSafe(StateAt(m, ticks, n - 1), ticks[n - 1].now, ticks[n - 1].seen);
    }
  }

  // ----- every cycle ends -----

  /** Ticks a cycle can still take: 62 for every stage to come, and in this one 10 ms for a
      transfer or 50 ms for the bus to become free. */
  ghost function Rank(m: Monitor, now: u32): int {
    if !m.active then 0
    else
      var e := Sub32(now, m.started);
      1 + (LAST - m.stage) * 62 + (if m.transaction then 10 - Min(e, 10) else 61 - Min(e, 50))
  }

  ghost predicate OnTime(m: Monitor, now: u32) {
    m.active ==> Sub32(now, m.started) <= 50 && (m.transaction ==> Sub32(now, m.started) <= 10)
  }

  lemma IssueRank(m: Monitor, now: u32, r: Reads)
    requires m.active && !m.transaction && m.base != 0 && 0 < m.stage <= LAST && Sub32(now, m.started) <= 50
    ensures var o := Issue(m, now, r);
      o.result == 0 ==> OnTime(o.m, Add32(now, 1)) && 0 <= Rank(o.m, Add32(now, 1)) < Rank(m, now)
  {
  }

  /** Every tick that does not end a cycle leaves fewer to go, whatever the controller answers. */
  lemma RankFalls(m: Monitor, now: u32, r: Reads)
    requires MonitorOk(m) && m.active && OnTime(m, now)
    ensures var o := StepOf(m, now, r);
      o.result == 0 ==> OnTime(o.m, Add32(now, 1)) && 0 <= Rank(o.m, Add32(now, 1)) < Rank(m, now)
  {
    if !m.transaction {
      IssueRank(m, now, r);
    } else if !(Busy(r.status) && (!TimedOut(m, now, r) || Busy(r.again))) {
      var n := Received(m, r);
      if n.stage != LAST && !(n.failed && !n.changed) {
        var i := n.(stage := if n.failed then LAST else n.stage + 1);
        IssueRank(i, now, r);
        assert Rank(i, now) <= Rank(m, now);
      }
    }
  }

  /** The monitor after one tick a millisecond with the answers `rs`, or when its cycle ends. */
  ghost function RunSteps(m: Monitor, now: u32, rs: seq<Reads>): Monitor
    decreases |rs|
  {
    if rs == [] || !m.active then m else RunSteps(StepOf(m, now, rs[0]).m, Add32(now, 1), rs[1..])
  }

  lemma {:induction false} StepsEnd(m: Monitor, now: u32, rs: seq<Reads>)
    requires MonitorOk(m) && OnTime(m, now) && |rs| >= Rank(m, now)
    ensures !RunSteps(m, now, rs).active
    decreases |rs|
  {
    if m.active {
      StepIsSafe(m, now, rs[0]);
      RankFalls(m, now, rs[0]);
      StepsEnd(StepOf(m, now, rs[0]).m, Add32(now, 1), rs[1..]);
    }
  }

  /** A cycle is over 1374 ticks after it began, whatever the controller does. */
  lemma CycleEnds(m: Monitor, now: u32, r: Reads, rs: seq<Reads>)
    requires MonitorOk(m) && StartOf(m, false, now, r).result == 1 && |rs| == 1374
    ensures !RunSteps(StartOf(m, false, now, r).m, Add32(now, 1), rs).active
  {
    StepsEnd(StartOf(m, false, now, r).m, Add32(now, 1), rs);
  }

  // ----- the driver -----

  /** The driver's fields, updated by its two calls. */
  class Driver {
    var base: nat
    var stage: nat
    var active: bool
    var transaction: bool
    var changed: bool
    var failed: bool
    var bank: byte
    var vendorLo: byte
    var vendorHi: byte
    var chip: byte
    var config: byte
    var samples: map<nat, byte>
    var started: u32
    ghost var log: seq<Event>

    function View(): Monitor
      reads this
    {
      Monitor(base, stage, active, transaction, changed, failed, bank, vendorLo, vendorHi, chip, config, samples,
              started)
    }

    constructor (io: nat)
      ensures MonitorOk(View()) && !active && base == io && log == []
    {
      base, stage, active, transaction, changed, failed := io, 0, false, false, false, false;
      bank, vendorLo, vendorHi, chip, config, samples, started := 0, 0, 0, 0, 0, map[], 0;
      log := [];
    }

    method Request(reg: byte, write: bool, value: byte, now: u32, host: byte) returns (ok: bool)
      modifies this`started, this`transaction, this`log
      ensures ok == !Busy(host)
      ensures ok ==> started == now && transaction && log == old(log) + [Begin(base, reg, write, value)]
      ensures !ok ==> View() == old(View()) && log == old(log)
    {
      if Busy(host) { return false; }
      log := log + [Begin(base, reg, write, value)];
      started := now;
      transaction := true;
      return true;
    }

    method Start(borrowed: bool, now: u32, r: Reads) returns (result: int)
      modifies this
      ensures var o := StartOf(old(View()), borrowed, now, r);
        View() == o.m && result == o.result && log == old(log) + o.events
    {
      if borrowed { return -1; }
      if base == 0 || active || Busy(r.status) { return 0; }
      stage := 0;
      active := true;
      changed := false;
      failed := false;
      var ok := Request(BANK, false, 0, now, r.host);
      if !ok {
        active := false;
        return 0;
      }
      return 1;
    }

    /** Begins the transfer of the current stage. */
    method IssueStage(now: u32, r: Reads) returns (result: int)
      modifies this
      ensures var o := Issue(old(View()), now, r);
        View() == o.m && result == o.result && log == old(log) + o.events
    {
      if stage == 0 || stage > LAST {
        active := false;
        return -1;
      }
      var write := Writes(stage);
      if write { changed := true; }
      var ok := Request(Register(stage), write, WriteValue(stage, bank), now, r.host);
      if !ok {
        if Sub32(now, started) >= 50 {
          base := 0;
          active := false;
          return -1;
        }
      }
      return 0;
    }

    /** Takes what a transfer read. */
    method Receive(r: Reads)
      modifies this
      ensures View() == Received(old(View()), r) && log == old(log)
    {
      if TransferFailed(r) { failed := true; }
      transaction := false;
      if !failed {
        match stage {
          case 0 => bank := r.value;
          case 1 => vendorLo := r.value;
          case 3 => vendorHi := r.value;
          case 5 => chip := r.value;
          case 6 => config := r.value;
          case s => if !Writes(s) { samples := samples[s := r.value]; }
        }
        if Rejected(View()) { failed := true; }
      }
    }

    /** Goes on after a transfer is over. */
    method EndTransfer(now: u32, r: Reads) returns (result: int)
      modifies this
      ensures var o := Finished(Received(old(View()), r), now, r);
        View() == o.m && result == o.result && log == old(log) + o.events
    {
      Receive(r);
      if stage == LAST {
        active := false;
        return if failed then -1 else 1;
      }
      if failed {
        if !changed {
          active := false;
          return -1;
        }
        stage := LAST;
      } else {
        stage := stage + 1;
      }
      result := IssueStage(now, r);
    }

    method Step(now: u32, r: Reads) returns (result: int)
      modifies this
      ensures var o := StepOf(old(View()), now, r);
        View() == o.m && result == o.result && log == old(log) + o.events
    {
      if !active { return 0; }
      if !transaction {
        result := IssueStage(now, r);
        return;
      }
      if Busy(r.status) && Sub32(now, started) < 10 { return 0; }
      if Busy(r.status) {
        log := log + [Stop(base)];
        if Busy(r.again) {
          base := 0;
          active := false;
          transaction := false;
          return -1;
        }
      }
      log := log + [Clear(base)];
      result := EndTransfer(now, r);
    }
  }
}
