/** The bus shared by the hardware monitor and the battery reader. */
module Smbus {
  import opened Bytes
  import opened Thermal

  // The monitor's calls (kernel/thermal_hw.c) run in a timer interrupt and so are single steps;
  // the reader (kernel/battery.c) runs in the main loop and can be interrupted between any two of
  // its steps, except where it claims the bus with interrupts off.

  /** A reader's poll takes these steps; `now` is the time it was called with. */
  datatype Place =
    | Idle
    | Examine(now: u32, status: byte)
    | Stopping(now: u32)
    | Reading(now: u32)
    | Acknowledge(now: u32)
    | Command(now: u32, written: nat)
    | Finishing(now: u32, good: bool)
    | Releasing(now: u32, good: bool)

  datatype Status = Waiting | Good | ReadError

  datatype Reader = Reader(
    base: nat, stage: nat, active: bool, disabled: bool, started: u32, deadline: u32,
    words: seq<nat>, status: Status, place: Place)

  /** Everything the two drivers share. */
  datatype Bus = Bus(monitor: Monitor, reader: Reader, borrowed: bool)

  /** A write by the reader to one of its controller's ports. */
  datatype Write = Write(base: nat, port: nat, value: byte)

  /** What one step of the reader reads: status, control register, data word. */
  datatype Answer = Answer(status: byte, control: byte, word: nat)

  /** The six words of a sample, by their commands; the first is read again at the end. */
  const COMMANDS: seq<byte> := [0x03, 0x0D, 0x10, 0x18, 0x16, 0x03]

  /** Clears the flags of the last transfer. */
  function Clearing(base: nat): Write {
    Write(base, 0, 0x1E)
  }

  /** The writes that ask for a word: its command, the battery's address to read from, and the start. */
  function Asking(base: nat, stage: nat, k: nat): Write
    requires stage < 6 && k < 3
  {
    if k == 0 then Write(base, 3, COMMANDS[stage]) else if k == 1 then Write(base, 4, 0x17) else Write(base, 2, 0x4C)
  }

  function Asked(base: nat, stage: nat, k: nat): seq<Write>
    requires stage < 6 && k <= 3
    decreases 3 - k
  {
    if k == 3 then [] else [Asking(base, stage, k)] + Asked(base, stage, k + 1)
  }

  predicate NotDue(now: u32, deadline: u32) {
    Sub32(now, deadline) >= 0x8000_0000
  }

  function Claimable(b: Bus, io: nat): bool {
    !b.borrowed && !(b.monitor.base == io && b.monitor.active)
  }

  predicate Consistent(words: seq<nat>)
    requires |words| == 6
  {
    words[0] != 0xFFFF && words[0] == words[5] && words[4] != 0xFFFF
    && words[4] % 16 == 0 && words[4] / 0x80 % 2 == 1
  }

  /** Entering a poll; the claim, with the transfer it begins, is a single step. */
  function Enter(b: Bus, now: u32, a: Answer): (done: (Bus, seq<Write>)) {
    var r := b.reader;
    if r.base == 0 || r.disabled then (b, [])
    else if r.active then (b.(reader := r.(place := Examine(now, a.status))), [])
    else if r.status != Waiting && NotDue(now, r.deadline) then (b, [])
    else if Busy(a.status) || a.control % 2 == 1 || a.control >= 0x80 || !Claimable(b, r.base) then (b, [])
    else
      var begun := r.(active := true, stage := 0, started := now);
      (b.(reader := begun, borrowed := true), [Clearing(r.base)] + Asked(r.base, 0, 0))
  }

  /** Six words, the next of which is being read. */
  predicate ReaderOk(r: Reader) {
    |r.words| == 6 && (r.place.Reading? || r.place.Acknowledge? || r.place.Command? ==> r.stage < 6)
  }

  /** One further step of a poll under way. */
  function Go(b: Bus, a: Answer): (done: (Bus, seq<Write>))
    requires ReaderOk(b.reader)
  {
    var r := b.reader;
    match r.place
    case Idle => (b, [])
    case Examine(now, status) =>
      if Busy(status) then
        if Sub32(now, r.started) < 20 then (b.(reader := r.(place := Idle)), [])
        else (b.(reader := r.(place := Stopping(now))), [Write(r.base, 2, 2)])
      else if Bad(status) then (b.(reader := r.(place := Finishing(now, false))), [Clearing(r.base)])
      else (b.(reader := r.(place := Reading(now))), [])
    case Stopping(now) => (b.(reader := r.(disabled := true, place := Finishing(now, false))), [])
    case Reading(now) =>
      (b.(reader := r.(words := r.words[r.stage := a.word], place := Acknowledge(now))), [])
    case Acknowledge(now) =>
      var n := r.(stage := r.stage + 1);
      if n.stage == 6 then (b.(reader := n.(place := Finishing(now, Consistent(r.words)))), [Clearing(r.base)])
      else (b.(reader := n.(place := Command(now, 0))), [Clearing(r.base)])
    case Command(now, k) =>
      if k < 2 then (b.(reader := r.(place := Command(now, k + 1))), [Asking(r.base, r.stage, k)])
      else (b.(reader := r.(place := Idle, started := now)), [Asking(r.base, r.stage, 2)])
    case Finishing(now, good) =>
      (b.(reader := r.(active := false, status := if good then Good else ReadError, place := Releasing(now, good))), [])
    case Releasing(now, good) =>
      (b.(reader := r.(deadline := Add32(now, 5000), place := Idle), borrowed := false), [])
  }

  // ----- steps of the whole -----

  datatype Action =
    | MonitorStart(now: u32, seen: Reads)
    | MonitorStep(now: u32, seen: Reads)
    | ReaderStep(now: u32, answer: Answer)

  function ReaderAction(b: Bus, now: u32, a: Answer): (done: (Bus, seq<Write>))
    requires ReaderOk(b.reader)
  {
    if b.reader.place.Idle? then Enter(b, now, a) else Go(b, a)
  }

  function MonitorAction(b: Bus, x: Action): Outcome
    requires !x.ReaderStep?
  {
    if x.MonitorStart? then StartOf(b.monitor, b.borrowed, x.now, x.seen) else StepOf(b.monitor, x.now, x.seen)
  }

  function After(b: Bus, x: Action): Bus
    requires ReaderOk(b.reader)
  {
    if x.ReaderStep? then ReaderAction(b, x.now, x.answer).0 else b.(monitor := MonitorAction(b, x).m)
  }

  /** Whether a step writes to the ports of the controller at `io`, by the monitor or the reader. */
  ghost predicate MonitorWrites(b: Bus, x: Action, io: nat) {
    !x.ReaderStep? && exists e :: e in MonitorAction(b, x).events && e.base == io
  }

  ghost predicate ReaderWrites(b: Bus, x: Action, io: nat)
    requires ReaderOk(b.reader)
  {
    x.ReaderStep? && exists w :: w in ReaderAction(b, x.now, x.answer).1 && w.base == io
  }

  // ----- one driver at a time -----

  /** The reader's transfer holds the loan of the bus until its very last step, and while the bus
      is lent the monitor is idle on that controller. */
  ghost predicate BusOk(b: Bus) {
    && MonitorOk(b.monitor) && ReaderOk(b.reader)
    && (b.reader.active ==>
          && b.borrowed && b.reader.base != 0
          && (b.reader.place.Finishing? || (b.reader.stage < 6 && !b.reader.disabled)))
    && (b.borrowed ==> b.reader.active || b.reader.place.Releasing?)
    && (b.reader.place.Releasing? ==> b.borrowed && !b.reader.active)
    && (b.reader.active || b.reader.place.Idle? || b.reader.place.Releasing?)
    && (b.borrowed ==> !(b.monitor.active && b.monitor.base == b.reader.base))
  }

  /** Both drivers have a transfer in flight on the same controller. */
  ghost predicate Clash(b: Bus) {
    b.monitor.active && b.reader.active && b.monitor.base == b.reader.base
  }

  lemma MonitorKeeps(b: Bus, x: Action)
    requires BusOk(b) && !x.ReaderStep?
    ensures BusOk(After(b, x))
    ensures forall io :: MonitorWrites(b, x, io) ==> io == b.monitor.base && !(b.reader.active && b.reader.base == io)
  {
    var m := b.monitor;
    if x.MonitorStart? {
    } else {
      StepIsSafe(m, x.now, x.seen);
    }
  }

  lemma ReaderKeeps(b: Bus, x: Action)
    requires BusOk(b) && x.ReaderStep?
    ensures BusOk(After(b, x))
    ensures forall io :: ReaderWrites(b, x, io) ==> io == b.reader.base && !(b.monitor.active && b.monitor.base == io)
  {
  }

  /** The two drivers at rest: what both initialisations leave. */
  ghost predicate Initial(b: Bus) {
    MonitorOk(b.monitor) && !b.monitor.active && !b.borrowed
    && |b.reader.words| == 6 && !b.reader.active && b.reader.place.Idle?
  }

  ghost predicate Run(bs: seq<Bus>, xs: seq<Action>) {
    && |bs| == |xs| + 1 && Initial(bs[0])
    && forall k | 0 <= k < |xs| :: Moves(bs, xs, k)
  }

  ghost predicate Moves(bs: seq<Bus>, xs: seq<Action>, k: nat)
    requires |bs| == |xs| + 1 && k < |xs|
  {
    ReaderOk(bs[k].reader) && bs[k + 1] == After(bs[k], xs[k])
  }

  lemma {:induction false} RunOk(bs: seq<Bus>, xs: seq<Action>, k: nat)
    requires Run(bs, xs) && k < |bs|
    ensures BusOk(bs[k])
    decreases k
  {
    if k > 0 {
      RunOk(bs, xs, k - 1);
      assert Moves(bs, xs, k - 1);
      if xs[k - 1].ReaderStep? { ReaderKeeps(bs[k - 1], xs[k - 1]); } else { MonitorKeeps(bs[k - 1], xs[k - 1]); }
    }
  }

  /** In every interleaving of interrupts and main-loop steps, with the hardware answering
      anything, at most one driver has a transfer in flight on a controller, and neither writes to
      a controller the other is using. */
  lemma OneDriverAtATime(bs: seq<Bus>, xs: seq<Action>, k: nat)
    requires Run(bs, xs) && k < |xs|
    ensures !Clash(bs[k]) && !Clash(bs[k + 1])
    ensures forall io :: MonitorWrites(bs[k], xs[k], io) ==> !(bs[k].reader.active && bs[k].reader.base == io)
    ensures ReaderOk(bs[k].reader)
    ensures forall io :: ReaderWrites(bs[k], xs[k], io) ==> !(bs[k].monitor.active && bs[k].monitor.base == io)
  {
    RunOk(bs, xs, k);
    RunOk(bs, xs, k + 1);
    if xs[k].ReaderStep? { ReaderKeeps(bs[k], xs[k]); } else { MonitorKeeps(bs[k], xs[k]); }
  }

  // ----- the loan is given back -----

  /** Steps the reader can still take before it gives the bus back. */
  ghost function LoanRank(r: Reader): int {
    match r.place
    case Releasing(_, _) => 1
    case Finishing(_, _) => 2
    case Stopping(_) => 3
    case Acknowledge(_) => (6 - r.stage) * 10 + 5
    case Reading(_) => (6 - r.stage) * 10 + 6
    case Examine(_, _) => (6 - r.stage) * 10 + 7
    case Idle => (6 - r.stage) * 10 + 8
    case Command(_, k) => (6 - r.stage) * 10 + (if k < 2 then 11 - k else 9)
  }

  /** Waiting for a transfer begun less than 20 ms before the poll. */
  ghost predicate StillWaiting(r: Reader) {
    r.place.Examine? && Busy(r.place.status) && Sub32(r.place.now, r.started) < 20
  }

  /** Every step of the reader brings the end of the loan nearer, but for waiting on a transfer
      that is not yet 20 ms old; no step of the monitor puts it off. */
  lemma LoanEnds(b: Bus, x: Action)
    requires BusOk(b) && b.borrowed
    ensures LoanRank(b.reader) > 0
    ensures x.ReaderStep? && !StillWaiting(b.reader) ==>
      !After(b, x).borrowed || LoanRank(After(b, x).reader) < LoanRank(b.reader)
    ensures x.ReaderStep? && StillWaiting(b.reader) ==> After(b, x).reader == b.reader.(place := Idle)
    ensures !x.ReaderStep? ==> After(b, x).reader == b.reader && After(b, x).borrowed
  {
    if x.ReaderStep? { ReaderKeeps(b, x); } else { MonitorKeeps(b, x); }
  }

  /** The reader's steps among `n` steps of a run, and those of them that only wait. */
  ghost function ReaderSteps(bs: seq<Bus>, xs: seq<Action>, from: nat, n: nat): set<nat>
    requires |bs| == |xs| + 1 && from + n <= |xs|
  {
    set k | from <= k < from + n && xs[k].ReaderStep?
  }

  ghost function WaitingSteps(bs: seq<Bus>, xs: seq<Action>, from: nat, n: nat): set<nat>
    requires |bs| == |xs| + 1 && from + n <= |xs|
  {
    set k | from <= k < from + n && Waits(bs, xs, k)
  }

  ghost predicate Waits(bs: seq<Bus>, xs: seq<Action>, k: nat)
    requires |bs| == |xs| + 1 && k < |xs|
  {
    xs[k].ReaderStep? && StillWaiting(bs[k].reader)
  }

  lemma OneStep(bs: seq<Bus>, xs: seq<Action>, from: nat, n: nat)
    requires |bs| == |xs| + 1 && from + n < |xs|
    ensures |ReaderSteps(bs, xs, from, n + 1)|
         == |ReaderSteps(bs, xs, from, n)| + if xs[from + n].ReaderStep? then 1 else 0
  {
    var k, s, t := from + n, ReaderSteps(bs, xs, from, n), ReaderSteps(bs, xs, from, n + 1);
    assert k !in s && (k in t <==> xs[k].ReaderStep?);
    assert s == t - {k};
  }

  lemma OneWait(bs: seq<Bus>, xs: seq<Action>, from: nat, n: nat)
    requires |bs| == |xs| + 1 && from + n < |xs|
    ensures |WaitingSteps(bs, xs, from, n + 1)|
         == |WaitingSteps(bs, xs, from, n)| + if Waits(bs, xs, from + n) then 1 else 0
  {
    var k, s, t := from + n, WaitingSteps(bs, xs, from, n), WaitingSteps(bs, xs, from, n + 1);
    assert k !in s && (k in t <==> Waits(bs, xs, k));
    assert s == t - {k};
  }

  /** One step of a run, as counted. */
  lemma LoanStep(bs: seq<Bus>, xs: seq<Action>, k: nat)
    requires Run(bs, xs) && k < |xs| && bs[k].borrowed && bs[k + 1].borrowed
    ensures LoanRank(bs[k + 1].reader) + (if xs[k].ReaderStep? then 1 else 0)
         <= LoanRank(bs[k].reader) + (if Waits(bs, xs, k) then 2 else 0)
  {
    RunOk(bs, xs, k);
    assert Moves(bs, xs, k);
    LoanEnds(bs[k], xs[k]);
    assert Waits(bs, xs, k) ==>
      LoanRank(bs[k + 1].reader) == LoanRank(bs[k].reader) + 1;
  }

  lemma {:induction false} LoanSpent(bs: seq<Bus>, xs: seq<Action>, from: nat, n: nat)
    requires Run(bs, xs) && from + n <= |xs| && forall k | from <= k <= from + n :: bs[k].borrowed
    ensures |ReaderSteps(bs, xs, from, n)| + LoanRank(bs[from + n].reader)
         <= LoanRank(bs[from].reader) + 2 * |WaitingSteps(bs, xs, from, n)|
    decreases n
  {
    if n > 0 {
      LoanSpent(bs, xs, from, n - 1);
      OneStep(bs, xs, from, n - 1);
      OneWait(bs, xs, from, n - 1);
      LoanStep(bs, xs, from + n - 1);
    }
  }

  /** Over a whole run: while the bus stays lent, the reader takes at most 71 steps and two for every
      time it finds a transfer that is not yet 20 ms old still under way. */
  lemma LoanBounded(bs: seq<Bus>, xs: seq<Action>, from: nat, n: nat)
    requires Run(bs, xs) && from + n <= |xs| && forall k | from <= k <= from + n :: bs[k].borrowed
    ensures |ReaderSteps(bs, xs, from, n)| <= 71 + 2 * |WaitingSteps(bs, xs, from, n)|
  {
    LoanSpent(bs, xs, from, n);
    RunOk(bs, xs, from);
    RunOk(bs, xs, from + n);
    LoanRankBounds(bs[from]);
    LoanRankBounds(bs[from + n]);
  }

  lemma LoanRankBounds(b: Bus)
    requires BusOk(b) && b.borrowed
    ensures 0 < LoanRank(b.reader) <= 71
  {
  }

  // ----- a poll that is not interrupted -----

  /** A poll taken to its end. */
  ghost function Settle(b: Bus, now: u32, a: Answer): Bus
    requires BusOk(b)
    decreases if b.reader.place.Idle? then 0 else LoanRank(b.reader)
  {
    if b.reader.place.Idle? then b
    else
      ReaderKeeps(b, ReaderStep(now, a));
      LoanEnds(b, ReaderStep(now, a));
      Settle(Go(b, a).0, now, a)
  }

  /** Everything it writes on the way. */
  ghost function SettleWrites(b: Bus, now: u32, a: Answer): seq<Write>
    requires BusOk(b)
    decreases if b.reader.place.Idle? then 0 else LoanRank(b.reader)
  {
    if b.reader.place.Idle? then []
    else
      ReaderKeeps(b, ReaderStep(now, a));
      LoanEnds(b, ReaderStep(now, a));
      Go(b, a).1 + SettleWrites(Go(b, a).0, now, a)
  }

  /** One step of it. */
  lemma SettleStep(b: Bus, now: u32, a: Answer, next: Bus, writes: seq<Write>)
    requires BusOk(b) && !b.reader.place.Idle? && Go(b, a) == (next, writes)
    ensures BusOk(next) && Settle(b, now, a) == Settle(next, now, a)
    ensures SettleWrites(b, now, a) == writes + SettleWrites(next, now, a)
  {
    ReaderKeeps(b, ReaderStep(now, a));
    assert next == Go(b, a).0 && writes == Go(b, a).1;
  }

  /** The reader once its sample is over. */
  ghost function Ended(r: Reader, good: bool, now: u32): Reader {
    r.(active := false, status := if good then Good else ReadError, deadline := Add32(now, 5000), place := Idle)
  }

  lemma SettleFinish(b: Bus, now: u32, a: Answer)
    requires BusOk(b) && b.reader.place.Finishing? && b.reader.place.now == now
    ensures Settle(b, now, a) == b.(borrowed := false, reader := Ended(b.reader, b.reader.place.good, now))
    ensures SettleWrites(b, now, a) == []
  {
    var c := Go(b, a).0;
    SettleStep(b, now, a, c, []);
    SettleStep(c, now, a, Go(c, a).0, []);
  }

  lemma SettleCommand(b: Bus, now: u32, a: Answer, k: nat)
    requires BusOk(b) && b.reader.place == Command(now, k) && k <= 2
    ensures Settle(b, now, a) == b.(reader := b.reader.(place := Idle, started := now))
    ensures SettleWrites(b, now, a) == Asked(b.reader.base, b.reader.stage, k)
    decreases 2 - k
  {
    SettleStep(b, now, a, Go(b, a).0, [Asking(b.reader.base, b.reader.stage, k)]);
    if k < 2 { SettleCommand(Go(b, a).0, now, a, k + 1); }
  }

  lemma SettleReading(b: Bus, now: u32, a: Answer)
    requires BusOk(b) && b.reader.place == Reading(now)
    ensures var r := b.reader.(words := b.reader.words[b.reader.stage := a.word], stage := b.reader.stage + 1);
      && Settle(b, now, a) == (if r.stage < 6 then b.(reader := r.(place := Idle, started := now))
                               else b.(borrowed := false, reader := Ended(r, Consistent(r.words), now)))
      && SettleWrites(b, now, a) == [Clearing(r.base)] + if r.stage < 6 then Asked(r.base, r.stage, 0) else []
  {
    var c := Go(b, a).0;
    SettleStep(b, now, a, c, []);
    var d := Go(c, a).0;
    SettleStep(c, now, a, d, [Clearing(b.reader.base)]);
    if d.reader.stage == 6 { SettleFinish(d, now, a); } else { SettleCommand(d, now, a, 0); }
  }

  /** The bus after a whole poll, and everything the poll writes. */
  ghost function Polled(b: Bus, now: u32, a: Answer): Bus
    requires BusOk(b) && b.reader.place.Idle?
  {
    ReaderKeeps(b, ReaderStep(now, a));
    Settle(Enter(b, now, a).0, now, a)
  }

  ghost function PollWrites(b: Bus, now: u32, a: Answer): seq<Write>
    requires BusOk(b) && b.reader.place.Idle?
  {
    ReaderKeeps(b, ReaderStep(now, a));
    Enter(b, now, a).1 + SettleWrites(Enter(b, now, a).0, now, a)
  }

  lemma {:induction false} SettleKeeps(b: Bus, now: u32, a: Answer)
    requires BusOk(b)
    ensures BusOk(Settle(b, now, a)) && Settle(b, now, a).reader.place.Idle?
    decreases if b.reader.place.Idle? then 0 else LoanRank(b.reader)
  {
    if !b.reader.place.Idle? {
      ReaderKeeps(b, ReaderStep(now, a));
      LoanEnds(b, ReaderStep(now, a));
      SettleKeeps(Go(b, a).0, now, a);
    }
  }

  // ----- shutting down -----

  /** Milliseconds a sample can still take: 21 for every word to come, less what has passed. */
  ghost function SampleLeft(r: Reader, now: u32): int {
    (6 - r.stage) * 21 - Min(Sub32(now, r.started), 20)
  }

  /** A poll under way: from where it stands it ends as the code's branches say. */
  lemma PollGoes(b: Bus, now: u32, a: Answer)
    requires BusOk(b) && b.reader.place == Examine(now, a.status) && b.reader.active
    ensures var r := b.reader.(place := Idle);
      && (Busy(a.status) && Sub32(now, r.started) < 20 ==>
            Settle(b, now, a) == b.(reader := r) && SettleWrites(b, now, a) == [])
      && (Busy(a.status) && Sub32(now, r.started) >= 20 ==>
            && Settle(b, now, a) == b.(borrowed := false, reader := Ended(r.(disabled := true), false, now))
            && SettleWrites(b, now, a) == [Write(r.base, 2, 2)])
      && (!Busy(a.status) && Bad(a.status) ==>
            Settle(b, now, a) == b.(borrowed := false, reader := Ended(r, false, now))
            && SettleWrites(b, now, a) == [Clearing(r.base)])
      && (!Busy(a.status) && !Bad(a.status) ==>
            var n := r.(words := r.words[r.stage := a.word], stage := r.stage + 1);
            && Settle(b, now, a) == (if n.stage < 6 then b.(reader := n.(started := now))
                                     else b.(borrowed := false, reader := Ended(n, Consistent(n.words), now)))
            && SettleWrites(b, now, a) == [Clearing(r.base)] + if n.stage < 6 then Asked(r.base, n.stage, 0) else [])
  {
    var (c, w) := Go(b, a);
    SettleStep(b, now, a, c, w);
    if Busy(a.status) {
      if Sub32(now, b.reader.started) >= 20 {
        SettleStep(c, now, a, Go(c, a).0, []);
        SettleFinish(Go(c, a).0, now, a);
      }
    } else if Bad(a.status) {
      SettleFinish(c, now, a);
    } else {
      SettleReading(c, now, a);
    }
  }

  /** What a poll of a sample under way does. */
  lemma PollMoves(b: Bus, now: u32, a: Answer)
    requires BusOk(b) && b.reader.place.Idle? && b.reader.active
    ensures var r, n := b.reader, Polled(b, now, a).reader;
      && BusOk(Polled(b, now, a)) && n.place.Idle?
      && (n.active ==> (n == r && Sub32(now, r.started) < 20) || (n.stage == r.stage + 1 && n.started == now))
  {
    ReaderKeeps(b, ReaderStep(now, a));
    var c := Enter(b, now, a).0;
    SettleKeeps(c, now, a);
    PollGoes(c, now, a);
  }

  /** The bus after one poll a millisecond with these answers, or when the sample is over. */
  ghost function AfterPolls(b: Bus, now: u32, answers: seq<Answer>): Bus
    requires BusOk(b) && b.reader.place.Idle?
    decreases |answers|
  {
    if answers == [] || !b.reader.active then b
    else
      PollMoves(b, now, answers[0]);
      AfterPolls(Polled(b, now, answers[0]), Add32(now, 1), answers[1..])
  }

  lemma {:induction false} PollsEnd(b: Bus, now: u32, answers: seq<Answer>)
    requires BusOk(b) && b.reader.place.Idle? && (b.reader.active ==> |answers| >= SampleLeft(b.reader, now))
    ensures !AfterPolls(b, now, answers).reader.active
    decreases |answers|
  {
    if b.reader.active {
      var next := Polled(b, now, answers[0]);
      PollMoves(b, now, answers[0]);
      if next.reader.active {
        assert SampleLeft(next.reader, Add32(now, 1)) < SampleLeft(b.reader, now);
      }
      PollsEnd(next, Add32(now, 1), answers[1..]);
    }
  }

  /** Leaving the dashboard: a sample under way is over after at most 126 polls, and with it the
      loan of the bus, whatever the hardware answers. */
  lemma ShutdownEnds(b: Bus, now: u32, answers: seq<Answer>)
    requires BusOk(b) && b.reader.place.Idle? && |answers| == 126
    ensures !AfterPolls(b, now, answers).reader.active
  {
    PollsEnd(b, now, answers);
  }

  /** The reader's fields, updated by its poll. */
  class Battery {
    var base: nat
    var stage: nat
    var active: bool
    var disabled: bool
    var started: u32
    var deadline: u32
    var words: seq<nat>
    var status: Status
    var borrowed: bool
    ghost var log: seq<Write>

    ghost function View(m: Monitor): Bus
      reads this
    {
      Bus(m, Reader(base, stage, active, disabled, started, deadline, words, status, Idle), borrowed)
    }

    method Finish(good: bool, now: u32)
      modifies this`active, this`status, this`deadline, this`borrowed
      ensures !active && status == (if good then Good else ReadError) && deadline == Add32(now, 5000) && !borrowed
    {
      active := false;
      status := if good then Good else ReadError;
      deadline := Add32(now, 5000);
      borrowed := false;
    }

    /** One poll; `here` says that the monitor is active on this controller. */
    method Poll(now: u32, a: Answer, here: bool, ghost m: Monitor)
      requires BusOk(View(m)) && here == (m.active && m.base == base)
      modifies this
      ensures View(m) == Polled(old(View(m)), now, a) && log == old(log) + PollWrites(old(View(m)), now, a)
    {
      ghost var b := View(m);
      ReaderKeeps(b, ReaderStep(now, a));
      if base == 0 || disabled { return; }
      if !active {
        if status != Waiting && NotDue(now, deadline) { return; }
        if Busy(a.status) || a.control % 2 == 1 || a.control >= 0x80 || borrowed || here { return; }
        borrowed := true;
        active := true;
        stage := 0;
        started := now;
        log := log + ([Clearing(base)] + Asked(base, 0, 0));
        return;
      }
      GoOn(now, a, m);
    }

    /** A poll of a sample under way. */
    method GoOn(now: u32, a: Answer, ghost m: Monitor)
      requires BusOk(View(m)) && active && !disabled && base != 0
      modifies this
      ensures View(m) == Polled(old(View(m)), now, a) && log == old(log) + PollWrites(old(View(m)), now, a)
    {
      ghost var b := View(m);
      ReaderKeeps(b, ReaderStep(now, a));
      PollGoes(Enter(b, now, a).0, now, a);
      if Busy(a.status) {
        if Sub32(now, started) < 20 { return; }
        log := log + [Write(base, 2, 2)];
        disabled := true;
        Finish(false, now);
        return;
      }
      log := log + [Clearing(base)];
      if Bad(a.status) {
        Finish(false, now);
        return;
      }
      words := words[stage := a.word];
      stage := stage + 1;
      if stage == 6 {
        Finish(Consistent(words), now);
        return;
      }
      log := log + Asked(base, stage, 0);
      started := now;
    }
  }
}
