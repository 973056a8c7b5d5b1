/** The virtual timer chip of the DOS runtime (kernel/dos_hardware.c): three counters clocked at
    1193182 Hz by a host tick of 1 ms, with the fraction of a clock carried over. */
module Pit {
  import opened Bytes

  const PIT_HZ: nat := 1193182
  const MAX_COUNT: nat := 65536
  /** The smallest count channel 0 accepts: with it a tick never spans two periods. */
  const MIN_COUNT0: nat := 1194

  // ----- the clocks of a tick -----

  /** The clocks in the next tick: 1193, or 1194 when the fraction carries. */
  function StepClocks(fraction: nat): nat {
    PIT_HZ / 1000 + (fraction + PIT_HZ % 1000) / 1000
  }

  function NextFraction(fraction: nat): (f: nat)
    ensures f < 1000
  {
    (fraction + PIT_HZ % 1000) % 1000
  }

  function FractionAfter(f: nat, n: nat): nat {
    if n == 0 then f else NextFraction(FractionAfter(f, n - 1))
  }

  /** The clocks of `n` ticks. */
  function Clocks(f: nat, n: nat): nat {
    if n == 0 then 0 else Clocks(f, n - 1) + StepClocks(FractionAfter(f, n - 1))
  }

  lemma StepIs(fraction: nat)
    ensures 1000 * StepClocks(fraction) + NextFraction(fraction) == fraction + PIT_HZ
    ensures fraction < 1000 ==> 1193 <= StepClocks(fraction) <= MIN_COUNT0
  {
    var x := fraction + PIT_HZ % 1000;
    assert x == 1000 * (x / 1000) + x % 1000;
  }

  lemma {:induction false} ClocksCarried(f: nat, n: nat)
    ensures 1000 * Clocks(f, n) + FractionAfter(f, n) == f + n * PIT_HZ
    decreases n
  {
    if n > 0 {
      ClocksCarried(f, n - 1);
      StepIs(FractionAfter(f, n - 1));
    }
  }

  /** No clock is lost or gained: after `n` ticks there were exactly n * 1193.182 of them, rounded
      down, and whatever fraction there was at the start counts. */
  lemma ExactClocks(f: nat, n: nat)
    requires f < 1000
    ensures Clocks(f, n) == (f + n * PIT_HZ) / 1000
    ensures f == 0 ==> Clocks(f, n) == n * PIT_HZ / 1000
  {
    ClocksCarried(f, n);
    QuotientIs(f + n * PIT_HZ, 1000, Clocks(f, n), FractionAfter(f, n));
  }

  // ----- a counter -----

  /** `x` less as many whole periods as it holds, and how many those are. */
  function Wrap(x: nat, d: nat): (r: nat)
    requires d > 0
    ensures r < d
  {
    if x < d then x else Wrap(x - d, d)
  }

  function Laps(x: nat, d: nat): nat
    requires d > 0
  {
    if x < d then 0 else 1 + Laps(x - d, d)
  }

  /** They are the remainder and the quotient. */
  lemma {:induction false} WrapIsRemainder(x: nat, d: nat)
    requires d > 0
    ensures Wrap(x, d) == x % d && Laps(x, d) == x / d
  {
    if x < d {
      QuotientIs(x, d, 0, x);
    } else {
      WrapIsRemainder(x - d, d);
      var q, r := (x - d) / d, (x - d) % d;
      assert x - d == q * d + r && (q + 1) * d == q * d + d;
      QuotientIs(x, d, q + 1, r);
    }
  }

  /** Going on from a wrapped position. */
  lemma {:induction false} WrapOn(x: nat, d: nat, step: nat)
    requires d > 0
    ensures Wrap(x + step, d) == Wrap(Wrap(x, d) + step, d)
    decreases x
  {
    if x >= d { WrapOn(x - d, d, step); }
  }

  lemma {:induction false} LapsOn(x: nat, d: nat, step: nat)
    requires d > 0 && step <= d
    ensures Laps(x + step, d) == Laps(x, d) + (if Wrap(x, d) + step >= d then 1 else 0)
    decreases x
  {
    if x >= d { LapsOn(x - d, d, step); }
  }

  // ----- a counter over any number of ticks -----

  /** The phase of a counter after `n` ticks, and how often it has come round in them, as the
      ticks see it: at most once in each. */
  function PhaseAfter(p: nat, d: nat, f: nat, n: nat): nat
    requires d > 0
  {
    if n == 0 then p else Wrap(PhaseAfter(p, d, f, n - 1) + StepClocks(FractionAfter(f, n - 1)), d)
  }

  function Edges(p: nat, d: nat, f: nat, n: nat): nat
    requires d > 0
  {
    if n == 0 then 0
    else
      Edges(p, d, f, n - 1) + (if PhaseAfter(p, d, f, n - 1) + StepClocks(FractionAfter(f, n - 1)) >= d then 1 else 0)
  }

  lemma TickParts(p: nat, d: nat, f: nat, n: nat) returns (step: nat)
    requires d > 0 && n > 0
    ensures PhaseAfter(p, d, f, n) == Wrap(PhaseAfter(p, d, f, n - 1) + step, d)
    ensures Clocks(f, n) == Clocks(f, n - 1) + step
    ensures step == StepClocks(FractionAfter(f, n - 1)) && (f < 1000 ==> step <= MIN_COUNT0)
    ensures Edges(p, d, f, n) == Edges(p, d, f, n - 1) + (if PhaseAfter(p, d, f, n - 1) + step >= d then 1 else 0)
  {
    step := StepClocks(FractionAfter(f, n - 1));
    StepIs(FractionAfter(f, n - 1));
  }

  lemma WrapStep(before: nat, total: nat, step: nat, d: nat, at: nat)
    requires d > 0 && before == Wrap(total, d) && at == total + step
    ensures Wrap(before + step, d) == Wrap(at, d)
    ensures step <= d ==> Laps(at, d) == Laps(total, d) + (if before + step >= d then 1 else 0)
  {
    WrapOn(total, d, step);
    if step <= d { LapsOn(total, d, step); }
  }

  lemma {:induction false} PhaseWraps(p: nat, d: nat, f: nat, n: nat, at: nat)
    requires p < d && at == p + Clocks(f, n)
    ensures PhaseAfter(p, d, f, n) == Wrap(at, d)
    decreases n
  {
    if n > 0 {
      var step := TickParts(p, d, f, n);
      var before, total := PhaseAfter(p, d, f, n - 1), p + Clocks(f, n - 1);
      PhaseWraps(p, d, f, n - 1, total);
      WrapStep(before, total, step, d, at);
    }
  }

  /** Every counter's phase is where all clocks so far put it, and inside its period. */
  lemma PhaseIs(p: nat, d: nat, f: nat, n: nat)
    requires p < d
    ensures PhaseAfter(p, d, f, n) == (p + Clocks(f, n)) % d < d
  {
    PhaseWraps(p, d, f, n, p + Clocks(f, n));
    WrapIsRemainder(p + Clocks(f, n), d);
  }

  lemma {:induction false} EdgesAreLaps(p: nat, d: nat, f: nat, n: nat, at: nat)
    requires p < d && d >= MIN_COUNT0 && f < 1000 && at == p + Clocks(f, n)
    ensures Edges(p, d, f, n) == Laps(at, d)
    decreases n
  {
    if n > 0 {
      var step := TickParts(p, d, f, n);
      var before, total := PhaseAfter(p, d, f, n - 1), p + Clocks(f, n - 1);
      EdgesAreLaps(p, d, f, n - 1, total);
      PhaseWraps(p, d, f, n - 1, total);
      WrapStep(before, total, step, d, at);
    }
  }

  /** Channel 0 raises its edge once for every period that has passed, never missing one, because
      no tick is longer than its shortest period. */
  lemma EdgesCounted(p: nat, d: nat, f: nat, n: nat)
    requires p < d && d >= MIN_COUNT0 && f < 1000
    ensures Edges(p, d, f, n) == (p + Clocks(f, n)) / d
  {
    EdgesAreLaps(p, d, f, n, p + Clocks(f, n));
    WrapIsRemainder(p + Clocks(f, n), d);
  }

  /** With one clock less in the period a tick can span two of them and raise one edge for both. */
  lemma SmallerCountMisses()
    ensures Edges(1192, MIN_COUNT0 - 1, 999, 1) == 1
    ensures (1192 + Clocks(999, 1)) / (MIN_COUNT0 - 1) == 2
  {
    assert FractionAfter(999, 0) == 999 && StepClocks(999) == 1194;
    assert Clocks(999, 1) == Clocks(999, 0) + 1194;
    assert PhaseAfter(1192, MIN_COUNT0 - 1, 999, 0) == 1192;
    assert Edges(1192, MIN_COUNT0 - 1, 999, 1) == Edges(1192, MIN_COUNT0 - 1, 999, 0) + 1;
  }

  // ----- the chip and its ports -----

  class Timer {
    const phase: array<nat>
    const divisor: array<nat>
    var fraction: nat
    var pending: bool
    var inService: bool
    var masked: bool
    const access: array<nat>
    const writePhase: array<bool>
    const readPhase: array<bool>
    const latchPending: array<bool>
    const lowByte: array<byte>
    const latched: array<nat>

    ghost function Footprint(): set<object>
    {
      {this, phase, divisor, access, writePhase, readPhase, latchPending, lowByte, latched}
    }

    ghost predicate Valid()
      reads Footprint()
    {
      && phase != divisor && phase != access && phase != latched
      && divisor != access && divisor != latched && access != latched
      && writePhase != readPhase && writePhase != latchPending && readPhase != latchPending
      && phase.Length == divisor.Length == access.Length == writePhase.Length == readPhase.Length == 3
      && latchPending.Length == lowByte.Length == latched.Length == 3
      && fraction < 1000 && (forall i | 0 <= i < 3 :: phase[i] < divisor[i] <= MAX_COUNT) && divisor[0] >= MIN_COUNT0
      && (forall i | 0 <= i < 3 :: 1 <= access[i] <= 3 && latched[i] < MAX_COUNT)
    }

    constructor ()
      ensures Valid() && fresh(Footprint() - {this})
      ensures fraction == 0 && !pending && forall i | 0 <= i < 3 :: phase[i] == 0 && divisor[i] == MAX_COUNT
    {
      phase := new nat[3](_ => 0);
      divisor := new nat[3](_ => MAX_COUNT);
      fraction, pending, inService, masked := 0, false, false, false;
      access := new nat[3](_ => 3);
      writePhase := new bool[3](_ => false);
      readPhase := new bool[3](_ => false);
      latchPending := new bool[3](_ => false);
      lowByte := new byte[3](_ => 0);
      latched := new nat[3](_ => 0);
    }

    method Tick()
      requires Valid()
      modifies this`fraction, this`pending, phase
      ensures Valid() && fraction == NextFraction(old(fraction))
      ensures forall k | 0 <= k < 3 :: phase[k] == Wrap(old(phase[k]) + StepClocks(old(fraction)), divisor[k])
      ensures pending == (old(pending) || old(phase[0]) + StepClocks(old(fraction)) >= divisor[0])
    {
      fraction := fraction + PIT_HZ % 1000;
      var step := PIT_HZ / 1000 + fraction / 1000;
      fraction := fraction % 1000;
      var i := 0;
      while i < 3
        invariant 0 <= i <= 3 && fraction == NextFraction(old(fraction))
        invariant pending == (old(pending) || (i > 0 && old(phase[0]) + step >= divisor[0]))
        invariant forall k | 0 <= k < i :: phase[k] == Wrap(old(phase[k]) + step, divisor[k])
        invariant forall k | i <= k < 3 :: phase[k] == old(phase[k])
      {
        var over := Advance(i, step);
        if over && i == 0 { pending := true; }
        i := i + 1;
      }
    }

    /** Moves one counter on; the remainder is taken only where the period is over. */
    method Advance(i: nat, step: nat) returns (over: bool)
      requires i < 3 && phase.Length == divisor.Length == 3 && phase != divisor && divisor[i] > 0
      modifies phase
      ensures phase[i] == Wrap(old(phase[i]) + step, divisor[i]) && over == (old(phase[i]) + step >= divisor[i])
      ensures forall k | 0 <= k < 3 && k != i :: phase[k] == old(phase[k])
    {
      WrapIsRemainder(phase[i] + step, divisor[i]);
      phase[i] := phase[i] + step;
      over := phase[i] >= divisor[i];
      if over { phase[i] := phase[i] % divisor[i]; }
    }

    /** Hands the edge to the guest once, unless it is masked or one is being served. */
    method TakeTimer() returns (taken: bool)
      requires Valid()
      modifies this`pending, this`inService
      ensures Valid() && taken == (old(pending) && !old(inService) && !masked)
      ensures pending == (old(pending) && !taken) && inService == (old(inService) || taken)
    {
      if !pending || inService || masked { return false; }
      pending := false;
      inService := true;
      return true;
    }

    method Eoi()
      requires Valid()
      modifies this`inService
      ensures Valid() && !inService
    {
      inService := false;
    }

    /** The count a program reads: what is left of the period, 65536 being read as 0. */
    ghost function CountNow(channel: nat): nat
      requires Valid() && channel < 3
      reads Footprint()
    {
      (divisor[channel] - phase[channel]) % MAX_COUNT
    }

    method Capture(channel: nat)
      requires Valid() && channel < 3
      modifies latched
      ensures Valid() && latched[..] == old(latched[..])[channel := old(CountNow(channel))]
    {
      latched[channel] := (divisor[channel] - phase[channel]) % MAX_COUNT;
    }

    /** The latch command: the count is held until it has been read. */
    method Latch(channel: nat)
      requires Valid() && channel < 3
      modifies latched, latchPending, readPhase
      ensures Valid()
      ensures latched[..] ==
        if old(latchPending[channel]) then old(latched[..]) else old(latched[..])[channel := old(CountNow(channel))]
      ensures latchPending[..] == old(latchPending[..])[channel := true]
      ensures readPhase[..] == old(readPhase[..])[channel := false]
    {
      if !latchPending[channel] { Capture(channel); }
      latchPending[channel] := true;
      readPhase[channel] := false;
    }

    /** One read of a counter's port. */
    method Read(channel: nat) returns (value: byte)
      requires Valid() && channel < 3
      modifies latched, latchPending, readPhase
      ensures Valid()
      ensures latched[..] == if old(latchPending[channel]) || old(readPhase[channel]) then old(latched[..])
                             else old(latched[..])[channel := old(CountNow(channel))]
      ensures value == if access[channel] == 2 || old(readPhase[channel]) then latched[channel] / 256
                       else latched[channel] % 256
      ensures readPhase[..] == if access[channel] == 3 then old(readPhase[..])[channel := !old(readPhase[channel])]
                               else old(readPhase[..])
      ensures latchPending[..] == if access[channel] == 3 && readPhase[channel] then old(latchPending[..])
                                  else old(latchPending[..])[channel := false]
    {
      if !latchPending[channel] && !readPhase[channel] { Capture(channel); }
      value := if access[channel] == 2 || readPhase[channel] then latched[channel] / 256 else latched[channel] % 256;
      if access[channel] == 3 { readPhase[channel] := !readPhase[channel]; }
      if access[channel] != 3 || !readPhase[channel] { latchPending[channel] := false; }
    }

    /** The access mode command for counters 0 and 2; modes but 2 and 3 are refused. */
    method SetAccess(channel: nat, rw: nat, mode: nat) returns (ok: bool)
      requires Valid() && channel < 3 && 1 <= rw <= 3 && mode < 8
      modifies access, writePhase, readPhase, latchPending
      ensures Valid() && ok == (mode in {2, 3, 6, 7})
      ensures access[..] == if ok then old(access[..])[channel := rw] else old(access[..])
      ensures writePhase[..] == if ok then old(writePhase[..])[channel := false] else old(writePhase[..])
      ensures readPhase[..] == if ok then old(readPhase[..])[channel := false] else old(readPhase[..])
      ensures latchPending[..] == if ok then old(latchPending[..])[channel := false] else old(latchPending[..])
    {
      var newMode := if mode > 5 then mode - 4 else mode;
      if newMode != 2 && newMode != 3 { return false; }
      access[channel] := rw;
      writePhase[channel] := false;
      readPhase[channel] := false;
      latchPending[channel] := false;
      return true;
    }

    /** Two bytes are still to come: this one is the lower. */
    ghost predicate FirstHalf(channel: nat)
      requires Valid() && channel < 3
      reads Footprint()
    {
      access[channel] == 3 && !writePhase[channel]
    }

    /** The count that `value` completes, 0 standing for 65536. */
    function Count(channel: nat, value: byte): nat
      requires access.Length == lowByte.Length == 3 && channel < 3
      reads access, lowByte
    {
      var count: int := if access[channel] == 1 then value else if access[channel] == 2 then value * 256
                        else lowByte[channel] + value * 256;
      if count == 0 then MAX_COUNT else count
    }

    /** One write to a counter's port: a new count starts the period over. Channel 0 refuses counts
        the host tick cannot serve, and then still waits for the upper half. */
    method Write(channel: nat, value: byte) returns (ok: bool)
      requires Valid() && channel < 3
      modifies phase, divisor, writePhase, lowByte
      ensures Valid()
      ensures ok == (old(FirstHalf(channel)) || channel != 0 || old(Count(channel, value)) >= MIN_COUNT0)
      ensures old(FirstHalf(channel)) ==>
        && lowByte[..] == old(lowByte[..])[channel := value] && writePhase[..] == old(writePhase[..])[channel := true]
        && phase[..] == old(phase[..]) && divisor[..] == old(divisor[..])
      ensures !old(FirstHalf(channel)) ==>
        && lowByte[..] == old(lowByte[..])
        && writePhase[..] == (if ok then old(writePhase[..])[channel := false] else old(writePhase[..]))
        && phase[..] == (if ok then old(phase[..])[channel := 0] else old(phase[..]))
        && divisor[..] == if ok then old(divisor[..])[channel := old(Count(channel, value))] else old(divisor[..])
    {
      if access[channel] == 3 && !writePhase[channel] {
        lowByte[channel] := value;
        writePhase[channel] := true;
        return true;
      }
      var count := Count(channel, value);
      if channel == 0 && count < MIN_COUNT0 { return false; }
      divisor[channel] := count;
      phase[channel] := 0;
      writePhase[channel] := false;
      return true;
    }
  }

  method RunTicks(t: Timer, n: nat)
    requires t.Valid()
    modifies t`fraction, t`pending, t.phase
    ensures t.Valid() && t.fraction == FractionAfter(old(t.fraction), n)
    ensures forall k | 0 <= k < 3 :: t.phase[k] == PhaseAfter(old(t.phase[k]), t.divisor[k], old(t.fraction), n)
    ensures t.pending == (old(t.pending) || Edges(old(t.phase[0]), t.divisor[0], old(t.fraction), n) > 0)
  {
    var i := 0;
    while i < n
      invariant 0 <= i <= n && t.Valid() && t.fraction == FractionAfter(old(t.fraction), i)
      invariant forall k | 0 <= k < 3 :: t.phase[k] == PhaseAfter(old(t.phase[k]), t.divisor[k], old(t.fraction), i)
      invariant t.pending == (old(t.pending) || Edges(old(t.phase[0]), t.divisor[0], old(t.fraction), i) > 0)
    {
      t.Tick();
      i := i + 1;
    }
  }

  method Wait(t: Timer, n: nat)
    requires t.Valid()
    modifies t`fraction, t`pending, t.phase
    ensures t.Valid()
  {
    RunTicks(t, n);
  }

  /** A program that latches a counter and reads it in two halves gets the count of the moment it
      was latched, however many ticks pass in between. */
  method LatchedRead(t: Timer, channel: nat, before: nat, between: nat) returns (count: nat)
    requires t.Valid() && channel < 3 && t.access[channel] == 3 && !t.latchPending[channel]
    modifies t.Footprint()
    ensures t.Valid() && count == old(t.CountNow(channel))
  {
    t.Latch(channel);
    Wait(t, before);
    var low := t.Read(channel);
    Wait(t, between);
    var high := t.Read(channel);
    count := low as int + 256 * (high as int);
  }

  /** A counter counts down: programmed with `v` in two halves, it reads after `n` ticks as what is
      left of the period that the clocks so far have come to, 0 standing for 65536 both ways. Of
      channel 0, periods a tick could span are refused. */
  method SetWaitRead(t: Timer, channel: nat, v: nat, n: nat) returns (ok: bool, count: nat)
    requires t.Valid() && channel < 3 && t.access[channel] == 3 && v < 65536
    requires !t.writePhase[channel] && !t.latchPending[channel]
    modifies t.Footprint()
    ensures t.Valid() && (ok <==> channel != 0 || v == 0 || v >= 1194)
    ensures ok ==>
      var period := if v == 0 then 65536 else v;
      count == (period - (old(t.fraction) + n * 1193182) / 1000 % period) % 65536
  {
    ghost var f := t.fraction;
    count := 0;
    ok := t.Write(channel, v % 256);
    ok := t.Write(channel, v / 256);
    if ok {
      ghost var period := if v == 0 then 65536 else v;
      RunTicks(t, n);
      PhaseIs(0, period, f, n);
      ExactClocks(f, n);
      count := LatchedRead(t, channel, 0, 0);
    }
  }

  /** In one half: the lower alone is the count itself, the upper alone counts for 256 times as much. */
  method SetHalf(t: Timer, channel: nat, value: byte) returns (ok: bool)
    requires t.Valid() && channel < 3 && t.access[channel] != 3
    modifies t.Footprint()
    ensures t.Valid()
    ensures ok ==> t.phase[channel] == 0
    ensures ok ==>
      t.divisor[channel] == (if value == 0 then 65536 else if t.access[channel] == 1 then value else 256 * value)
    ensures ok <==> channel != 0 || value == 0 || (t.access[channel] == 2 && value >= 5)
  {
    ok := t.Write(channel, value);
  }
}
