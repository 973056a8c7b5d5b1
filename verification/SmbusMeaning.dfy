/** What a sample of the battery asks and what is made of the answers: when a sample begins, the words
    asked for in their order with every port write on the way, and which answers are taken to
    belong together. */
module SmbusMeaning {
  import opened Bytes
  import opened Thermal
  import opened ThermalMeaning
  import opened Smbus

  /** Words that belong together: the mode is there and did not change while they were read, and the status
      is there, reports no error in its low four bits, and says that the battery is initialised. */
  lemma ConsistentIs(words: seq<nat>)
    requires |words| == 6
    ensures Consistent(words) <==>
      && words[0] != 65535 && words[5] == words[0] && words[4] != 65535
      && !Bit(words[4], 0) && !Bit(words[4], 1) && !Bit(words[4], 2) && !Bit(words[4], 3) && Bit(words[4], 7)
  {
    LowFour(words[4]);
    BitIs(words[4], 7);
    assert Pow2(3) == 8;
    assert Pow2(7) == 128;
  }

  lemma LowFour(n: nat)
    ensures n % 16 == 0 <==> !Bit(n, 0) && !Bit(n, 1) && !Bit(n, 2) && !Bit(n, 3)
  {
    var (h, a) := (n / 2, n % 2);
    var (g, b) := (h / 2, h % 2);
    var (f, c) := (g / 2, g % 2);
    assert Bit(n, 1) == Bit(h, 0) && Bit(n, 2) == Bit(h, 1) && Bit(n, 3) == Bit(h, 2);
    assert Bit(h, 1) == Bit(g, 0) && Bit(h, 2) == Bit(g, 1) && Bit(g, 1) == Bit(f, 0);
    QuotientIs(n, 16, f / 2, 8 * (f % 2) + 4 * c + 2 * b + a);
  }

  /** When a sample begins: a controller is known and not given up, it is time (or the first time), the
      bus is free, neither interrupts nor error checking are on, and the monitor is not using it. */
  lemma BeginsIff(b: Bus, now: u32, a: Answer)
    requires BusOk(b) && b.reader.place.Idle? && !b.reader.active
    ensures Polled(b, now, a).reader.active <==>
      && b.reader.base != 0 && !b.reader.disabled
      && (b.reader.status == Waiting || (now - b.reader.deadline) % 0x1_0000_0000 < 0x8000_0000)
      && !Bit(a.status, 0) && !Bit(a.control, 0) && a.control < 128
      && !b.borrowed && !(b.monitor.active && b.monitor.base == b.reader.base)
  {
    var c := Enter(b, now, a).0;
    BitIs(a.status, 0);
    BitIs(a.control, 0);
    Wrapped(now, b.reader.deadline);
    ReaderKeeps(b, ReaderStep(now, a));
    if c.reader.active { EntersIdle(b, now, a); }
  }

  lemma Wrapped(a: u32, b: u32)
    ensures (a - b) % 0x1_0000_0000 == Sub32(a, b)
  {
  }

  lemma EntersIdle(b: Bus, now: u32, a: Answer)
    requires BusOk(b) && b.reader.place.Idle? && !b.reader.active
    ensures Enter(b, now, a).0.reader.place.Idle? && BusOk(Enter(b, now, a).0)
    ensures Polled(b, now, a) == Enter(b, now, a).0 && PollWrites(b, now, a) == Enter(b, now, a).1 + []
  {
    ReaderKeeps(b, ReaderStep(now, a));
  }

  // ----- a sample, poll by poll -----

  /** The time of a poll and what the hardware answers it. */
  datatype Seen = Seen(now: u32, answer: Answer)

  /** A sample: the first poll begins it and all further ones find it under way; what interrupts do to the
      monitor between them does not matter. */
  ghost predicate IsSample(buses: seq<Bus>, polls: seq<Seen>) {
    && |buses| == |polls| + 1 && |polls| > 0
    && (forall i | 0 <= i < |buses| :: BusOk(buses[i]) && buses[i].reader.place.Idle?)
    && !buses[0].reader.active && (forall i | 0 < i < |polls| :: buses[i].reader.active)
    && (forall i | 0 <= i < |polls| :: PolledAt(buses, polls, i))
  }

  ghost predicate PolledAt(buses: seq<Bus>, polls: seq<Seen>, i: nat)
    requires i < |polls| && |buses| == |polls| + 1
  {
    BusOk(buses[i]) && buses[i].reader.place.Idle?
    && buses[i + 1].reader == Polled(buses[i], polls[i].now, polls[i].answer).reader
  }

  /** Everything the reader has written in the first `n` polls. */
  ghost function Written(buses: seq<Bus>, polls: seq<Seen>, n: nat): seq<Write>
    requires IsSample(buses, polls) && n <= |polls|
  {
    if n == 0 then []
    else Written(buses, polls, n - 1) + PollWrites(buses[n - 1], polls[n - 1].now, polls[n - 1].answer)
  }

  /** Asking for the words up to number `stage`: the flags are cleared, then the word's command, the battery
      at address 0x0B to be read, and the start of a transfer. */
  function Session(base: nat, stage: nat): seq<Write>
    requires stage < 6
  {
    (if stage == 0 then [] else Session(base, stage - 1))
    + [Write(base, 0, 0x1E), Write(base, 3, [0x03, 0x0D, 0x10, 0x18, 0x16, 0x03][stage]),
       Write(base, 4, 2 * 0x0B + 1), Write(base, 2, 0x4C)]
  }

  lemma AskedIs(base: nat, stage: nat)
    requires stage < 6
    ensures [Clearing(base)] + Asked(base, stage, 0) ==
      [Write(base, 0, 0x1E), Write(base, 3, [0x03, 0x0D, 0x10, 0x18, 0x16, 0x03][stage]),
       Write(base, 4, 0x17), Write(base, 2, 0x4C)]
  {
    assert Asked(base, stage, 3) == [];
    assert Asked(base, stage, 2) == [Asking(base, stage, 2)] + [];
    assert Asked(base, stage, 1) == [Asking(base, stage, 1)] + [Asking(base, stage, 2)];
  }

  /** Word `j` was answered in the first `n` polls, when it was asked for. */
  ghost predicate WordAnswered(buses: seq<Bus>, polls: seq<Seen>, n: nat, j: nat, w: nat)
    requires n <= |polls| && |buses| == |polls| + 1
  {
    exists k | 0 <= k < n ::
      buses[k].reader.active && buses[k].reader.stage == j && GoodAnswer(polls[k]) && polls[k].answer.word == w
  }

  predicate GoodAnswer(s: Seen) {
    !Busy(s.answer.status) && !Bad(s.answer.status)
  }

  /** Where a sample stands after `n` polls: just its words so far have been asked for, and those before the
      last one are the answers. */
  ghost predicate Stands(buses: seq<Bus>, polls: seq<Seen>, n: nat)
    requires IsSample(buses, polls) && n <= |polls|
  {
    var r := buses[n].reader;
    r.active ==>
      && r.stage < 6 && r.base == buses[0].reader.base && |r.words| == 6
      && Written(buses, polls, n) == Session(r.base, r.stage)
      && forall j | 0 <= j < r.stage :: WordAnswered(buses, polls, n, j, r.words[j])
  }

  lemma MoreAnswered(buses: seq<Bus>, polls: seq<Seen>, n: nat, j: nat, w: nat)
    requires n < |polls| && |buses| == |polls| + 1 && WordAnswered(buses, polls, n, j, w)
    ensures WordAnswered(buses, polls, n + 1, j, w)
  {
    var k :| 0 <= k < n
      && buses[k].reader.active && buses[k].reader.stage == j && GoodAnswer(polls[k]) && polls[k].answer.word == w;
  }

  /** How a poll of a sample under way goes on: it waits, it ends the sample with an error, it asks for the next
      word, or it has the last one. */
  lemma PollOn(b: Bus, s: Seen)
    requires BusOk(b) && b.reader.place.Idle? && b.reader.active
    ensures var (r, n, w) := (b.reader, Polled(b, s.now, s.answer).reader, PollWrites(b, s.now, s.answer));
      && (n.active && n.stage == r.stage ==> n == r && w == [])
      && (n.active && n.stage != r.stage ==>
            && n.stage == r.stage + 1 < 6 && GoodAnswer(s) && n.words == r.words[r.stage := s.answer.word]
            && w == [Clearing(r.base)] + Asked(r.base, n.stage, 0) && n.base == r.base)
      && (!n.active && n.status == Good ==>
            && r.stage == 5 && GoodAnswer(s) && n.words == r.words[5 := s.answer.word]
            && w == [Clearing(r.base)] && Consistent(n.words))
      && (!n.active && n.status == ReadError ==>
            Busy(s.answer.status) || Bad(s.answer.status) || (|n.words| == 6 && !Consistent(n.words)))
  {
    ReaderKeeps(b, ReaderStep(s.now, s.answer));
    var c := Enter(b, s.now, s.answer).0;
    PollGoes(c, s.now, s.answer);
    assert [] + SettleWrites(c, s.now, s.answer) == SettleWrites(c, s.now, s.answer);
    assert [Clearing(b.reader.base)] + [] == [Clearing(b.reader.base)];
  }

  lemma SessionNext(base: nat, stage: nat)
    requires 0 < stage < 6
    ensures Session(base, stage) == Session(base, stage - 1) + ([Clearing(base)] + Asked(base, stage, 0))
  {
    AskedIs(base, stage);
  }

  lemma StandsFirst(buses: seq<Bus>, polls: seq<Seen>)
    requires IsSample(buses, polls)
    ensures Stands(buses, polls, 1)
  {
    assert PolledAt(buses, polls, 0);
    var (b, s) := (buses[0], polls[0]);
    EntersIdle(b, s.now, s.answer);
    AskedIs(b.reader.base, 0);
    assert Written(buses, polls, 0) == [];
    var w := Enter(b, s.now, s.answer).1;
    assert [] + (w + []) == w;
  }

  lemma StandsNext(buses: seq<Bus>, polls: seq<Seen>, n: nat)
    requires IsSample(buses, polls) && 0 < n < |polls| && Stands(buses, polls, n)
    ensures Stands(buses, polls, n + 1)
  {
    var (r, s, m) := (buses[n].reader, polls[n], buses[n + 1].reader);
    assert PolledAt(buses, polls, n);
    PollOn(buses[n], s);
    if m.active {
      if m.stage == r.stage {
        assert Written(buses, polls, n) + [] == Written(buses, polls, n);
      } else {
        SessionNext(r.base, m.stage);
        assert WordAnswered(buses, polls, n + 1, r.stage, m.words[r.stage]);
      }
      forall j | 0 <= j < m.stage
        ensures WordAnswered(buses, polls, n + 1, j, m.words[j])
      {
        if j < r.stage { MoreAnswered(buses, polls, n, j, r.words[j]); }
      }
    }
  }

  lemma {:induction false} SampleStands(buses: seq<Bus>, polls: seq<Seen>, n: nat)
    requires IsSample(buses, polls) && 0 < n <= |polls|
    ensures Stands(buses, polls, n)
  {
    if n == 1 {
      StandsFirst(buses, polls);
    } else {
      SampleStands(buses, polls, n - 1);
      StandsNext(buses, polls, n - 1);
    }
  }

  /** A sample that ends well has asked for all six words in order and written nothing else, each word is
      the answer given to it, and they belong together. */
  lemma SampleIsGood(buses: seq<Bus>, polls: seq<Seen>)
    requires IsSample(buses, polls) && |polls| > 1
    requires var last := buses[|polls|].reader; !last.active && last.status == Good
    ensures var (r, n) := (buses[|polls|].reader, |polls|);
      && Written(buses, polls, n) == Session(buses[0].reader.base, 5) + [Write(buses[0].reader.base, 0, 0x1E)]
      && |r.words| == 6 && Consistent(r.words) && forall j | 0 <= j < 6 :: WordAnswered(buses, polls, n, j, r.words[j])
  {
    var n := |polls| - 1;
    var (r, s, m) := (buses[n].reader, polls[n], buses[n + 1].reader);
    SampleStands(buses, polls, n);
    assert PolledAt(buses, polls, n);
    PollOn(buses[n], s);
    assert WordAnswered(buses, polls, n + 1, 5, m.words[5]);
    forall j | 0 <= j < 6
      ensures WordAnswered(buses, polls, n + 1, j, m.words[j])
    {
      if j < 5 { MoreAnswered(buses, polls, n, j, r.words[j]); }
    }
  }
}
