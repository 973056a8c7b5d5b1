/** Refilling the sound buffers (kernel/pcm.c). Four buffers of 480 frames lie one after the other;
    frames are numbered as the mixer produces them, and a place in the buffers holds the number of
    the frame last rendered there. One kind of hardware plays the buffers round and round; the
    other goes through 32 descriptors, each over one of the four buffers, and stops at the last one
    published. What is proved is what is heard: whenever polls and playing alternate, the frames
    the mixer produced, each once and in order. */
module Pcm {

  const FRAMES: nat := 480
  const QUEUE: nat := 4
  /** Frames of all four buffers together. */
  const RING: nat := 1920
  const DESCRIPTORS: nat := 32

  // ----- the newest frames -----

  /** The newest of the first `n` frames whose place is `x`. */
  function Newest(n: nat, x: nat): int {
    if x < n % RING then n - n % RING + x else n - n % RING - RING + x
  }

  /** The last 1920 of the first `n` frames are in their places. */
  ghost predicate Holds(samples: seq<int>, n: nat) {
    |samples| == RING && forall x | 0 <= x < RING :: samples[x] == Newest(n, x)
  }

  lemma NewestIs(n: nat, k: nat)
    requires n - RING <= k < n
    ensures Newest(n, k % RING) == k
  {
    var q := n / RING;
    if k >= q * RING { Remainder(k, q, k - q * RING); } else { Remainder(k, q - 1, k - (q - 1) * RING); }
  }

  lemma Remainder(k: nat, q: int, r: nat)
    requires k == q * RING + r && r < RING
    ensures k % RING == r && k / RING == q
  {
  }

  /** After `count` frames more, up to the end of the ring at most, just their places have changed. */
  lemma NewestOn(n: nat, at: nat, count: nat, x: nat)
    requires at == n % RING && at + count <= RING && x < RING
    ensures Newest(n + count, x) == if at <= x < at + count then n + x - at else Newest(n, x)
  {
    var q := n / RING;
    if at + count < RING {
      Remainder(n + count, q, at + count);
    } else {
      Remainder(n + count, q + 1, 0);
    }
  }

  /** Whatever is still to be played of the frames produced is where it is looked for. */
  lemma UnplayedIsThere(samples: seq<int>, n: nat, k: nat)
    requires Holds(samples, n) && n - RING <= k < n
    ensures samples[k % RING] == k
  {
    NewestIs(n, k);
  }

  /** Two of at most 3840 consecutive frames share a place only a whole ring apart. */
  lemma SamePlaceIff(p: nat, k: nat)
    requires k < p < k + 2 * RING
    ensures p % RING == k % RING <==> p == k + RING
  {
    var (q, r, e) := (k / RING, k % RING, p - k);
    if r + e < RING {
      Remainder(p, q, r + e);
    } else if r + e < 2 * RING {
      Remainder(p, q + 1, r + e - RING);
    } else {
      Remainder(p, q + 2, r + e - 2 * RING);
    }
  }

  /** A refill that renders the frames from `before` to `after` replaces just the oldest, those it has
      seen played: none that was there to be played and still is has its place written. */
  lemma RenderingSparesUnplayed(before: nat, after: nat, p: nat, k: nat)
    requires RING <= before <= p < after <= before + RING && before - RING <= k < before
    ensures p % RING == k % RING <==> k == p - RING
    ensures after - RING <= k ==> p % RING != k % RING
  {
    SamePlaceIff(p, k);
  }

  class Output {
    /** The four buffers. */
    const samples: array<int>
    /** Frames produced so far. */
    var produced: nat
    var cursor: nat
    var tail: nat
    var partial: nat
    /** Descriptors finished since the start. */
    ghost var turn: nat

    ghost predicate Fresh()
      reads this, samples
    {
      Holds(samples[..], produced) && produced >= RING
    }

    /** All four buffers are filled before the hardware is started. */
    constructor ()
      ensures Fresh() && produced == RING && fresh(samples)
      ensures HdaValid() && AcValid() && turn == 0 && partial == 0
    {
      samples := new int[RING];
      produced, cursor, partial, tail, turn := 0, 0, 0, QUEUE - 1, 0;
      new;
      for index := 0 to QUEUE
        invariant produced == index * FRAMES && cursor == partial == turn == 0 && tail == QUEUE - 1
        invariant fresh(samples) && samples.Length == RING
        invariant forall x | 0 <= x < produced :: samples[x] == x
      {
        Produce(index * FRAMES, FRAMES);
      }
    }

    /** The mixer's next frames, into consecutive places. */
    method Produce(at: nat, frames: nat)
      requires samples.Length == RING && at + frames <= RING
      modifies samples, this`produced
      ensures produced == old(produced) + frames
      ensures forall x | 0 <= x < RING ::
        samples[x] == if at <= x < at + frames then old(produced) + x - at else old(samples[x])
    {
      var i := 0;
      while i < frames
        invariant 0 <= i <= frames && produced == old(produced) + i
        invariant forall x | 0 <= x < RING ::
          samples[x] == if at <= x < at + i then old(produced) + x - at else old(samples[x])
      {
        samples[at + i] := produced;
        produced := produced + 1;
        i := i + 1;
      }
    }

    /** Renders `frames` frames for descriptor or buffer `index`, from `offset` on. */
    method Render(index: nat, offset: nat, frames: nat)
      requires Fresh() && offset + frames <= FRAMES
      requires produced % RING == index % QUEUE * FRAMES + offset
      modifies samples, this`produced
      ensures Fresh() && produced == old(produced) + frames
    {
      ghost var n, at := produced, index % QUEUE * FRAMES + offset;
      Produce(index % QUEUE * FRAMES + offset, frames);
      forall x | 0 <= x < RING
        ensures samples[..][x] == Newest(produced, x)
      {
        NewestOn(n, at, frames, x);
      }
    }

    // ----- HDA -----

    /** The cursor is the place of the next frame to be rendered, which is that of the oldest. */
    ghost predicate HdaValid()
      reads this, samples
    {
      Fresh() && cursor == produced % RING
    }

    /** How far the hardware is ahead of what has been refilled. */
    static function Distance(cursor: nat, current: nat): nat
      requires cursor < RING && current < RING
    {
      if current >= cursor then current - cursor else current + RING - cursor
    }

    /** Renders up to the end of a buffer, or to the hardware's position if that comes first. */
    method RenderPiece(current: nat) returns (count: nat)
      requires HdaValid() && current < RING && cursor != current
      modifies this`cursor, this`produced, samples
      ensures HdaValid() && 0 < count && produced == old(produced) + count
      ensures Distance(cursor, current) == Distance(old(cursor), current) - count
      ensures cursor == current || cursor % FRAMES == 0
      ensures old(cursor) % FRAMES == 0 && cursor != current ==> count == FRAMES
    {
      var offset := cursor % FRAMES;
      RingWraps(current + RING - cursor);
      var distance := (current + RING - cursor) % RING;
      var frames := FRAMES - offset;
      if frames > distance { frames := distance; }
      HdaTurn(cursor, frames, current);
      PlaceOn(produced, cursor, frames);
      Render(cursor / FRAMES, offset, frames);
      cursor := (cursor + frames) % RING;
      count := frames;
    }

    /** One poll: as many frames are rendered as the hardware's position is ahead, in no more than
        five pieces. */
    method PollHda(position: nat)
      requires HdaValid()
      modifies this`cursor, this`produced, samples
      ensures HdaValid() && cursor == position / 4 % RING
      ensures produced == old(produced) + Distance(old(cursor), position / 4 % RING)
    {
      PollTo(position / 4 % RING);
    }

    method PollTo(current: nat)
      requires HdaValid() && current < RING
      modifies this`cursor, this`produced, samples
      ensures HdaValid() && cursor == current
      ensures produced == old(produced) + Distance(old(cursor), current)
    {
      ghost var total := Distance(cursor, current);
      var n := 0;
      ghost var done := 0;
      while n <= QUEUE && cursor != current
        invariant 0 <= n <= QUEUE + 1 && HdaValid() && 0 <= done <= total
        invariant produced == old(produced) + done && Distance(cursor, current) == total - done
        invariant cursor == current || n == 0 || (cursor % FRAMES == 0 && total - done < RING - (n - 1) * FRAMES)
      {
        var count := RenderPiece(current);
        done := done + count;
        n := n + 1;
      }
    }

    /** A whole run: in every interleaving of playing and polls in which polls come in time, the
        hardware is heard to play the frames of the mixer, every one once and in order, and what
        has been rendered anew is just what the last poll has seen played. */
    method RunHda(events: seq<HdaEvent>) returns (heard: seq<int>)
      requires HdaValid() && produced == RING && InTime(events)
      modifies this`cursor, this`produced, samples
      ensures HdaValid() && produced == RING + Seen(events, |events|)
      ensures |heard| == Played(events, |events|) && forall k | 0 <= k < |heard| :: heard[k] == k
    {
      heard := [];
      for n := 0 to |events|
        invariant HdaValid() && produced == RING + Seen(events, n)
        invariant |heard| == Played(events, n) && Seen(events, n) <= |heard| < produced
        invariant forall k | 0 <= k < |heard| :: heard[k] == k
      {
        assert Possible(events, n);
        match events[n]
        case Plays =>
          UnplayedIsThere(samples[..], produced, |heard|);
          heard := heard + [samples[|heard| % RING]];
        case Polled(seen, odd) =>
          PositionOf(seen, odd);
          CaughtUpIff(produced - RING, seen);
          SamePlace(produced);
          PollHda(seen % RING * 4 + odd);
      }
    }

    // ----- AC'97 -----

    /** Four descriptors are valid at a time: the one playing and the three after it. What has been
        rendered are the four buffers, the descriptors finished and part of the current one. */
    ghost predicate AcValid()
      reads this, samples
    {
      && Fresh() && partial <= FRAMES && produced == RING + turn * FRAMES + partial
      && cursor == turn % DESCRIPTORS && tail == (turn + QUEUE - 1) % DESCRIPTORS
    }

    /** Renders what has been played of the current descriptor. */
    method FinishPart(consumed: nat)
      requires AcValid() && consumed <= FRAMES
      modifies this`partial, this`produced, samples
      ensures AcValid() && partial == if consumed > old(partial) then consumed else old(partial)
    {
      if consumed > partial {
        AcPlace(turn, cursor, partial, produced);
        Render(cursor, partial, consumed - partial);
        partial := consumed;
      }
    }

    /** Finishes the descriptor the hardware has left and publishes one more. */
    method FinishDescriptor()
      requires AcValid()
      modifies this, samples
      ensures AcValid() && turn == old(turn) + 1 && partial == 0
    {
      FinishPart(FRAMES);
      NextDescriptor();
    }

    method NextDescriptor()
      requires AcValid() && partial == FRAMES
      modifies this`cursor, this`partial, this`tail, this`turn
      ensures AcValid() && turn == old(turn) + 1 && partial == 0
    {
      DescriptorOn(turn);
      DescriptorOn(turn + QUEUE - 1);
      tail := (tail + 1) % DESCRIPTORS;
      cursor := (cursor + 1) % DESCRIPTORS;
      partial := 0;
      turn := turn + 1;
    }

    /** Goes on, descriptor by descriptor, to the one the hardware is in. */
    method CatchUp(current: nat)
      requires AcValid() && current < DESCRIPTORS
      modifies this, samples
      ensures AcValid() && turn == old(turn) + Ahead(old(cursor), current)
      ensures partial == if old(cursor) == current then old(partial) else 0
    {
      ghost var first := cursor;
      var n := 0;
      while n < DESCRIPTORS && cursor != current
        invariant 0 <= n && AcValid() && turn == old(turn) + n
        invariant Ahead(cursor, current) == Ahead(first, current) - n
        invariant partial == if n == 0 then old(partial) else 0
        invariant n == 0 ==> cursor == first
      {
        DescriptorOn(turn);
        AheadFalls(cursor, current);
        FinishDescriptor();
        n := n + 1;
      }
    }

    /** One refill: the descriptors the hardware has left are finished, and the current one as far as
        it has been played, never going back. */
    method RefillAc97(current: nat, remaining: nat)
      requires AcValid() && current < DESCRIPTORS
      modifies this, samples
      ensures AcValid() && turn == old(turn) + Ahead(old(cursor), current)
      ensures partial ==
        if old(cursor) == current && old(partial) > Consumed(remaining) then old(partial) else Consumed(remaining)
    {
      CatchUp(current);
      var consumed := if remaining <= 2 * FRAMES then (2 * FRAMES - remaining) / 2 else 0;
      FinishPart(consumed);
    }

    /** A whole run: in every interleaving of playing and polls, the hardware is heard to play the
        frames of the mixer, every one once and in order, and what has been rendered anew is just
        what the last poll has seen played. It cannot get too far ahead: it stops. */
    method RunAc97(events: seq<AcEvent>) returns (heard: seq<int>)
      requires AcValid() && turn == 0 && partial == 0 && Sensible(events)
      modifies this, samples
      ensures AcValid() && turn == AcAfter(events, |events|).seen && partial == AcAfter(events, |events|).done
      ensures |heard| == FramesOf(AcAfter(events, |events|)) && forall k | 0 <= k < |heard| :: heard[k] == k
    {
      heard := [];
      var playing, played := 0, 0;
      for n := 0 to |events|
        invariant AcValid() && AcAfter(events, n) == AcState(playing, played, turn, partial)
        invariant AcOk(AcAfter(events, n)) && |heard| == FramesOf(AcAfter(events, n))
        invariant forall k | 0 <= k < |heard| :: heard[k] == k
      {
        match events[n]
        case Goes =>
          if played < FRAMES {
            PlaceOf(playing, played, |heard|);
            UnplayedIsThere(samples[..], produced, |heard|);
            heard := heard + [samples[playing % DESCRIPTORS % QUEUE * FRAMES + played]];
            played := played + 1;
          } else {
            TailIs(turn, playing);
            if playing % DESCRIPTORS != tail { playing, played := playing + 1, 0; }
          }
        case Reads(seen, done, half) =>
          assert ReadsSensibly(events, n);
          AheadIs(turn, seen);
          // the registers: the descriptor, and how many samples of it are left
          RefillAc97(seen % DESCRIPTORS, 2 * (FRAMES - done) - half);
      }
    }
  }

  // ----- runs of the hardware -----

  /** A frame is played, or a poll reads the position register when `seen` frames had been. */
  datatype HdaEvent = Plays | Polled(seen: nat, odd: nat)

  /** Frames played in the first `n` events, and played as far as the last poll has seen. */
  function Played(events: seq<HdaEvent>, n: nat): nat
    requires n <= |events|
  {
    if n == 0 then 0 else Played(events, n - 1) + if events[n - 1].Plays? then 1 else 0
  }

  function Seen(events: seq<HdaEvent>, n: nat): nat
    requires n <= |events|
  {
    if n == 0 then 0 else if events[n - 1].Polled? then events[n - 1].seen else Seen(events, n - 1)
  }

  /** The hardware is never a whole ring ahead of what was seen, and a poll sees where it was at
      some time since the last one. */
  predicate Possible(events: seq<HdaEvent>, n: nat)
    requires n < |events|
  {
    match events[n]
    case Plays => Played(events, n) + 1 < Seen(events, n) + RING
    case Polled(seen, odd) => Seen(events, n) <= seen <= Played(events, n) && odd < 4
  }

  ghost predicate InTime(events: seq<HdaEvent>) {
    forall n | 0 <= n < |events| :: Possible(events, n)
  }

  /** The hardware goes on by a frame, or to the next descriptor, or waits; or a poll reads that it
      was in descriptor `seen` with `done` frames of it played. */
  datatype AcEvent = Goes | Reads(seen: nat, done: nat, half: nat)

  /** Where the hardware is, and what the last poll has seen. */
  datatype AcState = AcState(playing: nat, played: nat, seen: nat, done: nat)

  function AcAfter(events: seq<AcEvent>, n: nat): AcState
    requires n <= |events|
  {
    if n == 0 then AcState(0, 0, 0, 0)
    else
      var s := AcAfter(events, n - 1);
      match events[n - 1]
      case Goes =>
        if s.played < FRAMES then s.(played := s.played + 1)
        else if s.playing < s.seen + QUEUE - 1 then s.(playing := s.playing + 1, played := 0)
        else s
      case Reads(seen, done, _) => s.(seen := seen, done := done)
  }

  function FramesOf(s: AcState): nat {
    s.playing * FRAMES + s.played
  }

  predicate AcOk(s: AcState) {
    && s.played <= FRAMES && Since(s.seen, s.done, s.playing, s.played) && s.playing <= s.seen + QUEUE - 1
  }

  /** A poll sees where the hardware was at some time since the last one. */
  predicate ReadsSensibly(events: seq<AcEvent>, n: nat)
    requires n < |events|
  {
    match events[n]
    case Goes => true
    case Reads(seen, done, half) =>
      var s := AcAfter(events, n);
      && Since(s.seen, s.done, seen, done) && Since(seen, done, s.playing, s.played)
      && done <= FRAMES && half <= 1 && half <= FRAMES - done
  }

  ghost predicate Sensible(events: seq<AcEvent>) {
    forall n | 0 <= n < |events| :: ReadsSensibly(events, n)
  }

  // ----- positions -----

  lemma RingWraps(n: nat)
    requires n < 2 * RING
    ensures n % RING == if n < RING then n else n - RING
  {
  }

  lemma PlaceOn(n: nat, at: nat, count: nat)
    requires at == n % RING && count <= RING
    ensures (n + count) % RING == (at + count) % RING
  {
    var q := n / RING;
    if at + count < RING {
      Remainder(n + count, q, at + count);
    } else if at + count < 2 * RING {
      Remainder(n + count, q + 1, at + count - RING);
      Remainder(at + count, 1, at + count - RING);
    }
  }

  lemma BufferOf(cursor: nat)
    requires cursor < RING
    ensures cursor / FRAMES < QUEUE && cursor / FRAMES % QUEUE * FRAMES + cursor % FRAMES == cursor
  {
  }

  lemma BufferEnd(cursor: nat, next: nat)
    requires cursor < RING && next == cursor + FRAMES - cursor % FRAMES
    ensures next <= RING && next % FRAMES == 0
  {
    assert next == (cursor / FRAMES + 1) * FRAMES;
  }

  lemma HdaTurn(cursor: nat, count: nat, current: nat)
    requires cursor < RING && current < RING && cursor != current
    requires var distance := Output.Distance(cursor, current);
      count == if FRAMES - cursor % FRAMES > distance then distance else FRAMES - cursor % FRAMES
    ensures cursor / FRAMES % QUEUE * FRAMES + cursor % FRAMES == cursor && cursor % FRAMES + count <= FRAMES
    ensures 0 < count <= Output.Distance(cursor, current)
    ensures var next := (cursor + count) % RING;
      && Output.Distance(next, current) == Output.Distance(cursor, current) - count
      && (next == current || next % FRAMES == 0)
      && (cursor % FRAMES == 0 && next != current ==> count == FRAMES)
  {
    BufferOf(cursor);
    RingWraps(cursor + count);
    BufferEnd(cursor, cursor + FRAMES - cursor % FRAMES);
  }

  /** A poll that sees the hardware at `hw` after `refilled` frames were refilled makes up for what was
      played, if and only if that is less than the whole ring. */
  lemma CaughtUpIff(refilled: nat, hw: nat)
    requires refilled <= hw
    ensures refilled + Output.Distance(refilled % RING, hw % RING) == hw <==> hw - refilled < RING
  {
    var (q, r) := (refilled / RING, refilled % RING);
    if hw - refilled < RING {
      if r + (hw - refilled) < RING {
        Remainder(hw, q, r + (hw - refilled));
      } else {
        Remainder(hw, q + 1, r + (hw - refilled) - RING);
      }
    }
  }

  lemma SamePlace(n: nat)
    requires n >= RING
    ensures n % RING == (n - RING) % RING
  {
    Remainder(n - RING, n / RING - 1, n % RING);
  }

  /** The position register counts bytes round the ring, four to a frame. */
  lemma PositionOf(seen: nat, odd: nat)
    requires odd < 4
    ensures (seen % RING * 4 + odd) / 4 % RING == seen % RING
  {
  }

  /** Descriptor numbers go round, and how far one is ahead of another. */
  function Ahead(from: nat, end: nat): nat
    requires from < DESCRIPTORS && end < DESCRIPTORS
  {
    if end >= from then end - from else end + DESCRIPTORS - from
  }

  lemma AheadFalls(c: nat, current: nat)
    requires c < DESCRIPTORS && current < DESCRIPTORS && c != current
    ensures Ahead((c + 1) % DESCRIPTORS, current) == Ahead(c, current) - 1
  {
  }

  lemma AheadIs(turn: nat, seen: nat)
    requires turn <= seen < turn + DESCRIPTORS
    ensures Ahead(turn % DESCRIPTORS, seen % DESCRIPTORS) == seen - turn
  {
  }

  lemma DescriptorOn(n: nat)
    ensures (n + 1) % DESCRIPTORS == (n % DESCRIPTORS + 1) % DESCRIPTORS
  {
  }

  /** Position (turn, partial) is not behind (was, done). */
  predicate Since(was: nat, done: nat, turn: nat, partial: nat) {
    was < turn || (was == turn && done <= partial)
  }

  /** Frames played of a descriptor, from the samples left in it; an odd one left is the right
      channel of a frame that is not played yet. */
  function Consumed(remaining: nat): (n: nat)
    ensures n <= FRAMES
  {
    if remaining <= 2 * FRAMES then (2 * FRAMES - remaining) / 2 else 0
  }

  lemma TailIs(turn: nat, playing: nat)
    requires turn <= playing <= turn + QUEUE - 1
    ensures playing % DESCRIPTORS == (turn + QUEUE - 1) % DESCRIPTORS <==> playing == turn + QUEUE - 1
  {
  }

  /** Frame `k`, the one after `done` of descriptor `turn`, in the buffer of that descriptor. */
  lemma PlaceOf(turn: nat, done: nat, k: nat)
    requires done < FRAMES && k == turn * FRAMES + done
    ensures turn % DESCRIPTORS % QUEUE * FRAMES + done == k % RING
  {
    var (q, r) := (turn / DESCRIPTORS, turn % DESCRIPTORS);
    var (c, d) := (r / QUEUE, r % QUEUE);
    PlaceIs(k, 8 * q + c, d, done);
  }

  lemma PlaceIs(k: nat, lap: nat, buffer: nat, done: nat)
    requires buffer < QUEUE && done < FRAMES && k == (lap * QUEUE + buffer) * FRAMES + done
    ensures k % RING == buffer * FRAMES + done
  {
    Remainder(k, lap, buffer * FRAMES + done);
  }

  lemma AcPlace(turn: nat, cursor: nat, partial: nat, produced: nat)
    requires partial < FRAMES && cursor == turn % DESCRIPTORS && produced == RING + turn * FRAMES + partial
    ensures produced % RING == cursor % QUEUE * FRAMES + partial
  {
    PlaceOf(turn, partial, produced - RING);
    SamePlace(produced);
  }
}
