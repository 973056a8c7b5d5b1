/** The samples of a recording one by one, and what the decoder makes of any samples: where it looks
    for a start bit, when it gives up, and which byte it takes the marks behind a start bit for. Only
    plain counts of samples appear here. */
module KcsMeaning {
  import opened Bytes
  import opened KcsSpec

  // ----- the samples of a recording -----

  /** 2400 Hz at 8000 samples a second: high and low in turn; 1200 Hz: three high, three low, one high. */
  function ToneSample(i: nat): byte { if i % 2 == 0 then 0xE0 else 0x20 }

  function MarkSample(one: bool, m: nat): byte {
    if one then (if m in {0, 2, 4, 6} then 0xE0 else 0x20) else if m in {0, 1, 2, 6} then 0xE0 else 0x20
  }

  /** A second of tone comes first. */
  lemma LeaderSamples(data: seq<byte>, i: nat)
    requires i < 8000
    ensures |Tape(data)| == 8000 + 70 * |data| + 4000 && Tape(data)[i] == ToneSample(i)
  {
    TapeParts(data);
    assert Tape(data)[i] == Tape(data)[..LEADER][i];
    assert i / 1 == i;
  }

  /** Half a second of tone comes last. */
  lemma TrailerSamples(data: seq<byte>, i: nat)
    requires i < 4000
    ensures Tape(data)[8000 + 70 * |data| + i] == ToneSample(i)
  {
    TapeParts(data);
    var end := LEADER + 70 * |data|;
    assert Tape(data)[end + i] == Tape(data)[end..][i];
    assert i / 1 == i;
  }

  /** In between every byte has ten marks of seven samples: a 0, its bits from the lowest on, and a 1. */
  lemma ByteSamples(data: seq<byte>, k: nat, j: nat, m: nat)
    requires k < |data| && j < 10 && m < 7
    ensures Tape(data)[8000 + 70 * k + 7 * j + m] ==
      MarkSample(if j == 0 then false else if j == 9 then true else data[k] / Pow2(j - 1) % 2 == 1, m)
  {
    var at, i := LEADER + 70 * k, 7 * j + m;
    assert 8000 + 70 * k + 7 * j + m == at + i;
    FrameSlice(data, k, at);
    InFrame(Tape(data), data[k], at, i);
    FrameSampleIs(data[k], j, m, i);
    if 0 < j < 9 { BitIs(data[k], j - 1); }
  }

  lemma InFrame(t: seq<byte>, b: byte, at: nat, i: nat)
    requires at + 70 <= |t| && t[at..at + 70] == ByteWave(b) && i < 70
    ensures t[at + i] == FrameSample(b, 0, i)
  {
    assert t[at + i] == t[at..at + 70][i];
  }

  lemma FrameSampleIs(b: byte, j: nat, m: nat, i: nat)
    requires j < 10 && m < 7 && i == 7 * j + m
    ensures FrameSample(b, 0, i) == MarkSample(if j == 0 then false else if j == 9 then true else Bit(b, j - 1), m)
  {
    InBit(j, m, i);
    assert m / 1 == m;
    assert m / 3 == if m < 3 then 0 else if m < 6 then 1 else 2;
  }

  // ----- crossings -----

  /** The signal is on the other side of the middle than a sample earlier. */
  predicate CrossesAt(s: seq<byte>, i: nat)
    requires 0 < i < |s|
  {
    (s[i - 1] < 128) != (s[i] < 128)
  }

  /** How often it crosses the middle in the `n` samples from `at` on. */
  function Changes(s: seq<byte>, at: nat, n: nat): nat
    requires 0 < at && at + n <= |s|
  {
    if n == 0 then 0 else Changes(s, at, n - 1) + if CrossesAt(s, at + n - 1) then 1 else 0
  }

  lemma {:induction false} ChangesFirst(s: seq<byte>, at: nat, n: nat)
    requires 0 < at && 0 < n && at + n <= |s|
    ensures Changes(s, at, n) == (if CrossesAt(s, at) then 1 else 0) + Changes(s, at + 1, n - 1)
  {
    if n > 1 { ChangesFirst(s, at, n - 1); }
  }

  lemma {:induction false} CrossingsAre(s: seq<byte>, at: nat, n: nat)
    requires 0 < at && at + n <= |s|
    ensures Crossings(s[at - 1], s[at..at + n]) == Changes(s, at, n)
    decreases n
  {
    var w := s[at..at + n];
    if n == 0 {
      assert w == [];
    } else {
      assert w[0] == s[at] && w[1..] == s[at + 1..at + n];
      CrossingsAre(s, at + 1, n - 1);
      ChangesFirst(s, at, n);
    }
  }

  // ----- a byte -----

  /** The mark in the seven samples from `at` on: a 1 has three crossings or more. */
  predicate MarkAt(s: seq<byte>, at: nat)
    requires 0 < at && at + 7 <= |s|
  {
    Changes(s, at, 7) >= 3
  }

  lemma MarkIs(s: seq<byte>, at: nat)
    requires 0 < at && at + 7 <= |s|
    ensures BitAt(s, at) <==> MarkAt(s, at)
  {
    CrossingsAre(s, at, 7);
  }

  /** What follows a start bit, from `at` on: nothing if samples run out before the ninth mark is over,
      an error if that mark is a 0, and else the byte whose bits are the first eight marks. */
  ghost predicate Decodes(s: seq<byte>, at: nat, r: int)
    requires 0 < at <= |s|
  {
    if at + 63 > |s| then r == -2
    else if !MarkAt(s, at + 56) then r == -1
    else 0 <= r < 256 && forall j: nat | j < 8 :: Bit(r, j) == MarkAt(s, at + 7 * j)
  }

  /** The bits `v` has so far: those of the first `i` marks. */
  ghost predicate Marked(s: seq<byte>, start: nat, i: nat, v: byte)
    requires 0 < start
  {
    forall j: nat | j < 8 :: Bit(v, j) == (j < i && start + 7 * j + 7 <= |s| && MarkAt(s, start + 7 * j))
  }

  lemma MoreBits(s: seq<byte>, start: nat, i: nat, v: byte, one: bool)
    requires 0 < start && i < 8 && start + 7 * i + 7 <= |s| && Marked(s, start, i, v)
    requires one == MarkAt(s, start + 7 * i)
    ensures Marked(s, start, i + 1, if one then SetIn(v, i) else v)
  {
    var n := if one then SetIn(v, i) else v;
    forall j: nat | j < 8
      ensures Bit(n, j) == (Bit(v, j) || (one && j == i))
    {
      OneBit(v, i, j);
    }
  }

  lemma {:induction false} BitsRead(s: seq<byte>, start: nat, at: nat, i: nat, v: byte)
    requires 0 < start && at == start + 7 * i && at <= |s| && i <= 8 && Marked(s, start, i, v)
    ensures Decodes(s, start, ReadBits(s, at, i, v).0)
    ensures start + 63 <= |s| ==> ReadBits(s, at, i, v).1 == start + 63
    decreases 8 - i
  {
    if at + 7 <= |s| {
      MarkIs(s, at);
      if i < 8 {
        MoreBits(s, start, i, v, BitAt(s, at));
        BitsRead(s, start, at + 7, i + 1, if BitAt(s, at) then SetIn(v, i) else v);
      }
    }
  }

  /** The decoder after a start bit. */
  lemma ByteDecodes(s: seq<byte>, at: nat)
    requires 0 < at <= |s|
    ensures Decodes(s, at, ReadBits(s, at, 0, 0).0)
    ensures at + 63 <= |s| ==> ReadBits(s, at, 0, 0).1 == at + 63
  {
    forall j: nat | j < 8 ensures !Bit(0, j) { BitOfZero(j); }
    BitsRead(s, at, at, 0, 0);
  }

  // ----- the start bit -----

  /** Nothing is going on: a sample less than 10 away from the middle. */
  predicate Silent(b: byte) {
    118 < b < 138
  }

  /** A step of the search, from `p` to `q`: over one silent sample, or one of the last six, or over a
      window of seven with three crossings or more. */
  predicate Searches(s: seq<byte>, p: nat, q: nat) {
    && p < |s| && q <= |s|
    && (if Silent(s[p]) || p + 7 > |s| then q == p + 1 else q == p + 7 && Changes(s, p + 1, 6) >= 3)
  }

  /** A search begun at `from`: the places it went through, none of them two seconds on. */
  ghost predicate IsSearch(s: seq<byte>, from: nat, ps: seq<nat>) {
    && ps != [] && ps[0] == from
    && forall i | 0 <= i < |ps| - 1 :: ps[i] < from + 16000 && Searches(s, ps[i], ps[i + 1])
  }

  /** How it ends: with a window of at most two crossings that does not begin with silence, or two
      seconds on, or when there are no more samples. */
  predicate Ends(s: seq<byte>, from: nat, p: nat, r: (bool, nat)) {
    && p <= |s|
    && if p >= from + 16000 || p == |s| then r == (false, p)
       else !Silent(s[p]) && p + 7 <= |s| && Changes(s, p + 1, 6) <= 2 && r == (true, p + 7)
  }

  lemma {:induction false} ScanIs(s: seq<byte>, from: nat, p: nat) returns (ps: seq<nat>)
    requires from <= p <= |s|
    ensures ps != [] && ps[0] == p && ps[|ps| - 1] <= |s| && Ends(s, from, ps[|ps| - 1], Scan(s, from, p))
    ensures forall i | 0 <= i < |ps| - 1 :: ps[i] < from + 16000 && Searches(s, ps[i], ps[i + 1])
    decreases |s| - p
  {
    if Elapsed(from, p) >= 2000 || p == |s| {
      ps := [p];
    } else {
      var quiet := Quiet(s[p]) || p + 7 > |s|;
      if !quiet { CrossingsAre(s, p + 1, 6); }
      if !quiet && Crossings(s[p], s[p + 1..p + 7]) <= 2 {
        ps := [p];
      } else {
        var q := if quiet then p + 1 else p + 7;
        var rest := ScanIs(s, from, q);
        ps := [p] + rest;
        assert Searches(s, p, q);
        forall i | 0 <= i < |ps| - 1
          ensures ps[i] < from + 16000 && Searches(s, ps[i], ps[i + 1])
        {
          if i > 0 { assert ps[i] == rest[i - 1] && ps[i + 1] == rest[i]; }
        }
      }
    }
  }

  /** Capturing a byte: a search for a start bit, and if that is found in time, what follows it. */
  lemma CaptureIs(s: seq<byte>, from: nat) returns (ps: seq<nat>)
    requires from <= |s|
    ensures IsSearch(s, from, ps) && Ends(s, from, ps[|ps| - 1], Scan(s, from, from))
    ensures var (found, at) := Scan(s, from, from);
      if found && at < from + 16000 then Decodes(s, at, Capture(s, from).0) else Capture(s, from).0 == -2
  {
    ps := ScanIs(s, from, from);
    var (found, at) := Scan(s, from, from);
    if found { ByteDecodes(s, at); }
  }
}
