/** Programs on tape: the encoder's wave, decoded (shell/basic.c, kernel/ac97.c). */
module KcsSpec {
  import opened Bytes

  const HIGH: byte := 0xE0
  const LOW: byte := 0x20
  const LEADER: nat := 8000
  const TRAILER: nat := 4000

  // ----- the wave -----

  function Level(i: nat, half: nat): byte
    requires half > 0
  {
    if i / half % 2 == 0 then HIGH else LOW
  }

  /** A square wave that starts high, `half` samples to a half period. */
  function Wave(n: nat, half: nat): (w: seq<byte>)
    requires half > 0
    ensures |w| == n
  {
    seq(n, i requires 0 <= i < n => Level(i, half))
  }

  /** One bit: 7 samples of 2400 Hz for a 1 and of 1200 Hz for a 0. */
  function BitWave(bit: bool): (w: seq<byte>)
    ensures |w| == 7
  {
    Wave(7, if bit then 1 else 3)
  }

  /** A byte's frame: a 0 to start, eight bits with the lowest first, a 1 to stop. */
  predicate FrameBit(b: byte, k: nat) {
    k >= 9 || (k > 0 && Bit(b, k - 1))
  }

  /** Sample `j` of the frame, counted from its bit `k`. */
  function FrameSample(b: byte, k: nat, j: nat): byte {
    var i := 7 * k + j;
    Level(i % 7, if FrameBit(b, i / 7) then 1 else 3)
  }

  /** The wave of the frame from its bit `k` on. */
  function FrameWave(b: byte, k: nat): (w: seq<byte>)
    requires k <= 10
    ensures |w| == 7 * (10 - k)
  {
    seq(7 * (10 - k), j requires 0 <= j < 7 * (10 - k) => FrameSample(b, k, j))
  }

  function ByteWave(b: byte): (w: seq<byte>)
    ensures |w| == 70
  {
    FrameWave(b, 0)
  }

  lemma FrameSplit(b: byte, k: nat)
    requires k < 10
    ensures FrameWave(b, k) == BitWave(FrameBit(b, k)) + FrameWave(b, k + 1)
  {
    forall j | 0 <= j < 7
      ensures FrameSample(b, k, j) == BitWave(FrameBit(b, k))[j]
    {
      InBit(k, j, 7 * k + j);
    }
  }

  lemma InBit(k: nat, j: nat, i: nat)
    requires j < 7 && i == 7 * k + j
    ensures i / 7 == k && i % 7 == j
  {
  }

  type Block = w: seq<byte> | |w| == 70 witness seq(70, _ => HIGH)

  function Blocks(data: seq<byte>): (ws: seq<Block>)
    ensures |ws| == |data|
  {
    seq(|data|, k requires 0 <= k < |data| => ByteWave(data[k]))
  }

  /** The blocks from the one numbered `i`, one after the other. */
  function Flat(ws: seq<Block>, i: nat): (w: seq<byte>)
    requires i <= |ws|
    ensures |w| == 70 * (|ws| - i)
    decreases |ws| - i
  {
    if i == |ws| then [] else ws[i] + Flat(ws, i + 1)
  }

  function Framed(data: seq<byte>): (w: seq<byte>)
    ensures |w| == 70 * |data|
  {
    Flat(Blocks(data), 0)
  }

  /** What is recorded: a second of tone, the data, half a second of tone. */
  function Tape(data: seq<byte>): (w: seq<byte>)
    ensures |w| == LEADER + 70 * |data| + TRAILER
  {
    Wave(LEADER, 1) + Framed(data) + Wave(TRAILER, 1)
  }

  // ----- the decoder -----

  predicate Crosses(a: byte, b: byte) {
    a < 0x80 <==> b >= 0x80
  }

  function Crossings(prev: byte, s: seq<byte>): nat
    decreases |s|
  {
    if s == [] then 0 else (if Crosses(prev, s[0]) then 1 else 0) + Crossings(s[0], s[1..])
  }

  predicate Quiet(s: byte) {
    -10 < s - 0x80 < 10
  }

  /** Milliseconds the samples between two positions last. */
  function Elapsed(from: nat, pos: nat): nat
    requires from <= pos
  {
    (pos - from) / 8
  }

  /** Looking for a start bit from `pos`, in windows of 7 samples, for two seconds from `from`. */
  function Scan(stream: seq<byte>, from: nat, pos: nat): (r: (bool, nat))
    requires from <= pos <= |stream|
    ensures pos <= r.1 <= |stream| && (r.0 ==> r.1 > pos)
    decreases |stream| - pos
  {
    if Elapsed(from, pos) >= 2000 || pos == |stream| then (false, pos)
    else if Quiet(stream[pos]) || pos + 7 > |stream| then Scan(stream, from, pos + 1)
    else if Crossings(stream[pos], stream[pos + 1..pos + 7]) <= 2 then (true, pos + 7)
    else Scan(stream, from, pos + 7)
  }

  /** The bit in the window at `pos`: a 1 has three crossings or more. */
  predicate BitAt(stream: seq<byte>, pos: nat)
    requires 0 < pos && pos + 7 <= |stream|
  {
    Crossings(stream[pos - 1], stream[pos..pos + 7]) >= 3
  }

  /** Bits `i` to 7 and the stop bit; -1 for a bad stop bit, -2 when samples run out. */
  function ReadBits(stream: seq<byte>, pos: nat, i: nat, v: byte): (r: (int, nat))
    requires 0 < pos <= |stream| && i <= 8
    ensures pos <= r.1 <= |stream| && -2 <= r.0 < 256
    decreases 8 - i
  {
    if pos + 7 > |stream| then (-2, pos)
    else if i == 8 then (if BitAt(stream, pos) then v else -1, pos + 7)
    else ReadBits(stream, pos + 7, i + 1, if BitAt(stream, pos) then SetIn(v, i) else v)
  }

  function Capture(stream: seq<byte>, from: nat): (r: (int, nat))
    requires from <= |stream|
    ensures from <= r.1 <= |stream| && -2 <= r.0 < 256 && (r.0 >= 0 ==> r.1 > from)
  {
    var (found, pos) := Scan(stream, from, from);
    if !found || Elapsed(from, pos) >= 2000 then (-2, pos) else ReadBits(stream, pos, 0, 0)
  }

  /** All bytes up to the first that fails, and how it fails. */
  function CaptureAll(stream: seq<byte>, from: nat): (all: (seq<byte>, int))
    requires from <= |stream|
    decreases |stream| - from
  {
    var (r, pos) := Capture(stream, from);
    if r < 0 then ([], r)
    else
      var (rest, end) := CaptureAll(stream, pos);
      ([r] + rest, end)
  }

  // ----- windows -----

  lemma CrossingsFrom(s: seq<byte>, i: nat)
    requires 0 < i < |s|
    ensures Crossings(s[i - 1], s[i..]) ==
      Step(s[i - 1], s[i]) + (if i + 1 < |s| then Crossings(s[i], s[i + 1..]) else 0)
  {
    assert s[i..][1..] == s[i + 1..];
  }

  lemma Crossings6(prev: byte, s: seq<byte>)
    requires |s| == 6
    ensures Crossings(prev, s) ==
      Step(prev, s[0]) + Step(s[0], s[1]) + Step(s[1], s[2]) + Step(s[2], s[3]) + Step(s[3], s[4]) + Step(s[4], s[5])
  {
    CrossingsFrom(s, 5);
    CrossingsFrom(s, 4);
    CrossingsFrom(s, 3);
    CrossingsFrom(s, 2);
    CrossingsFrom(s, 1);
  }

  function Step(a: byte, b: byte): nat {
    if Crosses(a, b) then 1 else 0
  }

  lemma Crossings7(prev: byte, s: seq<byte>)
    requires |s| == 7
    ensures Crossings(prev, s) == Step(prev, s[0]) + Crossings(s[0], s[1..])
  {
  }

  /** From the second sample of a bit to the first of the next, the decoder sees 6 crossings in a
      1 and 2 in a 0: being one sample late does not matter. */
  lemma LateWindow(bit: bool, w: seq<byte>)
    requires w == BitWave(bit) + [HIGH]
    ensures Crossings(w[0], w[1..]) == if bit then 6 else 2
    ensures Crossings(w[1], w[2..]) == if bit then 6 - 1 else 2
  {
    Crossings7(w[0], w[1..]);
    Crossings6(w[1], w[2..]);
    assert w[1..][1..] == w[2..];
  }

  /** A 2400 Hz tone: every sample differs from its neighbours. */
  ghost predicate Tone(stream: seq<byte>, lo: nat, hi: nat) {
    lo <= hi <= |stream| && forall i | lo <= i < hi :: stream[i] == Level(i, 1)
  }

  lemma ToneWindow(stream: seq<byte>, pos: nat)
    requires Tone(stream, pos, pos + 7)
    ensures Crossings(stream[pos], stream[pos + 1..pos + 7]) == 6 && !Quiet(stream[pos])
  {
    var w := stream[pos + 1..pos + 7];
    Crossings6(stream[pos], w);
    assert w[0] == stream[pos + 1] && w[1] == stream[pos + 2] && w[2] == stream[pos + 3];
    assert w[3] == stream[pos + 4] && w[4] == stream[pos + 5] && w[5] == stream[pos + 6];
  }

  /** A tone holds no start bit, wherever the windows fall in it. */
  lemma {:induction false} ToneHasNoStart(stream: seq<byte>, from: nat, pos: nat)
    requires from <= pos && Tone(stream, pos, |stream|)
    ensures !Scan(stream, from, pos).0
    decreases |stream| - pos
  {
    if pos < |stream| && Elapsed(from, pos) < 2000 {
      if Quiet(stream[pos]) || pos + 7 > |stream| {
        ToneHasNoStart(stream, from, pos + 1);
      } else {
        ToneWindow(stream, pos);
        ToneHasNoStart(stream, from, pos + 7);
      }
    }
  }

  /** The leader is passed in windows of 7, the last of which reaches one sample beyond it. */
  lemma {:induction false} LeaderPassed(stream: seq<byte>, pos: nat)
    requires Tone(stream, 0, LEADER + 1) && pos % 7 == 0 && pos <= LEADER + 1
    ensures Scan(stream, 0, pos) == Scan(stream, 0, LEADER + 1)
    decreases LEADER + 1 - pos
  {
    if pos < LEADER + 1 {
      assert pos + 7 <= LEADER + 1;
      ToneWindow(stream, pos);
      LeaderPassed(stream, pos + 7);
    }
  }

  // ----- one byte -----

  /** The stream goes on with `w` one sample before `pos`: the decoder is one sample late. */
  ghost predicate Late(stream: seq<byte>, pos: nat, w: seq<byte>) {
    0 < pos && pos - 1 + |w| <= |stream| && stream[pos - 1..pos - 1 + |w|] == w
  }

  lemma LateBit(stream: seq<byte>, pos: nat, bit: bool, rest: seq<byte>)
    requires rest != [] && rest[0] == HIGH && Late(stream, pos, BitWave(bit) + rest)
    ensures pos + 7 <= |stream| && BitAt(stream, pos) == bit
    ensures Late(stream, pos + 7, rest)
    ensures !Quiet(stream[pos]) && Crossings(stream[pos], stream[pos + 1..pos + 7]) == if bit then 5 else 2
  {
    var all := BitWave(bit) + rest;
    var w := BitWave(bit) + [HIGH];
    assert stream[pos - 1..pos + 7] == all[..8] == w;
    assert w[0] == stream[pos - 1] && w[1..] == stream[pos..pos + 7];
    assert w[1] == stream[pos] && w[2..] == stream[pos + 1..pos + 7];
    LateWindow(bit, w);
    assert stream[pos + 6..pos + 6 + |rest|] == all[7..] == rest;
  }

  ghost predicate SoFar(v: byte, b: byte, i: nat) {
    forall j: nat | j < 8 :: Bit(v, j) == (j < i && Bit(b, j))
  }

  lemma OneMore(v: byte, b: byte, i: nat)
    requires i < 8 && SoFar(v, b, i)
    ensures SoFar(WithBit(v, b, i), b, i + 1)
  {
    forall j: nat | j < 8 ensures Bit(WithBit(v, b, i), j) == (j < i + 1 && Bit(b, j)) {
      OneBit(v, i, j);
    }
  }

  lemma DataStartsHigh(b: byte, i: nat)
    requires i <= 8
    ensures FromBit(b, i)[0] == HIGH
  {
    InBit(i + 1, 0, 7 * (i + 1));
    assert FrameSample(b, i + 1, 0) == HIGH;
  }

  /** Data bits `i` to 7, the stop bit and the sample after it. */
  function FromBit(b: byte, i: nat): (w: seq<byte>)
    requires i <= 8
    ensures |w| == 7 * (9 - i) + 1
  {
    FrameWave(b, i + 1) + [HIGH]
  }

  lemma FromBitSplit(b: byte, i: nat)
    requires i < 8
    ensures FromBit(b, i) == BitWave(Bit(b, i)) + FromBit(b, i + 1)
  {
    FrameSplit(b, i + 1);
    Regroup(BitWave(Bit(b, i)), FrameWave(b, i + 2), [HIGH]);
  }

  lemma Regroup(a: seq<byte>, b: seq<byte>, c: seq<byte>)
    ensures a + b + c == a + (b + c)
  {
  }

  lemma StopRead(stream: seq<byte>, pos: nat, b: byte, v: byte)
    requires SoFar(v, b, 8) && Late(stream, pos, FromBit(b, 8))
    ensures pos <= |stream| && ReadBits(stream, pos, 8, v) == (b as int, pos + 7)
  {
    FrameSplit(b, 9);
    Regroup(BitWave(true), FrameWave(b, 10), [HIGH]);
    assert FrameWave(b, 10) + [HIGH] == [HIGH];
    LateBit(stream, pos, true, [HIGH]);
    Pow2Of32();
    SameBits(8, v, b);
  }

  lemma ReadStep(stream: seq<byte>, pos: nat, i: nat, v: byte, bit: bool, rest: seq<byte>)
    requires i < 8 && rest != [] && rest[0] == HIGH && Late(stream, pos, BitWave(bit) + rest)
    ensures pos + 7 <= |stream| && Late(stream, pos + 7, rest)
    ensures ReadBits(stream, pos, i, v) == ReadBits(stream, pos + 7, i + 1, if bit then SetIn(v, i) else v)
  {
    LateBit(stream, pos, bit, rest);
  }

  function WithBit(v: byte, b: byte, i: nat): byte
    requires i < 8
  {
    if Bit(b, i) then SetIn(v, i) else v
  }

  lemma BitStep(stream: seq<byte>, pos: nat, b: byte, i: nat, v: byte)
    requires i < 8 && SoFar(v, b, i) && Late(stream, pos, FromBit(b, i))
    ensures pos + 7 <= |stream| && Late(stream, pos + 7, FromBit(b, i + 1)) && SoFar(WithBit(v, b, i), b, i + 1)
    ensures ReadBits(stream, pos, i, v) == ReadBits(stream, pos + 7, i + 1, WithBit(v, b, i))
  {
    FromBitSplit(b, i);
    DataStartsHigh(b, i + 1);
    ReadStep(stream, pos, i, v, Bit(b, i), FromBit(b, i + 1));
    OneMore(v, b, i);
  }

  lemma {:induction false} BitsRead(stream: seq<byte>, pos: nat, b: byte, i: nat, v: byte, end: nat)
    requires i <= 8 && SoFar(v, b, i) && Late(stream, pos, FromBit(b, i)) && end == pos + 7 * (9 - i)
    ensures pos <= |stream| && ReadBits(stream, pos, i, v) == (b as int, end)
    decreases 8 - i
  {
    if i < 8 {
      BitStep(stream, pos, b, i, v);
      BitsRead(stream, pos + 7, b, i + 1, WithBit(v, b, i), end);
    } else {
      StopRead(stream, pos, b, v);
    }
  }

  /** A byte read one sample late from its start bit, with another wave after it, is that byte. */
  lemma ByteRead(stream: seq<byte>, from: nat, pos: nat, b: byte)
    requires from <= pos && Elapsed(from, pos + 7) < 2000 && Late(stream, pos, ByteWave(b) + [HIGH])
    ensures pos <= |stream| && Scan(stream, from, pos) == (true, pos + 7)
    ensures pos + 7 <= |stream| && ReadBits(stream, pos + 7, 0, 0) == (b as int, pos + 70)
  {
    var rest := FromBit(b, 0);
    FrameSplit(b, 0);
    Regroup(BitWave(false), FrameWave(b, 1), [HIGH]);
    DataStartsHigh(b, 0);
    LateBit(stream, pos, false, rest);
    forall j: nat | j < 8 ensures !Bit(0, j) { BitOfZero(j); }
    BitsRead(stream, pos + 7, b, 0, 0, pos + 70);
  }

  // ----- whole tapes -----

  lemma FirstPart(all: seq<byte>, a: seq<byte>, b: seq<byte>, n: nat)
    requires all == a + b && n == |a|
    ensures all[0..n] == a
  {
  }

  lemma LaterPart(all: seq<byte>, a: seq<byte>, b: seq<byte>, lo: nat, hi: nat, at: nat, end: nat)
    requires all == a + b && lo <= hi <= |b| && at == |a| + lo && end == |a| + hi
    ensures end <= |all| && all[at..end] == b[lo..hi]
  {
  }

  lemma {:induction false} BlockAt(ws: seq<Block>, i: nat, k: nat, at: nat)
    requires i <= k < |ws| && at == 70 * (k - i)
    ensures at + 70 <= |Flat(ws, i)| && Flat(ws, i)[at..at + 70] == ws[k]
    decreases |ws| - i
  {
    if k == i {
      FirstPart(Flat(ws, i), ws[i], Flat(ws, i + 1), 70);
    } else {
      BlockAt(ws, i + 1, k, at - 70);
      LaterPart(Flat(ws, i), ws[i], Flat(ws, i + 1), at - 70, at, at, at + 70);
    }
  }

  lemma MiddlePart(all: seq<byte>, a: seq<byte>, b: seq<byte>, c: seq<byte>, lo: nat, hi: nat, at: nat, end: nat)
    requires all == a + b + c && lo <= hi <= |b| && at == |a| + lo && end == |a| + hi
    ensures end <= |all| && all[at..end] == b[lo..hi]
  {
    LaterPart(a + b, a, b, lo, hi, at, end);
    EarlierPart(all, a + b, c, at, end);
  }

  lemma Ends(all: seq<byte>, a: seq<byte>, b: seq<byte>, c: seq<byte>, lo: nat, hi: nat)
    requires all == a + b + c && lo == |a| && hi == |a| + |b|
    ensures all[..lo] == a && all[hi..] == c
  {
  }

  /** The tones at both ends of a tape. */
  lemma TapeParts(data: seq<byte>)
    ensures var t, end := Tape(data), LEADER + 70 * |data|;
      t[..LEADER] == Wave(LEADER, 1) && t[end..] == Wave(TRAILER, 1)
  {
    Ends(Tape(data), Wave(LEADER, 1), Framed(data), Wave(TRAILER, 1), LEADER, LEADER + 70 * |data|);
  }

  lemma FrameSlice(data: seq<byte>, k: nat, at: nat)
    requires k < |data| && at == LEADER + 70 * k
    ensures Tape(data)[at..at + 70] == ByteWave(data[k])
  {
    BlockAt(Blocks(data), 0, k, at - LEADER);
    var (lead, f, trail) := (Wave(LEADER, 1), Framed(data), Wave(TRAILER, 1));
    MiddlePart(Tape(data), lead, f, trail, at - LEADER, at - LEADER + 70, at, at + 70);
  }

  lemma EarlierPart(all: seq<byte>, a: seq<byte>, b: seq<byte>, lo: nat, hi: nat)
    requires all == a + b && lo <= hi <= |a|
    ensures all[lo..hi] == a[lo..hi]
  {
  }

  /** Frames and the trailer all start high. */
  lemma FrameStart(data: seq<byte>, k: nat, at: nat)
    requires k <= |data| && at == LEADER + 70 * k
    ensures Tape(data)[at] == HIGH
  {
    if k < |data| {
      FrameSlice(data, k, at);
      FirstOfSlice(Tape(data), at, at + 70);
      StartsHigh(data[k]);
    } else {
      TapeParts(data);
      FirstOfSlice(Tape(data), at, |Tape(data)|);
      assert Wave(TRAILER, 1)[0] == HIGH;
    }
  }

  lemma StartsHigh(b: byte)
    ensures ByteWave(b)[0] == HIGH
  {
    assert FrameSample(b, 0, 0) == HIGH;
  }

  lemma FirstOfSlice(s: seq<byte>, lo: nat, hi: nat)
    requires lo < hi <= |s|
    ensures s[lo..hi][0] == s[lo] && (hi == |s| ==> s[lo..] == s[lo..hi])
  {
  }

  lemma FrameFrom(t: seq<byte>, at: nat, b: byte)
    requires at + 71 <= |t| && t[at..at + 70] == ByteWave(b) && t[at + 70] == HIGH
    ensures Late(t, at + 1, ByteWave(b) + [HIGH])
  {
    SliceAndNext(t, at, at + 70);
  }

  lemma SliceAndNext(s: seq<byte>, lo: nat, hi: nat)
    requires lo <= hi < |s|
    ensures s[lo..hi + 1] == s[lo..hi] + [s[hi]]
  {
  }

  lemma ToneFrom(t: seq<byte>, lo: nat, hi: nat)
    requires lo <= hi <= |t| && lo % 2 == 0 && t[lo..hi] == Wave(hi - lo, 1)
    ensures Tone(t, lo, hi)
  {
    forall i | lo <= i < hi ensures t[i] == Level(i, 1) {
      assert t[i] == t[lo..hi][i - lo];
      SameParity(i, lo);
    }
  }

  /** Byte `k` is in its place, met one sample late. */
  ghost predicate HasFrame(t: seq<byte>, data: seq<byte>, k: nat)
    requires k < |data|
  {
    Late(t, LEADER + 1 + 70 * k, ByteWave(data[k]) + [HIGH])
  }

  /** What the decoder needs to know of a tape. */
  ghost predicate IsTape(t: seq<byte>, data: seq<byte>) {
    && |t| == LEADER + 70 * |data| + TRAILER
    && Tone(t, 0, LEADER + 1) && Tone(t, LEADER + 70 * |data|, |t|)
    && forall k | 0 <= k < |data| :: HasFrame(t, data, k)
  }

  lemma TapeFrame(data: seq<byte>, k: nat)
    requires k < |data|
    ensures HasFrame(Tape(data), data, k)
  {
    var at := LEADER + 70 * k;
    FrameSlice(data, k, at);
    FrameStart(data, k + 1, at + 70);
    FrameFrom(Tape(data), at, data[k]);
  }

  lemma TapeTones(data: seq<byte>)
    ensures Tone(Tape(data), 0, LEADER + 1)
    ensures Tone(Tape(data), LEADER + 70 * |data|, |Tape(data)|)
  {
    var t, end := Tape(data), LEADER + 70 * |data|;
    TapeParts(data);
    FirstFrame(data);
    TonesFrom(t, |data|, end);
  }

  lemma FirstFrame(data: seq<byte>)
    ensures Tape(data)[LEADER] == HIGH
  {
    FrameStart(data, 0, LEADER);
  }

  lemma TonesFrom(t: seq<byte>, n: nat, end: nat)
    requires end == LEADER + 70 * n && end + TRAILER == |t|
    requires t[..LEADER] == Wave(LEADER, 1) && t[end..] == Wave(TRAILER, 1) && t[LEADER] == HIGH
    ensures Tone(t, 0, LEADER + 1) && Tone(t, end, |t|)
  {
    assert end == 2 * (LEADER / 2 + 35 * n);
    assert t[0..LEADER] == t[..LEADER] && t[end..|t|] == t[end..];
    ToneFrom(t, 0, LEADER);
    ToneFrom(t, end, |t|);
    assert Level(LEADER, 1) == HIGH;
  }

  lemma TapeIsTape(data: seq<byte>)
    ensures IsTape(Tape(data), data)
  {
    TapeTones(data);
    forall k | 0 <= k < |data| ensures HasFrame(Tape(data), data, k) {
      TapeFrame(data, k);
    }
  }

  lemma SameParity(i: nat, end: nat)
    requires end <= i && end % 2 == 0
    ensures Level(i - end, 1) == Level(i, 1)
  {
  }

  /** Capturing from `from`, whose scan comes to the start bit seen one sample late at `pos`. */
  lemma ByteCaptured(t: seq<byte>, from: nat, pos: nat, b: byte)
    requires from <= pos && Elapsed(from, pos + 7) < 2000 && Late(t, pos, ByteWave(b) + [HIGH])
    requires from <= |t| && pos <= |t| && Scan(t, from, from) == Scan(t, from, pos)
    ensures pos + 70 <= |t| && Capture(t, from) == (b as int, pos + 70)
  {
    ByteRead(t, from, pos, b);
  }

  lemma CaptureNext(t: seq<byte>, from: nat, data: seq<byte>, k: nat, next: nat)
    requires k < |data| && from <= |t| && next <= |t|
    requires Capture(t, from) == (data[k] as int, next) && CaptureAll(t, next) == (data[k + 1..], -2)
    ensures CaptureAll(t, from) == (data[k..], -2)
  {
    assert [data[k]] + data[k + 1..] == data[k..];
  }

  lemma FrameLate(t: seq<byte>, data: seq<byte>, k: nat, pos: nat)
    requires IsTape(t, data) && k < |data| && pos == LEADER + 1 + 70 * k
    ensures Late(t, pos, ByteWave(data[k]) + [HIGH])
  {
    assert HasFrame(t, data, k);
  }

  /** Where the decoder stands when it comes to look for byte `k`. */
  function Start(k: nat): nat {
    if k == 0 then 0 else LEADER + 1 + 70 * k
  }

  lemma ScanFrom(t: seq<byte>, data: seq<byte>, k: nat, from: nat, pos: nat)
    requires IsTape(t, data) && from == Start(k) && pos == LEADER + 1 + 70 * k && pos <= |t|
    ensures from <= pos && Elapsed(from, pos + 7) < 2000 && Scan(t, from, from) == Scan(t, from, pos)
  {
    if k == 0 { LeaderPassed(t, 0); }
  }

  ghost predicate ByteAt(t: seq<byte>, data: seq<byte>, k: nat, from: nat, next: nat)
    requires k < |data|
  {
    from <= |t| && next <= |t| && Capture(t, from) == (data[k] as int, next)
  }

  lemma ByteOfTape(t: seq<byte>, data: seq<byte>, k: nat, from: nat, pos: nat)
    requires IsTape(t, data) && k < |data| && from == Start(k) && pos == LEADER + 1 + 70 * k
    ensures ByteAt(t, data, k, from, pos + 70)
  {
    ScanFrom(t, data, k, from, pos);
    FrameLate(t, data, k, pos);
    ByteCaptured(t, from, pos, data[k]);
  }

  lemma EndOfTape(t: seq<byte>, data: seq<byte>, from: nat, pos: nat)
    requires IsTape(t, data) && from == Start(|data|) && pos == LEADER + 1 + 70 * |data|
    ensures from <= |t| && CaptureAll(t, from) == ([], -2)
  {
    ScanFrom(t, data, |data|, from, pos);
    ToneHasNoStart(t, from, pos);
  }

  lemma {:induction false} RestRead(t: seq<byte>, data: seq<byte>, k: nat)
    requires k <= |data| && AllBytes(t, data, k)
    requires Start(|data|) <= |t| && CaptureAll(t, Start(|data|)) == ([], -2)
    ensures Start(k) <= |t| && CaptureAll(t, Start(k)) == (data[k..], -2)
    decreases |data| - k
  {
    if k < |data| {
      assert ByteAt(t, data, k, Start(k), Start(k + 1));
      RestRead(t, data, k + 1);
      CaptureNext(t, Start(k), data, k, Start(k + 1));
    } else {
      assert data[k..] == [];
    }
  }

  /** Every program recorded comes back from the tape, byte for byte, and after its last byte the
      decoder finds the end of the recording. */
  lemma RoundTrip(data: seq<byte>)
    ensures CaptureAll(Tape(data), 0) == (data, -2)
  {
    var t := Tape(data);
    TapeIsTape(data);
    TapeRead(t, data);
  }

  ghost predicate AllBytes(t: seq<byte>, data: seq<byte>, from: nat) {
    forall j | from <= j < |data| :: ByteAt(t, data, j, Start(j), Start(j + 1))
  }

  lemma BytesOfTape(t: seq<byte>, data: seq<byte>, k: nat)
    requires IsTape(t, data)
    ensures AllBytes(t, data, k)
  {
    forall j | k <= j < |data|
      ensures ByteAt(t, data, j, Start(j), Start(j + 1))
    {
      ByteOfTape(t, data, j, Start(j), LEADER + 1 + 70 * j);
    }
  }

  lemma TapeRead(t: seq<byte>, data: seq<byte>)
    requires IsTape(t, data)
    ensures CaptureAll(t, 0) == (data, -2)
  {
    BytesOfTape(t, data, 0);
    EndOfTape(t, data, Start(|data|), LEADER + 1 + 70 * |data|);
    RestRead(t, data, 0);
    assert data[0..] == data;
  }

  // ----- receiving, with a key that stops it -----

  const ESCAPED := -3

  /** All bytes up to the first that fails or the first after which `escape` holds; bytes are
      counted from `n`. */
  function Heard(stream: seq<byte>, from: nat, escape: nat -> bool, n: nat): (all: (seq<byte>, int))
    requires from <= |stream|
    decreases |stream| - from
  {
    var (r, pos) := Capture(stream, from);
    if r < 0 then ([], r)
    else if escape(n) then ([r], ESCAPED)
    else
      var (rest, end) := Heard(stream, pos, escape, n + 1);
      ([r] + rest, end)
  }

  /** The whole recording is heard exactly when the key is not found pressed before it ends. */
  lemma {:induction false} HeardAllIff(stream: seq<byte>, from: nat, escape: nat -> bool, n: nat)
    requires from <= |stream|
    ensures Heard(stream, from, escape, n) == CaptureAll(stream, from)
      <==> forall k | n <= k < n + |CaptureAll(stream, from).0| :: !escape(k)
    decreases |stream| - from
  {
    var (r, pos) := Capture(stream, from);
    if r >= 0 {
      HeardStep(stream, from, escape, n, r, pos);
      if !escape(n) { HeardAllIff(stream, pos, escape, n + 1); }
    }
  }

  lemma HeardStep(stream: seq<byte>, from: nat, escape: nat -> bool, n: nat, r: byte, pos: nat)
    requires from <= |stream| && pos <= |stream| && Capture(stream, from) == (r as int, pos)
    ensures var (rest, end) := CaptureAll(stream, pos); CaptureAll(stream, from) == ([r] + rest, end) && end != ESCAPED
    ensures |CaptureAll(stream, from).0| == 1 + |CaptureAll(stream, pos).0|
    ensures escape(n) ==> Heard(stream, from, escape, n).1 == ESCAPED
    ensures !escape(n) ==>
      (Heard(stream, from, escape, n) == CaptureAll(stream, from)
       <==> Heard(stream, pos, escape, n + 1) == CaptureAll(stream, pos))
  {
    CaptureEnds(stream, pos);
    if !escape(n) {
      SameTail(r, Heard(stream, pos, escape, n + 1).0, CaptureAll(stream, pos).0);
    }
  }

  lemma SameTail(r: byte, a: seq<byte>, b: seq<byte>)
    ensures [r] + a == [r] + b <==> a == b
  {
    assert ([r] + a)[1..] == a && ([r] + b)[1..] == b;
  }

  lemma {:induction false} CaptureEnds(stream: seq<byte>, from: nat)
    requires from <= |stream|
    ensures -2 <= CaptureAll(stream, from).1 < 0
    decreases |stream| - from
  {
    var (r, pos) := Capture(stream, from);
    if r >= 0 { CaptureEnds(stream, pos); }
  }
}
