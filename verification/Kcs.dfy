/** The tape encoder (shell/basic.c), which fills a buffer of samples, and the decoder
    (kernel/ac97.c), which moves through the samples that arrive. Both are proved against
    `KcsSpec`: the buffer holds the wave of the program given, and the bytes read are those the
    decoder's windows make of the stream from where it stands. */
module Kcs {
  import opened Bytes
  import opened KcsSpec

  const WAV_HEADER: nat := 44
  const WAV_MAX: nat := 0x8_0000
  /** The longest text whose recording fits the buffer. */
  const TAPE_MAX: nat := 7317
  const RATE: nat := 8000

  function HalfPeriod(freq: nat): (half: nat)
    requires freq > 0
    ensures half > 0
  {
    var h := RATE / (2 * freq);
    if h <= 0 then 1 else h
  }

  /** Counting up in a half period: the phase starts over exactly where the level changes. */
  lemma PhaseStep(i: nat, half: nat)
    requires half > 0
    ensures i % half + 1 == half ==> (i + 1) / half == i / half + 1 && (i + 1) % half == 0
    ensures i % half + 1 < half ==> (i + 1) / half == i / half && (i + 1) % half == i % half + 1
  {
    if i % half + 1 == half {
      QuotientIs(i + 1, half, i / half + 1, 0);
    } else {
      QuotientIs(i + 1, half, i / half, i % half + 1);
    }
  }

  class Recorder {
    const wav: array<byte>
    var pos: nat

    ghost predicate Valid()
      reads this
    {
      wav.Length == WAV_MAX && pos <= WAV_MAX
    }

    constructor ()
      ensures Valid() && pos == WAV_HEADER && fresh(wav)
    {
      wav := new byte[WAV_MAX];
      pos := WAV_HEADER;
    }

    method AppendSample(s: byte) returns (full: bool)
      requires Valid()
      modifies this`pos, wav
      ensures Valid() && full == (old(pos) == WAV_MAX)
      ensures !full ==> pos == old(pos) + 1 && wav[..pos] == old(wav[..pos]) + [s]
    {
      if pos >= WAV_MAX { return true; }
      wav[pos] := s;
      pos := pos + 1;
      return false;
    }

    /** A square wave; it does not fit exactly when fewer than `n` samples are left. */
    method EmitWave(n: nat, freq: nat) returns (full: bool)
      requires Valid() && freq > 0
      modifies this`pos, wav
      ensures Valid() && full == (old(pos) + n > WAV_MAX)
      ensures !full ==> pos == old(pos) + n && wav[..pos] == old(wav[..pos]) + Wave(n, HalfPeriod(freq))
    {
      ghost var before := wav[..pos];
      var half := HalfPeriod(freq);
      var phase, high, i := 0, true, 0;
      while i < n
        invariant 0 <= i <= n && Valid() && pos == old(pos) + i
        invariant phase == i % half && high == (i / half % 2 == 0)
        invariant wav[..pos] == before + Wave(i, half)
      {
        PhaseStep(i, half);
        var f := AppendSample(if high then HIGH else LOW);
        if f { return true; }
        phase := phase + 1;
        if phase >= half {
          phase := 0;
          high := !high;
        }
        i := i + 1;
      }
      return false;
    }

    method EmitBit(bit: bool) returns (full: bool)
      requires Valid()
      modifies this`pos, wav
      ensures Valid() && full == (old(pos) + 7 > WAV_MAX)
      ensures !full ==> pos == old(pos) + 7 && wav[..pos] == old(wav[..pos]) + BitWave(bit)
    {
      full := EmitWave(7, if bit then 2400 else 1200);
    }

    method EmitByte(b: byte) returns (full: bool)
      requires Valid()
      modifies this`pos, wav
      ensures Valid() && full == (old(pos) + 70 > WAV_MAX)
      ensures !full ==> pos == old(pos) + 70 && wav[..pos] == old(wav[..pos]) + ByteWave(b)
    {
      ghost var s0 := wav[..pos];
      full := EmitBit(false);
      if full { return; }
      NextBit(s0, wav[..pos], b, 0);
      full := EmitData(b, 0);
      if full { return; }
      ghost var s2 := wav[..pos];
      full := EmitBit(true);
      if full { return; }
      NextBit(s2, wav[..pos], b, 9);
      NoneLeft(wav[..pos], b);
    }

    /** Bits `from` to 7 of a byte. */
    method EmitData(b: byte, from: nat) returns (full: bool)
      requires Valid() && from <= 8
      modifies this`pos, wav
      ensures Valid() && full == (old(pos) + 7 * (8 - from) > WAV_MAX)
      ensures !full ==> pos == old(pos) + 7 * (8 - from)
      ensures !full ==> wav[..pos] + FrameWave(b, 9) == old(wav[..pos]) + FrameWave(b, from + 1)
    {
      ghost var before := wav[..pos];
      var i := from;
      while i < 8
        invariant from <= i <= 8 && Valid() && pos == old(pos) + 7 * (i - from)
        invariant wav[..pos] + FrameWave(b, i + 1) == before + FrameWave(b, from + 1)
      {
        ghost var s := wav[..pos];
        full := EmitBit(Bit(b, i));
        if full { return; }
        NextBit(s, wav[..pos], b, i + 1);
        i := i + 1;
      }
      return false;
    }

    method EmitTone(n: nat) returns (full: bool)
      requires Valid()
      modifies this`pos, wav
      ensures Valid() && full == (old(pos) + n > WAV_MAX)
      ensures !full ==> pos == old(pos) + n && wav[..pos] == old(wav[..pos]) + Wave(n, 1)
    {
      full := EmitWave(n, 2400);
    }

    method EmitFrames(data: seq<byte>) returns (full: bool)
      requires Valid()
      modifies this`pos, wav
      ensures Valid() && full == (old(pos) + 70 * |data| > WAV_MAX)
      ensures !full ==> pos == old(pos) + 70 * |data| && wav[..pos] == old(wav[..pos]) + Framed(data)
    {
      ghost var before := wav[..pos];
      var i := 0;
      while i < |data|
        invariant 0 <= i <= |data| && Valid() && pos == old(pos) + 70 * i
        invariant wav[..pos] + Flat(Blocks(data), i) == before + Framed(data)
      {
        ghost var s := wav[..pos];
        full := EmitByte(data[i]);
        if full { return; }
        Regroup(s, ByteWave(data[i]), Flat(Blocks(data), i + 1));
        i := i + 1;
      }
      assert Flat(Blocks(data), i) == [];
      return false;
    }

    /** The whole recording, or nothing usable when the program is too long for the buffer. */
    method Record(data: seq<byte>) returns (ok: bool)
      requires Valid()
      modifies this`pos, wav
      ensures Valid() && ok == (|data| <= TAPE_MAX)
      ensures ok ==> pos == WAV_HEADER + |Tape(data)| && wav[WAV_HEADER..pos] == Tape(data)
    {
      pos := WAV_HEADER;
      ghost var s0 := wav[..pos];
      var full := EmitTone(LEADER);
      ghost var s1 := wav[..pos];
      full := EmitFrames(data);
      if full { return false; }
      ghost var s2 := wav[..pos];
      full := EmitTone(TRAILER);
      if full { return false; }
      Recorded(s0, s1, s2, wav[..pos], data);
      assert wav[WAV_HEADER..pos] == wav[..pos][WAV_HEADER..];
      return true;
    }
  }

  lemma NoneLeft(s: seq<byte>, b: byte)
    ensures s + FrameWave(b, 10) == s
  {
  }

  lemma NextBit(s: seq<byte>, t: seq<byte>, b: byte, k: nat)
    requires k < 10 && t == s + BitWave(FrameBit(b, k))
    ensures t + FrameWave(b, k + 1) == s + FrameWave(b, k)
  {
    FrameSplit(b, k);
    Regroup(s, BitWave(FrameBit(b, k)), FrameWave(b, k + 1));
  }

  lemma Recorded(s0: seq<byte>, s1: seq<byte>, s2: seq<byte>, s3: seq<byte>, data: seq<byte>)
    requires |s0| == WAV_HEADER
    requires s1 == s0 + Wave(LEADER, 1) && s2 == s1 + Framed(data) && s3 == s2 + Wave(TRAILER, 1)
    ensures s3[WAV_HEADER..] == Tape(data)
  {
    DropFirst(s0, Wave(LEADER, 1), Framed(data), Wave(TRAILER, 1));
  }

  lemma DropFirst(a: seq<byte>, b: seq<byte>, c: seq<byte>, d: seq<byte>)
    ensures (a + b + c + d)[|a|..] == b + c + d
  {
  }

  // ----- the decoder -----

  /** After `heard`, the rest of the stream makes up `all`. */
  ghost predicate Makes(all: (seq<byte>, int), heard: seq<byte>, rest: (seq<byte>, int)) {
    all == (heard + rest.0, rest.1)
  }

  lemma NoneHeard(all: (seq<byte>, int), limit: nat)
    ensures Makes(all, [], all) && Fitting([], limit) == []
  {
    assert [] + all.0 == all.0;
  }

  lemma LastHeard(stream: seq<byte>, p: nat, escape: nat -> bool, n: nat, all: (seq<byte>, int), heard: seq<byte>,
                  r: int)
    requires p <= |stream| && r < 0 && Capture(stream, p).0 == r && Makes(all, heard, Heard(stream, p, escape, n))
    ensures all == (heard, r)
  {
    assert heard + [] == heard;
  }

  lemma HeardNext(stream: seq<byte>, p: nat, escape: nat -> bool, n: nat, all: (seq<byte>, int), heard: seq<byte>,
                  r: byte, next: nat)
    requires p <= |stream| && next <= |stream| && Capture(stream, p) == (r as int, next)
    requires Makes(all, heard, Heard(stream, p, escape, n))
    ensures if escape(n) then all == (heard + [r], ESCAPED)
            else Makes(all, heard + [r], Heard(stream, next, escape, n + 1))
  {
    if !escape(n) { Regroup(heard, [r], Heard(stream, next, escape, n + 1).0); }
  }

  function Fitting(s: seq<byte>, limit: nat): (kept: seq<byte>)
    ensures |kept| == Min(limit, |s|)
  {
    s[..Min(limit, |s|)]
  }

  /** What fits of one byte more. */
  lemma FittingNext(heard: seq<byte>, limit: nat, r: byte)
    ensures Fitting(heard + [r], limit) ==
      if |Fitting(heard, limit)| < limit then Fitting(heard, limit) + [r] else Fitting(heard, limit)
  {
  }

  class Listener {
    const stream: seq<byte>
    var readPos: nat

    ghost predicate Valid()
      reads this
    {
      readPos <= |stream|
    }

    constructor (samples: seq<byte>)
      ensures Valid() && stream == samples && readPos == 0
    {
      stream := samples;
      readPos := 0;
    }

    method CountCrossings(prev: byte, count: nat) returns (n: nat, last: byte)
      requires Valid() && 0 < count && readPos + count <= |stream|
      modifies this`readPos
      ensures Valid() && readPos == old(readPos) + count
      ensures n == Crossings(prev, stream[old(readPos)..readPos]) && last == stream[readPos - 1]
    {
      ghost var s := stream[readPos..readPos + count];
      n, last := 0, prev;
      var i := 0;
      while i < count
        invariant 0 <= i <= count && readPos == old(readPos) + i
        invariant n + Crossings(last, s[i..]) == Crossings(prev, s)
        invariant i > 0 ==> last == stream[readPos - 1]
      {
        assert s[i..][0] == stream[readPos] && s[i..][1..] == s[i + 1..];
        var sample := stream[readPos];
        readPos := readPos + 1;
        if (last < 0x80 && sample >= 0x80) || (last >= 0x80 && sample < 0x80) { n := n + 1; }
        last := sample;
        i := i + 1;
      }
      assert s[count..] == [];
    }

    /** One bit, or -1 when not enough samples arrive. */
    method DecodeBit(prev: byte) returns (bit: int, last: byte)
      requires Valid() && 0 < readPos && prev == stream[readPos - 1]
      modifies this`readPos
      ensures Valid() && (bit == -1 <==> old(readPos) + 7 > |stream|)
      ensures bit == -1 ==> readPos == old(readPos) && last == prev
      ensures bit != -1 ==> readPos == old(readPos) + 7 && last == stream[readPos - 1]
      ensures bit != -1 ==> bit == if BitAt(stream, old(readPos)) then 1 else 0
    {
      if readPos + 7 > |stream| { return -1, prev; }
      var n: nat;
      n, last := CountCrossings(prev, 7);
      bit := if n >= 3 then 1 else 0;
    }

    /** Looks for a start bit for two seconds. Past the last sample nothing arrives any more, and
        the time runs out. */
    method FindStart() returns (found: bool, last: byte)
      requires Valid()
      modifies this`readPos
      ensures Valid() && (found, readPos) == Scan(stream, old(readPos), old(readPos))
      ensures found ==> last == stream[readPos - 1]
    {
      var from := readPos;
      last := 0x80;
      while Elapsed(from, readPos) < 2000 && readPos < |stream|
        invariant from <= readPos <= |stream| && from == old(readPos)
        invariant Scan(stream, from, readPos) == Scan(stream, from, from)
        decreases |stream| - readPos
      {
        var s := stream[readPos];
        readPos := readPos + 1;
        if Quiet(s) || readPos + 6 > |stream| {
          last := s;
        } else {
          var n: nat;
          n, last := CountCrossings(s, 6);
          if n <= 2 { return true, last; }
        }
      }
      return false, last;
    }

    method CaptureByte() returns (r: int)
      requires Valid()
      modifies this`readPos
      ensures Valid() && (r, readPos) == Capture(stream, old(readPos))
    {
      var from := readPos;
      var found, last := FindStart();
      if !found || Elapsed(from, readPos) >= 2000 { return -2; }
      var v: byte := 0;
      var i := 0;
      var bit: int;
      ghost var start := readPos;
      while i < 8
        invariant 0 <= i <= 8 && 0 < readPos <= |stream| && last == stream[readPos - 1]
        invariant ReadBits(stream, readPos, i, v) == ReadBits(stream, start, 0, 0)
      {
        bit, last := DecodeBit(last);
        if bit < 0 { return -2; }
        if bit == 1 { v := SetIn(v, i); }
        i := i + 1;
      }
      bit, last := DecodeBit(last);
      if bit < 0 { return -2; }
      if bit != 1 { return -1; }
      return v;
    }

    /** Receives bytes until one fails or the user stops it, as loading from tape does, and keeps
        those that fit; `escape` says after which bytes the key is found pressed. */
    method Receive(limit: nat, escape: nat -> bool) returns (data: seq<byte>, end: int)
      requires Valid()
      modifies this`readPos
      ensures Valid()
      ensures var all := Heard(stream, old(readPos), escape, 0); data == Fitting(all.0, limit) && end == all.1
    {
      ghost var all := Heard(stream, readPos, escape, 0);
      ghost var heard: seq<byte> := [];
      data := [];
      NoneHeard(all, limit);
      var n := 0;
      while true
        invariant Valid() && data == Fitting(heard, limit)
        invariant Makes(all, heard, Heard(stream, readPos, escape, n))
        decreases |stream| - readPos
      {
        ghost var p := readPos;
        var r := CaptureByte();
        if r < 0 {
          LastHeard(stream, p, escape, n, all, heard, r);
          return data, r;
        }
        FittingNext(heard, limit, r);
        if |data| < limit { data := data + [r]; }
        HeardNext(stream, p, escape, n, all, heard, r, readPos);
        heard := heard + [r];
        if escape(n) { return data, ESCAPED; }
        n := n + 1;
      }
    }
  }
}
