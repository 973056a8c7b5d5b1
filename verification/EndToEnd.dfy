/** What comes back from the disk and from tape, through all the layers. */
module EndToEnd {
  import opened Bytes
  import opened FsSpec
  import opened FsTheorems
  import IEditSpec
  import BasicExpr
  import BasicProgram
  import BasicFile
  import BasicStore
  import KcsSpec
  import Kcs

  // ----- characters as bytes -----

  predicate EightBit(s: string) {
    forall i | 0 <= i < |s| :: s[i] < 256 as char
  }

  function ToBytes(s: string): (b: seq<byte>)
    requires EightBit(s)
    ensures |b| == |s|
  {
    seq(|s|, i requires 0 <= i < |s| => s[i] as int)
  }

  function ToChars(b: seq<byte>): (s: string)
    ensures |s| == |b|
  {
    seq(|b|, i requires 0 <= i < |b| => b[i] as char)
  }

  lemma BackToChars(s: string)
    requires EightBit(s)
    ensures ToChars(ToBytes(s)) == s
  {
  }

  /** A file read back whole is the text that was written. */
  lemma TextSurvives(d: Disk, d': Disk, n: Name, s: string, buf: seq<byte>, buf': seq<byte>, len: nat)
    requires EightBit(s) && |s| <= |buf|
    requires WriteOutcome(d, d', n, ToBytes(s), FS_OK) && ReadOutcome(d', n, buf, buf', FS_OK, len)
    ensures len <= |buf'| && ToChars(buf'[..len]) == s
  {
    WriteThenRead(d, d', n, ToBytes(s), buf, buf', len);
    BackToChars(s);
    assert ToBytes(s)[..len] == ToBytes(s);
  }

  // ----- the editor -----

  lemma {:induction false} FlatEightBit(ls: IEditSpec.Lines)
    requires forall r | 0 <= r < |ls| :: EightBit(ls[r])
    ensures EightBit(IEditSpec.Flat(ls))
    decreases |ls|
  {
    if |ls| > 1 { FlatEightBit(ls[1..]); }
  }

  /** A text saved from the editor and opened again is the same text, line for line. */
  lemma EditorTextSurvivesDisk(d: Disk, d': Disk, n: Name, ls: IEditSpec.Lines,
                               buf: seq<byte>, buf': seq<byte>, len: nat)
    requires IEditSpec.Fits(ls) && (forall r | 0 <= r < |ls| :: EightBit(ls[r]))
    requires |buf| == 16383
    ensures EightBit(IEditSpec.Saved(ls))
    ensures WriteOutcome(d, d', n, ToBytes(IEditSpec.Saved(ls)), FS_OK) && ReadOutcome(d', n, buf, buf', FS_OK, len) ==>
      len <= |buf'| && IEditSpec.Parsed(ToChars(buf'[..len]), [], "") == ls
  {
    FlatEightBit(ls);
    IEditSpec.SavedSize(ls);
    IEditSpec.LoadUndoesSave(ls);
    var s := IEditSpec.Saved(ls);
    assert EightBit(s);
    if WriteOutcome(d, d', n, ToBytes(s), FS_OK) && ReadOutcome(d', n, buf, buf', FS_OK, len) {
      TextSurvives(d, d', n, s, buf, buf', len);
    }
  }

  // ----- BASIC -----

  lemma {:induction false} DigitsEightBit(n: nat)
    ensures EightBit(BasicExpr.Digits(n))
  {
    if n >= 10 { DigitsEightBit(n / 10); }
  }

  lemma {:induction false} SerialEightBit(prog: seq<BasicProgram.Line>)
    requires forall i | 0 <= i < |prog| :: BasicFile.LineOk(prog[i]) && prog[i].num >= 0 && EightBit(prog[i].text)
    ensures EightBit(BasicFile.Serial(prog))
    decreases |prog|
  {
    if prog != [] {
      DigitsEightBit(prog[0].num);
      SerialEightBit(prog[1..]);
    }
  }

  /** A program as entered: lines of eight-bit characters. */
  ghost predicate Entered(prog: seq<BasicProgram.Line>) {
    && BasicFile.ProgramOk(prog)
    && (forall i | 0 <= i < |prog| :: BasicFile.LineOk(prog[i]) && prog[i].num >= 0 && EightBit(prog[i].text))
  }

  /** A program saved to disk and loaded again is the same program, if and only if all its numbers lie
      between 1 and 99999999. */
  lemma ProgramSurvivesDisk(d: Disk, d': Disk, n: Name, prog: seq<BasicProgram.Line>,
                            buf: seq<byte>, buf': seq<byte>, len: nat)
    requires Entered(prog) && |buf| == 40959
    ensures EightBit(BasicFile.Serial(prog))
    ensures
      && WriteOutcome(d, d', n, ToBytes(BasicFile.Serial(prog)), FS_OK)
      && ReadOutcome(d', n, buf, buf', FS_OK, len) ==>
      && len <= |buf'|
      && (BasicFile.Savable(prog) && BasicFile.Loaded(ToChars(buf'[..len]), []) == prog <==> BasicFile.Keepable(prog))
  {
    SerialEightBit(prog);
    BasicFile.SerialSize(prog);
    BasicFile.LoadUndoesSaveIff(prog);
    var s := BasicFile.Serial(prog);
    if WriteOutcome(d, d', n, ToBytes(s), FS_OK) && ReadOutcome(d', n, buf, buf', FS_OK, len) {
      TextSurvives(d, d', n, s, buf, buf', len);
    }
  }

  // ----- tape -----

  /** The programs that survive a recording: there is one, its numbers can be written and are
      loaded again, and its text is no longer than a recording holds. */
  ghost predicate Recordable(prog: seq<BasicProgram.Line>)
    requires Entered(prog)
  {
    prog != [] && BasicFile.Keepable(prog) && |BasicFile.Serial(prog)| <= Kcs.TAPE_MAX
  }

  /** The text heard of a tape, as far as there is room for it. */
  function TextHeard(tape: seq<byte>, escape: nat -> bool): string {
    ToChars(Kcs.Fitting(KcsSpec.Heard(tape, 0, escape, 0).0, BasicFile.BASIC_SAVE_BUF - 1))
  }

  /** What is heard of a recorded text, with the key that stops it left alone, is that text. */
  lemma RecordedIsHeard(s: string, escape: nat -> bool)
    requires EightBit(s) && |s| < BasicFile.BASIC_SAVE_BUF && forall k :: !escape(k)
    ensures TextHeard(KcsSpec.Tape(ToBytes(s)), escape) == s
  {
    KcsSpec.RoundTrip(ToBytes(s));
    KcsSpec.HeardAllIff(KcsSpec.Tape(ToBytes(s)), 0, escape, 0);
    BackToChars(s);
  }

  /** What loading makes of a recorded program. */
  lemma PlayedIffKeepable(prog: seq<BasicProgram.Line>, escape: nat -> bool)
    requires Entered(prog) && BasicFile.Savable(prog) && forall k :: !escape(k)
    ensures EightBit(BasicFile.Serial(prog))
    ensures BasicFile.Loaded(TextHeard(KcsSpec.Tape(ToBytes(BasicFile.Serial(prog))), escape), []) == prog
      <==> BasicFile.Keepable(prog)
  {
    SerialEightBit(prog);
    BasicFile.SerialSize(prog);
    RecordedIsHeard(BasicFile.Serial(prog), escape);
    BasicFile.LoadUndoesSaveIff(prog);
  }

  method CharsOf(data: seq<byte>) returns (buf: array<char>)
    requires |data| < BasicFile.BASIC_SAVE_BUF
    ensures fresh(buf) && buf.Length == BasicFile.BASIC_SAVE_BUF && buf[..|data|] == ToChars(data)
  {
    buf := new char[BasicFile.BASIC_SAVE_BUF](i => if 0 <= i < |data| then data[i] as char else '\0');
  }

  /** CSAVE up to the recording it writes: the text of the program, and the samples of that text.
      Nothing is recorded of no program, of one whose numbers overrun the digits kept for them,
      or of one too long for the buffer. */
  method RecordProgram(store: BasicStore.Store) returns (recorded: bool, tape: seq<byte>)
    requires store.Valid() && Entered(store.View())
    ensures recorded <==> store.size > 0 && BasicFile.Savable(store.View())
                          && |BasicFile.Serial(store.View())| <= Kcs.TAPE_MAX
    ensures recorded ==> EightBit(BasicFile.Serial(store.View()))
                         && tape == KcsSpec.Tape(ToBytes(BasicFile.Serial(store.View())))
  {
    tape := [];
    if store.size == 0 { return false, tape; }
    var buf := new char[BasicFile.BASIC_SAVE_BUF];
    var fits, bp := store.Save(buf);
    if !fits { return false, tape; }
    SerialEightBit(store.View());
    var recorder := new Kcs.Recorder();
    recorded := recorder.Record(ToBytes(buf[..bp]));
    if recorded { tape := recorder.wav[Kcs.WAV_HEADER..recorder.pos]; }
  }

  /** CLOAD: everything heard of a tape, read as a program. */
  method PlayProgram(tape: seq<byte>, escape: nat -> bool) returns (prog: seq<BasicProgram.Line>)
    ensures prog == BasicFile.Loaded(TextHeard(tape, escape), [])
  {
    var listener := new Kcs.Listener(tape);
    var data, end := listener.Receive(BasicFile.BASIC_SAVE_BUF - 1, escape);
    var buf := CharsOf(data);
    var store := new BasicStore.Store();
    store.Load(buf, |data|);
    prog := store.lines[..store.size];
  }

  /** A program recorded and played back to the end, by the code: the recording succeeds and
      gives the same program, if and only if the program is recordable. */
  method RecordAndPlay(store: BasicStore.Store, escape: nat -> bool)
    returns (recorded: bool, prog: seq<BasicProgram.Line>)
    requires store.Valid() && Entered(store.View()) && forall k :: !escape(k)
    ensures recorded && prog == store.View() <==> Recordable(store.View())
    ensures !recorded <==> store.View() == [] || !BasicFile.Savable(store.View())
                           || |BasicFile.Serial(store.View())| > Kcs.TAPE_MAX
  {
    var tape;
    recorded, tape := RecordProgram(store);
    prog := [];
    if recorded {
      PlayedIffKeepable(store.View(), escape);
      prog := PlayProgram(tape, escape);
    }
  }

  lemma {:induction false} SerialAtLeast(prog: seq<BasicProgram.Line>)
    requires forall i | 0 <= i < |prog| :: prog[i].num >= 0 && |prog[i].text| == 127
    ensures |BasicFile.Serial(prog)| >= 130 * |prog|
    decreases |prog|
  {
    if prog != [] {
      FullLineAtLeast(prog[0]);
      SerialAtLeast(prog[1..]);
    }
  }

  lemma FullLineAtLeast(l: BasicProgram.Line)
    requires l.num >= 0 && |l.text| == 127
    ensures |BasicFile.LineText(l)| >= 130
  {
    BasicFile.DigitsCount(l.num, 1);
  }

  /** Sixty full lines: every program of that kind is saved to disk and loaded again, and none
      can be recorded. */
  lemma LongProgramNotRecordable(prog: seq<BasicProgram.Line>)
    requires Entered(prog) && |prog| == 60 && forall i | 0 <= i < 60 :: prog[i].num == i + 1 && |prog[i].text| == 127
    ensures BasicFile.Keepable(prog) && !Recordable(prog)
  {
    SerialAtLeast(prog);
  }

  /** There is such a program. */
  lemma LongProgram() returns (prog: seq<BasicProgram.Line>)
    ensures Entered(prog) && BasicFile.Keepable(prog) && !Recordable(prog)
  {
    prog := seq(60, i requires 0 <= i < 60 => BasicProgram.Line(i + 1, seq(127, _ => 'A')));
    LongProgramNotRecordable(prog);
  }
}
