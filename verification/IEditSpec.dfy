/** The text of the editor as lines and as one string (shell/iedit.c). */
module IEditSpec {

  const MAX_LINES: nat := 200
  const MAX_COL: nat := 74
  const IEDIT_SAVE_BUF: nat := 16384

  type Lines = ls: seq<string> | ls != [] witness [""]

  /** Every line fits a row and every text the table; line ends are not characters of a line. */
  ghost predicate Fits(ls: Lines) {
    |ls| <= MAX_LINES && forall r | 0 <= r < |ls| :: |ls[r]| <= MAX_COL && Plain(ls[r])
  }

  predicate IsLineEnd(c: char) { c == '\n' || c == '\r' }

  predicate Plain(s: string) {
    forall i | 0 <= i < |s| :: !IsLineEnd(s[i])
  }

  ghost predicate CursorIn(ls: Lines, row: nat, col: nat) {
    row < |ls| && col <= |ls[row]|
  }

  // ----- the flat text -----

  /** The lines joined by newlines. */
  function Flat(ls: Lines): string {
    if |ls| == 1 then ls[0] else ls[0] + "\n" + Flat(ls[1..])
  }

  /** The flat text before, and after, line `row`. */
  function Before(ls: Lines, row: nat): string
    requires row < |ls|
  {
    if row == 0 then "" else Flat(ls[..row]) + "\n"
  }

  function After(ls: Lines, row: nat): string
    requires row < |ls|
  {
    if row + 1 == |ls| then "" else "\n" + Flat(ls[row + 1..])
  }

  /** Where the cursor is in the flat text. */
  function Index(ls: Lines, row: nat, col: nat): nat
    requires row < |ls|
  {
    |Before(ls, row)| + col
  }

  lemma {:induction false} FlatJoined(a: Lines, b: Lines)
    ensures Flat(a + b) == Flat(a) + "\n" + Flat(b)
    decreases |a|
  {
    if |a| == 1 {
      assert (a + b)[1..] == b;
    } else {
      FlatJoined(a[1..], b);
      assert (a + b)[1..] == a[1..] + b;
    }
  }

  lemma FlatHead(ls: Lines, row: nat)
    requires row < |ls|
    ensures Flat(ls) == Before(ls, row) + Flat(ls[row..])
  {
    SplitJoins(ls, row);
    if row > 0 { FlatJoined(ls[..row], ls[row..]); }
  }

  lemma SplitJoins<T>(s: seq<T>, i: nat)
    requires i <= |s|
    ensures s[..i] + s[i..] == s && s[0..] == s
  {
  }

  lemma FlatTail(ls: Lines, row: nat)
    requires row < |ls|
    ensures Flat(ls[row..]) == ls[row] + After(ls, row)
  {
    if row + 1 < |ls| {
      FlatJoined([ls[row]], ls[row + 1..]);
      assert [ls[row]] + ls[row + 1..] == ls[row..];
      assert ls[row] + "\n" + Flat(ls[row + 1..]) == ls[row] + ("\n" + Flat(ls[row + 1..]));
    } else {
      assert ls[row..] == [ls[row]];
    }
  }

  /** The flat text around line `row`. */
  lemma FlatSplit(ls: Lines, row: nat)
    requires row < |ls|
    ensures Flat(ls) == Before(ls, row) + ls[row] + After(ls, row)
  {
    FlatHead(ls, row);
    FlatTail(ls, row);
  }

  function InsertAt(s: string, i: nat, c: char): string
    requires i <= |s|
  {
    s[..i] + [c] + s[i..]
  }

  function DeleteAt(s: string, i: nat): string
    requires i < |s|
  {
    s[..i] + s[i + 1..]
  }

  lemma InsertInside(s: string, a: string, line: string, b: string, col: nat, c: char, at: nat)
    requires col <= |line| && s == a + line + b && at == |a| + col
    ensures InsertAt(s, at, c) == a + InsertAt(line, col, c) + b
  {
    assert s[..at] == a + line[..col];
    assert s[at..] == line[col..] + b;
  }

  lemma DeleteInside(s: string, a: string, line: string, b: string, col: nat, at: nat)
    requires col < |line| && s == a + line + b && at == |a| + col
    ensures DeleteAt(s, at) == a + DeleteAt(line, col) + b
  {
    assert s[..at] == a + line[..col];
    assert s[at + 1..] == line[col + 1..] + b;
  }

  // ----- edits on lines -----

  function Typed(ls: Lines, row: nat, col: nat, c: char): Lines
    requires row < |ls| && col <= |ls[row]|
  {
    ls[row := InsertAt(ls[row], col, c)]
  }

  function Erased(ls: Lines, row: nat, col: nat): Lines
    requires row < |ls| && 0 < col <= |ls[row]|
  {
    ls[row := DeleteAt(ls[row], col - 1)]
  }

  /** Line `row` joined to the one above it. */
  function JoinedUp(ls: Lines, row: nat): Lines
    requires 0 < row < |ls|
  {
    ls[..row - 1] + [ls[row - 1] + ls[row]] + ls[row + 1..]
  }

  function Broken(ls: Lines, row: nat, col: nat): Lines
    requires row < |ls| && col <= |ls[row]|
  {
    ls[..row] + [ls[row][..col], ls[row][col..]] + ls[row + 1..]
  }

  /** Replacing one line leaves the text around it alone. */
  lemma AroundKept(ls: Lines, row: nat, line: string)
    requires row < |ls|
    ensures Before(ls[row := line], row) == Before(ls, row) && After(ls[row := line], row) == After(ls, row)
  {
    assert ls[row := line][..row] == ls[..row];
    assert ls[row := line][row + 1..] == ls[row + 1..];
  }

  lemma FlatReplaced(ls: Lines, row: nat, line: string)
    requires row < |ls|
    ensures Flat(ls[row := line]) == Before(ls, row) + line + After(ls, row)
    ensures Before(ls[row := line], row) == Before(ls, row)
  {
    FlatSplit(ls[row := line], row);
    AroundKept(ls, row, line);
  }

  lemma IndexInside(ls: Lines, row: nat, col: nat)
    requires CursorIn(ls, row, col)
    ensures Index(ls, row, col) <= |Flat(ls)|
  {
    FlatSplit(ls, row);
  }

  lemma TypingFlat(ls: Lines, row: nat, col: nat, c: char)
    requires CursorIn(ls, row, col) && Index(ls, row, col) <= |Flat(ls)|
    ensures Flat(Typed(ls, row, col, c)) == InsertAt(Flat(ls), Index(ls, row, col), c)
  {
    FlatReplaced(ls, row, InsertAt(ls[row], col, c));
    FlatSplit(ls, row);
    InsertInside(Flat(ls), Before(ls, row), ls[row], After(ls, row), col, c, Index(ls, row, col));
  }

  /** Typing inserts at the cursor of the flat text and moves it on by one. */
  lemma TypingInserts(ls: Lines, row: nat, col: nat, c: char)
    requires CursorIn(ls, row, col)
    ensures Index(ls, row, col) <= |Flat(ls)|
    ensures Flat(Typed(ls, row, col, c)) == InsertAt(Flat(ls), Index(ls, row, col), c)
    ensures Index(Typed(ls, row, col, c), row, col + 1) == Index(ls, row, col) + 1
  {
    IndexInside(ls, row, col);
    FlatReplaced(ls, row, InsertAt(ls[row], col, c));
    TypingFlat(ls, row, col, c);
  }

  lemma ErasingFlat(ls: Lines, row: nat, col: nat)
    requires CursorIn(ls, row, col) && 0 < col && Index(ls, row, col) <= |Flat(ls)|
    ensures Flat(Erased(ls, row, col)) == DeleteAt(Flat(ls), Index(ls, row, col) - 1)
  {
    var at := Index(ls, row, col) - 1;
    FlatReplaced(ls, row, DeleteAt(ls[row], col - 1));
    assert DeleteAt(Flat(ls), at) == Before(ls, row) + DeleteAt(ls[row], col - 1) + After(ls, row) by {
      FlatSplit(ls, row);
      DeleteInside(Flat(ls), Before(ls, row), ls[row], After(ls, row), col - 1, at);
    }
  }

  /** Backspace inside a line deletes the character before the cursor of the flat text. */
  lemma ErasingDeletes(ls: Lines, row: nat, col: nat)
    requires CursorIn(ls, row, col) && col > 0
    ensures 0 < Index(ls, row, col) <= |Flat(ls)|
    ensures Flat(Erased(ls, row, col)) == DeleteAt(Flat(ls), Index(ls, row, col) - 1)
    ensures Index(Erased(ls, row, col), row, col - 1) == Index(ls, row, col) - 1
  {
    IndexInside(ls, row, col);
    FlatReplaced(ls, row, DeleteAt(ls[row], col - 1));
    ErasingFlat(ls, row, col);
  }

  lemma BreakInside(s: string, a: string, line: string, b: string, col: nat, at: nat)
    requires col <= |line| && s == a + line + b && at == |a| + col
    ensures InsertAt(s, at, '\n') == a + line[..col] + "\n" + line[col..] + b
  {
    InsertInside(s, a, line, b, col, '\n', at);
    assert a + InsertAt(line, col, '\n') + b == a + line[..col] + "\n" + line[col..] + b;
  }

  lemma BrokenFlat(ls: Lines, row: nat, col: nat)
    requires CursorIn(ls, row, col)
    ensures Flat(Broken(ls, row, col)) == Before(ls, row) + ls[row][..col] + "\n" + ls[row][col..] + After(ls, row)
    ensures Before(Broken(ls, row, col), row + 1) == Before(ls, row) + ls[row][..col] + "\n"
  {
    var bs := Broken(ls, row, col);
    FlatSplit(bs, row);
    FlatSplit(bs, row + 1);
    assert bs[row] == ls[row][..col] && bs[row + 1] == ls[row][col..];
    assert bs[..row] == ls[..row] && bs[row + 2..] == ls[row + 1..];
    assert bs[..row + 1] == ls[..row] + [ls[row][..col]];
    if row > 0 { FlatJoined(ls[..row], [ls[row][..col]]); }
  }

  lemma BreakingFlat(ls: Lines, row: nat, col: nat)
    requires CursorIn(ls, row, col) && Index(ls, row, col) <= |Flat(ls)|
    ensures Flat(Broken(ls, row, col)) == InsertAt(Flat(ls), Index(ls, row, col), '\n')
  {
    FlatSplit(ls, row);
    BreakInside(Flat(ls), Before(ls, row), ls[row], After(ls, row), col, Index(ls, row, col));
    BrokenFlat(ls, row, col);
  }

  /** Enter inserts a newline at the cursor of the flat text. */
  lemma EnterInserts(ls: Lines, row: nat, col: nat)
    requires CursorIn(ls, row, col)
    ensures Index(ls, row, col) <= |Flat(ls)|
    ensures Flat(Broken(ls, row, col)) == InsertAt(Flat(ls), Index(ls, row, col), '\n')
    ensures Index(Broken(ls, row, col), row + 1, 0) == Index(ls, row, col) + 1
  {
    IndexInside(ls, row, col);
    BrokenFlat(ls, row, col);
    BreakingFlat(ls, row, col);
  }

  /** Breaking the joined line where the join was gives the two lines back, and conversely. */
  lemma JoinUndoesBreak(ls: Lines, row: nat, col: nat)
    requires CursorIn(ls, row, col)
    ensures JoinedUp(Broken(ls, row, col), row + 1) == ls
  {
    assert ls[row][..col] + ls[row][col..] == ls[row];
  }

  lemma BreakUndoesJoin(ls: Lines, row: nat)
    requires 0 < row < |ls|
    ensures Broken(JoinedUp(ls, row), row - 1, |ls[row - 1]|) == ls
  {
    assert JoinedUp(ls, row)[row - 1] == ls[row - 1] + ls[row];
  }

  /** Backspace at the start of a line deletes the newline before it. */
  lemma JoiningDeletes(ls: Lines, row: nat)
    requires 0 < row < |ls|
    ensures 0 < Index(ls, row, 0) <= |Flat(ls)|
    ensures Flat(JoinedUp(ls, row)) == DeleteAt(Flat(ls), Index(ls, row, 0) - 1)
    ensures Index(JoinedUp(ls, row), row - 1, |ls[row - 1]|) == Index(ls, row, 0) - 1
  {
    var js, col := JoinedUp(ls, row), |ls[row - 1]|;
    assert js[row - 1] == ls[row - 1] + ls[row];
    BreakUndoesJoin(ls, row);
    EnterInserts(js, row - 1, col);
    InsertUndone(Flat(js), Index(js, row - 1, col), '\n');
  }

  lemma InsertUndone(s: string, i: nat, c: char)
    requires i <= |s|
    ensures DeleteAt(InsertAt(s, i, c), i) == s
  {
  }

  // ----- whole keystrokes -----

  datatype Buffer = Buffer(lines: Lines, row: nat, col: nat)

  ghost predicate BufferOk(b: Buffer) {
    Fits(b.lines) && CursorIn(b.lines, b.row, b.col)
  }

  function Type(b: Buffer, c: char): Buffer
    requires CursorIn(b.lines, b.row, b.col)
  {
    if |b.lines[b.row]| >= MAX_COL then b
    else Buffer(Typed(b.lines, b.row, b.col, c), b.row, b.col + 1)
  }

  function Enter(b: Buffer): Buffer
    requires CursorIn(b.lines, b.row, b.col)
  {
    if |b.lines| >= MAX_LINES then b
    else Buffer(Broken(b.lines, b.row, b.col), b.row + 1, 0)
  }

  function Backspace(b: Buffer): Buffer
    requires CursorIn(b.lines, b.row, b.col)
  {
    if b.col > 0 then Buffer(Erased(b.lines, b.row, b.col), b.row, b.col - 1)
    else if b.row > 0 && |b.lines[b.row - 1]| + |b.lines[b.row]| <= MAX_COL then
      Buffer(JoinedUp(b.lines, b.row), b.row - 1, |b.lines[b.row - 1]|)
    else b
  }

  function DeleteLine(b: Buffer): Buffer
    requires CursorIn(b.lines, b.row, b.col)
  {
    if |b.lines| == 1 then Buffer([""], b.row, 0) else
    var ls: Lines := b.lines[..b.row] + b.lines[b.row + 1..];
    var row := if b.row >= |ls| then |ls| - 1 else b.row;
    Buffer(ls, row, if b.col > |ls[row]| then |ls[row]| else b.col)
  }

  lemma TypeKeeps(b: Buffer, c: char)
    requires BufferOk(b) && !IsLineEnd(c)
    ensures BufferOk(Type(b, c))
  {
    var line, n := b.lines[b.row], Type(b, c).lines;
    assert |line| <= MAX_COL && Plain(line);
    if |line| < MAX_COL {
      assert Plain(InsertAt(line, b.col, c));
      assert forall r | 0 <= r < |n| && r != b.row :: n[r] == b.lines[r];
    }
  }

  lemma EnterKeeps(b: Buffer)
    requires BufferOk(b)
    ensures BufferOk(Enter(b))
  {
    var line, n := b.lines[b.row], Enter(b).lines;
    assert |line| <= MAX_COL && Plain(line);
    if |b.lines| < MAX_LINES {
      assert n == b.lines[..b.row] + [line[..b.col], line[b.col..]] + b.lines[b.row + 1..];
      forall r | 0 <= r < |n| ensures |n[r]| <= MAX_COL && Plain(n[r]) {
        if r < b.row { assert n[r] == b.lines[r]; }
        if r > b.row + 1 { assert n[r] == b.lines[r - 1]; }
      }
    }
  }

  lemma BackspaceKeeps(b: Buffer)
    requires BufferOk(b)
    ensures BufferOk(Backspace(b))
  {
    var line, n := b.lines[b.row], Backspace(b).lines;
    assert |line| <= MAX_COL && Plain(line);
    if b.col > 0 {
      assert Plain(DeleteAt(line, b.col - 1));
      assert forall r | 0 <= r < |n| && r != b.row :: n[r] == b.lines[r];
    } else if b.row > 0 && |b.lines[b.row - 1]| + |line| <= MAX_COL {
      assert Plain(b.lines[b.row - 1] + line);
      forall r | 0 <= r < |n| ensures |n[r]| <= MAX_COL && Plain(n[r]) {
        if r < b.row - 1 { assert n[r] == b.lines[r]; }
        if r > b.row - 1 { assert n[r] == b.lines[r + 1]; }
      }
    }
  }

  lemma DeleteLineKeeps(b: Buffer)
    requires BufferOk(b)
    ensures BufferOk(DeleteLine(b))
  {
    var n := DeleteLine(b).lines;
    if |b.lines| > 1 {
      assert n == b.lines[..b.row] + b.lines[b.row + 1..];
      forall r | 0 <= r < |n| ensures |n[r]| <= MAX_COL && Plain(n[r]) {
        assert n[r] == if r < b.row then b.lines[r] else b.lines[r + 1];
      }
    }
  }

  datatype Key = Char(c: char) | EnterKey | BackspaceKey | DeleteLineKey

  function Press(b: Buffer, k: Key): Buffer
    requires CursorIn(b.lines, b.row, b.col)
  {
    match k
    case Char(c) => Type(b, c)
    case EnterKey => Enter(b)
    case BackspaceKey => Backspace(b)
    case DeleteLineKey => DeleteLine(b)
  }

  /** Every key keeps the buffer within its limits and the cursor in the text. */
  lemma KeyKeepsBuffer(b: Buffer, k: Key)
    requires BufferOk(b) && (k.Char? ==> !IsLineEnd(k.c))
    ensures BufferOk(Press(b, k))
  {
    match k
    case Char(c) => TypeKeeps(b, c);
    case EnterKey => EnterKeeps(b);
    case BackspaceKey => BackspaceKeeps(b);
    case DeleteLineKey => DeleteLineKeeps(b);
  }

  /** A printable key either is refused because the line is full, or inserts at the cursor. */
  lemma TypeRefines(b: Buffer, c: char)
    requires BufferOk(b)
    ensures var i := Index(b.lines, b.row, b.col);
      if |b.lines[b.row]| == MAX_COL then Type(b, c) == b
      else i <= |Flat(b.lines)| && Flat(Type(b, c).lines) == InsertAt(Flat(b.lines), i, c)
           && Index(Type(b, c).lines, Type(b, c).row, Type(b, c).col) == i + 1
  {
    TypingInserts(b.lines, b.row, b.col, c);
  }

  /** Enter is refused only when the table is full. */
  lemma EnterRefines(b: Buffer)
    requires BufferOk(b)
    ensures var i := Index(b.lines, b.row, b.col);
      if |b.lines| == MAX_LINES then Enter(b) == b
      else i <= |Flat(b.lines)| && Flat(Enter(b).lines) == InsertAt(Flat(b.lines), i, '\n')
           && Index(Enter(b).lines, Enter(b).row, Enter(b).col) == i + 1
  {
    EnterInserts(b.lines, b.row, b.col);
  }

  /** Backspace deletes the character before the cursor, be it a newline or not; it does nothing
      exactly at the start of the text and where the joined line would not fit. */
  lemma BackspaceRefines(b: Buffer)
    requires BufferOk(b)
    ensures var i := Index(b.lines, b.row, b.col);
      if i == 0 || (b.col == 0 && |b.lines[b.row - 1]| + |b.lines[b.row]| > MAX_COL) then Backspace(b) == b
      else i <= |Flat(b.lines)| && Flat(Backspace(b).lines) == DeleteAt(Flat(b.lines), i - 1)
           && Index(Backspace(b).lines, Backspace(b).row, Backspace(b).col) == i - 1
  {
    if b.col > 0 {
      ErasingDeletes(b.lines, b.row, b.col);
    } else if b.row > 0 {
      JoiningDeletes(b.lines, b.row);
    }
  }

  /** Without its line `row`, a text loses that line and the line break after it, or for the last
      line the one before it; a text of one line becomes empty. */
  lemma DroppedFlat(ls: Lines, row: nat)
    requires row < |ls| && |ls| > 1
    ensures Flat(ls[..row] + ls[row + 1..]) ==
      if row + 1 < |ls| then Before(ls, row) + Flat(ls[row + 1..]) else Flat(ls[..row])
  {
    if row + 1 == |ls| {
      assert ls[..row] + ls[row + 1..] == ls[..row];
    } else if row > 0 {
      FlatJoined(ls[..row], ls[row + 1..]);
    } else {
      assert ls[..row] + ls[row + 1..] == ls[row + 1..];
    }
  }

  /** A text without the `n` characters of its line at `s`, and without the line break after it, or
      before it if it is the last line. */
  function WithoutLine(f: string, s: nat, n: nat): string
    requires s + n <= |f|
  {
    if s + n < |f| then f[..s] + f[s + n + 1..] else if s > 0 then f[..s - 1] else ""
  }

  lemma WithoutMiddle(f: string, a: string, line: string, rest: string)
    requires f == a + line + ("\n" + rest)
    ensures WithoutLine(f, |a|, |line|) == a + rest
  {
    assert f[..|a|] == a && f[|a| + |line| + 1..] == rest;
  }

  lemma WithoutLast(f: string, a: string, line: string)
    requires f == a + "\n" + line
    ensures WithoutLine(f, |a| + 1, |line|) == a
  {
    assert f[..|a|] == a;
  }

  lemma DroppedIsWithout(ls: Lines, row: nat)
    requires row < |ls| && |ls| > 1
    ensures |Before(ls, row)| + |ls[row]| <= |Flat(ls)|
    ensures Flat(ls[..row] + ls[row + 1..]) == WithoutLine(Flat(ls), |Before(ls, row)|, |ls[row]|)
  {
    var f, line := Flat(ls), ls[row];
    FlatSplit(ls, row);
    DroppedFlat(ls, row);
    if row + 1 < |ls| {
      WithoutMiddle(f, Before(ls, row), line, Flat(ls[row + 1..]));
    } else {
      EmptyTail(Before(ls, row) + line);
      WithoutLast(f, Flat(ls[..row]), line);
    }
  }

  lemma EmptyTail(s: string)
    ensures s + "" == s
  {
  }

  /** Deleting a line takes it out of the text with one line break, and puts the cursor in the line
      that is now in its place. */
  lemma DeleteLineRefines(b: Buffer)
    requires BufferOk(b)
    ensures var s, line, f := Index(b.lines, b.row, 0), b.lines[b.row], Flat(b.lines);
      s + |line| <= |f| && Flat(DeleteLine(b).lines) == WithoutLine(f, s, |line|)
    ensures |DeleteLine(b).lines| == if |b.lines| == 1 then 1 else |b.lines| - 1
    ensures DeleteLine(b).row == if b.row + 1 == |b.lines| > 1 then b.row - 1 else b.row
    ensures var col := |DeleteLine(b).lines[DeleteLine(b).row]|;
      DeleteLine(b).col == if b.col > col then col else b.col
  {
    if |b.lines| > 1 { DroppedIsWithout(b.lines, b.row); }
  }

  /** Whatever a key inserted, backspace takes away again, line breaks included. */
  lemma BackspaceUndoes(b: Buffer, c: char)
    requires BufferOk(b)
    ensures |b.lines[b.row]| < MAX_COL ==> Backspace(Type(b, c)) == b
    ensures |b.lines| < MAX_LINES ==> Backspace(Enter(b)) == b
  {
    if |b.lines[b.row]| < MAX_COL {
      assert DeleteAt(InsertAt(b.lines[b.row], b.col, c), b.col) == b.lines[b.row];
    }
    JoinUndoesBreak(b.lines, b.row, b.col);
  }

  // ----- the file -----

  /** What is saved: every line ended by a newline. */
  function Saved(ls: Lines): string {
    Flat(ls) + "\n"
  }

  /** Reading a file: `done` lines are complete, `cur` is the one being read. */
  function Parsed(s: string, done: seq<string>, cur: string): Lines {
    if s == "" || |done| >= MAX_LINES then
      if cur != "" || done == [] then done + [cur] else done
    else if IsLineEnd(s[0]) then Parsed(s[1..], done + [cur], "")
    else Parsed(s[1..], done, if |cur| < MAX_COL then cur + [s[0]] else cur)
  }

  lemma {:induction false} ParsedLine(line: string, rest: string, done: seq<string>, cur: string)
    requires Plain(line) && |cur| + |line| <= MAX_COL && |done| < MAX_LINES
    ensures Parsed(line + rest, done, cur) == Parsed(rest, done, cur + line)
    decreases |line|
  {
    if line == "" {
      assert line + rest == rest && cur + line == cur;
    } else {
      assert (line + rest)[1..] == line[1..] + rest && (line + rest)[0] == line[0];
      ParsedLine(line[1..], rest, done, cur + [line[0]]);
      assert cur + [line[0]] + line[1..] == cur + line;
    }
  }

  lemma SavedCons(ls: Lines)
    requires |ls| > 1
    ensures Saved(ls) == ls[0] + ("\n" + Saved(ls[1..])) && ("\n" + Saved(ls[1..]))[1..] == Saved(ls[1..])
  {
  }

  lemma ConsLines(done: seq<string>, ls: Lines)
    ensures done + [ls[0]] + ls[1..] == done + ls && "" + ls[0] == ls[0]
  {
  }

  lemma {:induction false} ParsedFrom(ls: Lines, done: seq<string>)
    requires Fits(ls) && |done| + |ls| <= MAX_LINES
    ensures Parsed(Saved(ls), done, "") == done + ls
    decreases |ls|
  {
    var line := ls[0];
    assert |line| <= MAX_COL && Plain(line);
    ConsLines(done, ls);
    if |ls| == 1 {
      ParsedLine(line, "\n", done, "");
      assert ("\n")[1..] == "" && ls[1..] == [];
    } else {
      SavedCons(ls);
      ParsedLine(line, "\n" + Saved(ls[1..]), done, "");
      ParsedFrom(ls[1..], done + [line]);
    }
  }

  /** Saving and loading gives the same lines back, for every buffer the editor can hold. */
  lemma LoadUndoesSave(ls: Lines)
    requires Fits(ls)
    ensures Parsed(Saved(ls), [], "") == ls
  {
    ParsedFrom(ls, []);
  }

  lemma {:induction false} ParsedFits(s: string, done: seq<string>, cur: string)
    requires |done| <= MAX_LINES && (|done| == MAX_LINES ==> cur == "") && |cur| <= MAX_COL && Plain(cur)
    requires forall r | 0 <= r < |done| :: |done[r]| <= MAX_COL && Plain(done[r])
    ensures Fits(Parsed(s, done, cur))
    decreases |s|
  {
    if s != "" && |done| < MAX_LINES {
      if IsLineEnd(s[0]) {
        ParsedFits(s[1..], done + [cur], "");
      } else {
        ParsedFits(s[1..], done, if |cur| < MAX_COL then cur + [s[0]] else cur);
      }
    }
  }

  /** A text of at most 200 lines of at most 74 characters, each ended by a newline, without
      carriage returns: `lines` lines and `col` characters have been read already. */
  predicate EditorFile(s: string, lines: nat, col: nat) {
    if s == "" then lines > 0 && col == 0
    else if lines >= MAX_LINES || s[0] == '\r' then false
    else if s[0] == '\n' then EditorFile(s[1..], lines + 1, 0)
    else col < MAX_COL && EditorFile(s[1..], lines, col + 1)
  }

  function Ended(ls: seq<string>): string {
    if ls == [] then "" else Ended(ls[..|ls| - 1]) + ls[|ls| - 1] + "\n"
  }

  lemma {:induction false} SavedEnded(ls: Lines)
    ensures Saved(ls) == Ended(ls)
    decreases |ls|
  {
    var n := |ls| - 1;
    if n == 0 {
      assert ls[..0] == [] && "" + ls[0] + "\n" == ls[0] + "\n";
    } else {
      SavedEnded(ls[..n]);
      FlatJoined(ls[..n], [ls[n]]);
      assert ls[..n] + [ls[n]] == ls;
    }
  }

  lemma {:induction false} EditorFileKept(s: string, done: seq<string>, cur: string)
    requires EditorFile(s, |done|, |cur|)
    ensures Saved(Parsed(s, done, cur)) == Ended(done) + cur + s
    decreases |s|
  {
    if s == "" {
      SavedEnded(done);
    } else if s[0] == '\n' {
      EditorFileKept(s[1..], done + [cur], "");
      assert (done + [cur])[..|done|] == done;
      assert Ended(done) + cur + "\n" + "" + s[1..] == Ended(done) + cur + s;
    } else {
      EditorFileKept(s[1..], done, cur + [s[0]]);
      assert Ended(done) + (cur + [s[0]]) + s[1..] == Ended(done) + cur + s;
    }
  }

  lemma {:induction false} EditorLine(line: string, rest: string, lines: nat, col: nat)
    requires Plain(line) && col + |line| <= MAX_COL && lines < MAX_LINES
    requires EditorFile(rest, lines, col + |line|)
    ensures EditorFile(line + rest, lines, col)
    decreases |line|
  {
    if line == "" {
      assert line + rest == rest;
    } else {
      assert (line + rest)[1..] == line[1..] + rest && (line + rest)[0] == line[0];
      assert !IsLineEnd(line[0]);
      EditorLine(line[1..], rest, lines, col + 1);
    }
  }

  lemma {:induction false} SavedIsEditorFile(ls: Lines, lines: nat)
    requires Fits(ls) && lines + |ls| <= MAX_LINES
    ensures EditorFile(Saved(ls), lines, 0)
    decreases |ls|
  {
    var line := ls[0];
    assert |line| <= MAX_COL && Plain(line);
    var rest := if |ls| == 1 then "\n" else "\n" + Saved(ls[1..]);
    assert Saved(ls) == line + rest;
    if |ls| > 1 {
      SavedIsEditorFile(ls[1..], lines + 1);
      assert rest[1..] == Saved(ls[1..]);
    } else {
      assert rest[1..] == "";
    }
    EditorLine(line, rest, lines, 0);
  }

  /** Loading a file and saving it unchanged reproduces the file exactly when it is an editor
      file; long lines, carriage returns, extra lines or a missing final newline change it. */
  lemma SaveUndoesLoadIff(s: string)
    ensures Saved(Parsed(s, [], "")) == s <==> EditorFile(s, 0, 0)
  {
    ParsedFits(s, [], "");
    SavedIsEditorFile(Parsed(s, [], ""), 0);
    if EditorFile(s, 0, 0) {
      EditorFileKept(s, [], "");
      assert Ended([]) + "" + s == s;
    }
  }

  lemma {:induction false} SavedSize(ls: Lines)
    requires forall r | 0 <= r < |ls| :: |ls[r]| <= MAX_COL
    ensures |Saved(ls)| <= |ls| * (MAX_COL + 1)
    decreases |ls|
  {
    if |ls| > 1 {
      SavedSize(ls[1..]);
      assert Saved(ls) == ls[0] + "\n" + Saved(ls[1..]);
    }
  }
}
