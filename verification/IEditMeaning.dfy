/** What the editor makes of any file, line by line. */
module IEditMeaning {
  import opened IEditSpec

  /** What fits a row of a line. */
  function Cut(line: string): string {
    if |line| <= 74 then line else line[..74]
  }

  lemma {:induction false} LineTaken(line: string, rest: string, done: seq<string>, cur: string)
    requires (forall i | 0 <= i < |line| :: line[i] != '\n' && line[i] != '\r') && |done| < 200 && |cur| <= 74
    ensures Parsed(line + rest, done, cur) == Parsed(rest, done, Cut(cur + line))
    decreases |line|
  {
    if line == "" {
      assert line + rest == rest && cur + line == cur;
    } else {
      var c, t := line[0], line[1..];
      var next := if |cur| < 74 then cur + [c] else cur;
      assert (line + rest)[0] == c && (line + rest)[1..] == t + rest;
      LineTaken(t, rest, done, next);
      CutLater(cur, c, t, line);
    }
  }

  lemma CutLater(cur: string, c: char, t: string, line: string)
    requires |cur| <= 74 && line == [c] + t
    ensures Cut((if |cur| < 74 then cur + [c] else cur) + t) == Cut(cur + line)
  {
    assert cur + line == cur + [c] + t;
    if |cur| == 74 { assert (cur + t)[..74] == cur == (cur + line)[..74] || t == ""; }
  }

  /** A line ended by a newline or a carriage return becomes a row, cut after 74 characters. */
  lemma LineRead(line: string, end: char, rest: string, done: seq<string>)
    requires (forall i | 0 <= i < |line| :: line[i] != '\n' && line[i] != '\r') && (end == '\n' || end == '\r')
    requires |done| < 200
    ensures Parsed(line + ([end] + rest), done, "") == Parsed(rest, done + [Cut(line)], "")
  {
    LineTaken(line, [end] + rest, done, "");
    assert "" + line == line && ([end] + rest)[1..] == rest;
  }

  /** What is left without a line end becomes a row too, unless it is empty; an empty file is one empty row. */
  lemma LastRead(line: string, done: seq<string>)
    requires (forall i | 0 <= i < |line| :: line[i] != '\n' && line[i] != '\r') && |done| < 200
    ensures Parsed(line, done, "") == if line != "" || done == [] then done + [Cut(line)] else done
  {
    LineTaken(line, "", done, "");
    assert line + "" == line && "" + line == line;
  }

  /** After 200 rows the rest is not read. */
  lemma RestIgnored(s: string, done: seq<string>)
    requires |done| >= 200
    ensures Parsed(s, done, "") == done
  {
  }

  /** The files that are reproduced are those the editor writes, and no others. */
  lemma ReproducedIff(s: string)
    ensures Saved(Parsed(s, [], "")) == s <==> exists ls :: Fits(ls) && s == Saved(ls)
  {
    ParsedFits(s, [], "");
    forall ls | Fits(ls) && s == Saved(ls)
      ensures Saved(Parsed(s, [], "")) == s
    {
      LoadUndoesSave(ls);
    }
    if Saved(Parsed(s, [], "")) == s {
      assert Fits(Parsed(s, [], ""));
    }
  }

  /** What a saved text looks like. */
  lemma Sample()
    ensures Saved(["one", "", "three"]) == "one\n\nthree\n"
  {
    var ls := ["one", "", "three"];
    assert ls[1..] == ["", "three"] && ["", "three"][1..] == ["three"];
    assert Flat(["three"]) == "three";
    assert Flat(["", "three"]) == "\nthree";
  }
}
