/** The line-processing part of `Maze.__init__`: every line is stripped,
    blank lines are skipped, a line starting with a backslash is a `\robot x y`
    placement, and every other line is a row of the grid, top row first. */
module MazeReader {
  import opened Wrappers
  import opened Text
  import opened MazeGrid

  datatype LineKind = Blank | Directive(parms: seq<string>) | GridRow(row: string)

  /** How one line of a maze file is read, after `strip()`. */
  function Classify(line: string): (k: LineKind)
    ensures k.Blank? <==> Strip(line) == []
    ensures k.Directive? ==> k.parms == Split(Strip(line)) && Strip(line)[0] == '\\'
    ensures k.GridRow? ==> k.row == Strip(line) && k.row != [] && k.row[0] != '\\'
  {
    var t := Strip(line);
    if |t| == 0 then Blank
    else if t[0] == '\\' then Directive(Split(t))
    else GridRow(t)
  }

  /** `x = int(parms[1]); y = int(parms[2])`, with the exceptions in the
      order Python raises them. */
  function DirectiveCoords(parms: seq<string>): (r: Result<(int, int)>)
    ensures r.Ok? <==> |parms| >= 3 && ParseInt(parms[1]).Some? && ParseInt(parms[2]).Some?
    ensures r.Ok? ==> r.value == (ParseInt(parms[1]).value, ParseInt(parms[2]).value)
    ensures r == Err(IndexError) <==> |parms| < 2 || (ParseInt(parms[1]).Some? && |parms| < 3)
  {
    if |parms| < 2 then Err(IndexError)
    else
      var x := ParseInt(parms[1]);
      if x.None? then Err(ValueError)
      else if |parms| < 3 then Err(IndexError)
      else
        var y := ParseInt(parms[2]);
        if y.None? then Err(ValueError)
        else Ok((x.value, y.value))
  }

  /** What one more line does to `robotloc` (or to the exception already
      raised). */
  function PlaceStep(before: Result<seq<int>>, line: string): Result<seq<int>> {
    if before.Err? then before
    else match Classify(line)
      case Directive(parms) =>
        (match DirectiveCoords(parms)
         case Err(e) => Err(e)
         case Ok(c) => Ok(before.value + [c.0, c.1]))
      case _ => before
  }

  /** `robotloc` after reading the lines ls: two integers per placement line,
      or the exception of the first malformed one. */
  function Placements(ls: seq<string>): Result<seq<int>> {
    if ls == [] then Ok([]) else PlaceStep(Placements(ls[..|ls| - 1]), ls[|ls| - 1])
  }

  function GridStep(before: seq<string>, line: string): seq<string> {
    match Classify(line)
    case GridRow(row) => before + [row]
    case _ => before
  }

  /** The stripped grid rows among ls, in file order. */
  function GridLines(ls: seq<string>): seq<string> {
    if ls == [] then [] else GridStep(GridLines(ls[..|ls| - 1]), ls[|ls| - 1])
  }

  lemma PrefixStep(ls: seq<string>, i: nat)
    requires i < |ls|
    ensures Placements(ls[..i + 1]) == PlaceStep(Placements(ls[..i]), ls[i])
    ensures GridLines(ls[..i + 1]) == GridStep(GridLines(ls[..i]), ls[i])
  {
    assert ls[..i + 1][..i] == ls[..i];
  }

  /** `"".join(rows)`. */
  function Concat(rows: seq<string>): string {
    if rows == [] then [] else Concat(rows[..|rows| - 1]) + rows[|rows| - 1]
  }

  /** The maze the lines describe: the first exception, an IndexError from
      `lines[0]` when there is no grid row, or the maze. */
  function Read(ls: seq<string>): Result<Maze> {
    var p := Placements(ls);
    var g := GridLines(ls);
    if p.Err? then Err(p.error)
    else if g == [] then Err(IndexError)
    else Ok(Maze(|g[0]|, |g|, Concat(g), p.value))
  }

  /** `Maze.__init__` over the lines of the file. */
  method Parse(lines: seq<string>) returns (r: Result<Maze>)
    ensures r == Read(lines)
  {
    var robotloc: seq<int> := [];
    var rows: seq<string> := [];
    assert lines[..0] == [];
    for i := 0 to |lines|
      invariant Placements(lines[..i]) == Ok(robotloc)
      invariant rows == GridLines(lines[..i])
    {
      PrefixStep(lines, i);
      var line := Strip(lines[i]);
      if |line| == 0 {
        assert Classify(lines[i]) == Blank;
        assert PlaceStep(Ok(robotloc), lines[i]) == Ok(robotloc);
        assert GridStep(rows, lines[i]) == rows;
      } else if line[0] == '\\' {
        var parms := Split(line);
        var coords := DirectiveCoords(parms);
        assert Classify(lines[i]) == Directive(parms);
        if coords.Err? {
          ErrorPersists(lines, i + 1);
          return Err(coords.error);
        }
        robotloc := robotloc + [coords.value.0, coords.value.1];
      } else {
        assert Classify(lines[i]) == GridRow(line);
        assert PlaceStep(Ok(robotloc), lines[i]) == Ok(robotloc);
        assert GridStep(rows, lines[i]) == rows + [line];
        rows := rows + [line];
      }
    }
    assert lines[..|lines|] == lines;
    if |rows| == 0 {
      return Err(IndexError);
    }
    r := Ok(Maze(|rows[0]|, |rows|, Concat(rows), robotloc));
  }

  /** Once a placement line fails, no later line can undo the exception. */
  lemma {:induction false} ErrorPersists(ls: seq<string>, k: nat)
    requires k <= |ls| && Placements(ls[..k]).Err?
    ensures Placements(ls) == Placements(ls[..k])
    decreases |ls| - k
  {
    if k < |ls| {
      PrefixStep(ls, k);
      ErrorPersists(ls, k + 1);
    } else {
      assert ls[..k] == ls;
    }
  }

  // ---------------------------------------------------------------------
  // What reading guarantees

  /** Number of placement lines among ls. */
  function DirectiveCount(ls: seq<string>): nat {
    if ls == [] then 0
    else DirectiveCount(ls[..|ls| - 1]) + (if Classify(ls[|ls| - 1]).Directive? then 1 else 0)
  }

  /** Every placement line adds exactly two integers, so `robotloc` has even
      length. */
  lemma {:induction false} PlacementsPairUp(ls: seq<string>)
    requires Placements(ls).Ok?
    ensures |Placements(ls).value| == 2 * DirectiveCount(ls)
  {
    if ls != [] {
      PlacementsPairUp(ls[..|ls| - 1]);
    }
  }

  /** Blank lines, wherever they are, change nothing. */
  function NonBlank(ls: seq<string>): (r: seq<string>)
    ensures |r| <= |ls|
  {
    if ls == [] then []
    else if Classify(ls[|ls| - 1]).Blank? then NonBlank(ls[..|ls| - 1])
    else NonBlank(ls[..|ls| - 1]) + [ls[|ls| - 1]]
  }

  lemma {:induction false} BlankLinesIgnored(ls: seq<string>)
    ensures Placements(NonBlank(ls)) == Placements(ls)
    ensures GridLines(NonBlank(ls)) == GridLines(ls)
    ensures Read(NonBlank(ls)) == Read(ls)
  {
    if ls != [] {
      var front := ls[..|ls| - 1];
      var last := ls[|ls| - 1];
      BlankLinesIgnored(front);
      if Classify(last).Blank? {
        assert NonBlank(ls) == NonBlank(front);
        assert Placements(ls) == Placements(front);
        assert GridLines(ls) == GridLines(front);
      } else {
        var nb := NonBlank(front) + [last];
        assert nb[..|nb| - 1] == NonBlank(front);
        assert NonBlank(ls) == nb;
        assert Placements(nb) == PlaceStep(Placements(front), last);
        assert GridLines(nb) == GridStep(GridLines(front), last);
      }
    }
  }

  lemma {:induction false} ConcatLength(rows: seq<string>, w: nat)
    requires forall k :: 0 <= k < |rows| ==> |rows[k]| == w
    ensures |Concat(rows)| == |rows| * w
  {
    if rows != [] {
      var front := rows[..|rows| - 1];
      assert forall k :: 0 <= k < |front| ==> |front[k]| == w by {
        forall k | 0 <= k < |front| ensures |front[k]| == w {
          assert front[k] == rows[k];
        }
      }
      ConcatLength(front, w);
      assert |Concat(rows)| == |Concat(front)| + |rows[|rows| - 1]|;
      assert (|rows| - 1) * w + w == |rows| * w;
    }
  }

  /** A file whose grid rows all have the width of the first one yields a
      well-formed maze. */
  lemma ReadWellFormed(ls: seq<string>)
    requires Read(ls).Ok?
    requires forall k :: 0 <= k < |GridLines(ls)| ==> |GridLines(ls)[k]| == |GridLines(ls)[0]|
    ensures Wf(Read(ls).value)
    ensures Read(ls).value.height == |GridLines(ls)|
    ensures Read(ls).value.robotloc == Placements(ls).value
  {
    var g := GridLines(ls);
    var m := Read(ls).value;
    assert g[0] != [] by {
      GridRowsNonEmpty(ls);
    }
    assert |m.chars| == m.width * m.height by {
      ConcatLength(g, |g[0]|);
      assert |g| * |g[0]| == |g[0]| * |g|;
    }
    assert |m.robotloc| % 2 == 0 by {
      PlacementsPairUp(ls);
      DoubleIsEven(DirectiveCount(ls));
    }
  }

  lemma DoubleIsEven(n: nat)
    ensures (2 * n) % 2 == 0
  {
  }

  lemma {:induction false} GridRowsNonEmpty(ls: seq<string>)
    ensures forall k :: 0 <= k < |GridLines(ls)| ==> GridLines(ls)[k] != []
  {
    if ls != [] {
      GridRowsNonEmpty(ls[..|ls| - 1]);
    }
  }

  // ---------------------------------------------------------------------
  // The placement line format

  /** A `\robot x y` line as a maze file writes it. */
  function RobotLine(x: int, y: int): string {
    "\\robot " + ShowInt(x) + " " + ShowInt(y)
  }

  /** Reading a `\robot x y` line gives back x and y. */
  lemma RobotLineRoundTrip(x: int, y: int)
    ensures Classify(RobotLine(x, y)).Directive?
    ensures DirectiveCoords(Classify(RobotLine(x, y)).parms) == Ok((x, y))
  {
    RobotLineStrips(x, y);
    RobotLineWords(x, y);
    CoordsRoundTrip(x, y);
  }

  /** A placement line has no whitespace at either end and starts with the
      backslash of a directive. */
  lemma RobotLineStrips(x: int, y: int)
    ensures Strip(RobotLine(x, y)) == RobotLine(x, y) && RobotLine(x, y)[0] == '\\'
  {
    var line := RobotLine(x, y);
    ShowIntWord(y);
    assert line[|line| - 1] == ShowInt(y)[|ShowInt(y)| - 1];
    StripUnspaced(line);
  }

  /** `split()` cuts a placement line into its three words. */
  lemma RobotLineWords(x: int, y: int)
    ensures Split(RobotLine(x, y)) == ["\\robot", ShowInt(x), ShowInt(y)]
  {
    var ws := ["\\robot", ShowInt(x), ShowInt(y)];
    assert Unwords(ws) == RobotLine(x, y) by {
      assert Unwords(ws[1..]) == ShowInt(x) + " " + ShowInt(y) by {
        assert ws[1..][1..] == [ShowInt(y)];
      }
    }
    ShowIntWord(x);
    ShowIntWord(y);
    assert Words(ws);
    SplitUnwords(ws);
  }

  lemma CoordsRoundTrip(x: int, y: int)
    ensures DirectiveCoords(["\\robot", ShowInt(x), ShowInt(y)]) == Ok((x, y))
  {
    ParseShowInt(x);
    ParseShowInt(y);
  }

  lemma ShowIntWord(n: int)
    ensures ShowInt(n) != [] && NoSpace(ShowInt(n))
  {
  }

  /** A line with no whitespace at either end is its own `strip()`. */
  lemma StripUnspaced(s: string)
    requires s != [] && !IsSpace(s[0]) && !IsSpace(s[|s| - 1])
    ensures Strip(s) == s
  {
  }
}
