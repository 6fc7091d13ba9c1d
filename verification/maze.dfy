/** The grid oracle of Maze.py: a maze is a rectangle of characters kept as one
    flat row-major string whose first row is the TOP line of the maze file,
    while coordinates (x, y) start at the BOTTOM-left.  A floor cell carries one
    of the four colour letters; anything else is a wall. */
module MazeGrid {
  import opened Wrappers

  type Cell = (int, int)

  datatype Dir = North | South | East | West

  /** The order in which both localisers list the four moves. */
  const Directions: seq<Dir> := [North, South, East, West]

  function Neighbour(c: Cell, d: Dir): Cell {
    match d
    case North => (c.0, c.1 + 1)
    case South => (c.0, c.1 - 1)
    case East => (c.0 + 1, c.1)
    case West => (c.0 - 1, c.1)
  }

  /** The bump rule both localisers share: a robot at p that tries to move in
      direction d reaches the neighbour when it is a legal cell, and stays at
      p otherwise. */
  function Lands(legal: seq<Cell>, p: Cell, d: Dir): (q: Cell)
    ensures q == Neighbour(p, d) || q == p
    ensures p in legal ==> q in legal
  {
    if Neighbour(p, d) in legal then Neighbour(p, d) else p
  }

  /** `Maze.colors`, always this list in this order. */
  const Colors: seq<char> := ['R', 'G', 'B', 'Y']

  /** What `get_color` answers for a cell that is not a colour. */
  const WallColor: char := 'W'

  /** The margin `__str__` puts in front of every printed row. */
  const Margin: string := "      "

  /** `chars` is the `map` field: the concatenation of the grid lines; `robotloc` holds the robot
      placements as x0, y0, x1, y1, ... */
  datatype Maze = Maze(width: nat, height: nat, chars: seq<char>, robotloc: seq<int>)

  /** What every maze read from a rectangular file satisfies: the flat map
      holds exactly width * height characters and placements come in pairs. */
  predicate Wf(m: Maze) {
    && 1 <= m.width
    && 1 <= m.height
    && |m.chars| == m.width * m.height
    && |m.robotloc| % 2 == 0
  }

  predicate InBounds(m: Maze, x: int, y: int) {
    0 <= x < m.width && 0 <= y < m.height
  }

  lemma MulMono(a: int, b: int, w: int)
    requires 0 <= a <= b && 0 <= w
    ensures a * w <= b * w
  {
  }

  /** If q1 * w + r1 == q2 * w + r2 with both remainders in [0, w), the
      quotients and the remainders agree. */
  lemma MulAddUnique(q1: int, r1: int, q2: int, r2: int, w: int)
    requires 0 <= r1 < w && 0 <= r2 < w
    requires q1 * w + r1 == q2 * w + r2
    ensures q1 == q2 && r1 == r2
  {
    if q1 > q2 {
      var d := q1 - q2;
      assert q1 * w == q2 * w + d * w;
      MulMono(1, d, w);
    } else if q1 < q2 {
      var d := q2 - q1;
      assert q2 * w == q1 * w + d * w;
      MulMono(1, d, w);
    }
  }

  /** Position of cell (x, y) in the flat map: the y axis is flipped because
      the map starts with the top line. */
  function Index(m: Maze, x: int, y: int): (i: int)
    ensures InBounds(m, x, y) ==> 0 <= i < m.width * m.height
  {
    if InBounds(m, x, y) then MulMono(m.height - y - 1, m.height - 1, m.width); (m.height - y - 1) * m.width + x
    else (m.height - y - 1) * m.width + x
  }

  /** Distinct in-grid cells occupy distinct map positions. */
  lemma IndexInjective(m: Maze, x1: int, y1: int, x2: int, y2: int)
    requires InBounds(m, x1, y1) && InBounds(m, x2, y2)
    requires Index(m, x1, y1) == Index(m, x2, y2)
    ensures x1 == x2 && y1 == y2
  {
    MulAddUnique(m.height - y1 - 1, x1, m.height - y2 - 1, x2, m.width);
  }

  /** Probing outside the grid is allowed and answers "not floor". */
  predicate IsFloor(m: Maze, x: int, y: int)
    requires Wf(m)
    ensures IsFloor(m, x, y) ==> InBounds(m, x, y)
  {
    if x < 0 || x >= m.width then false
    else if y < 0 || y >= m.height then false
    else m.chars[Index(m, x, y)] in Colors
  }

  function GetColor(m: Maze, x: int, y: int): (c: char)
    requires Wf(m) && InBounds(m, x, y)
    ensures c == WallColor || c in Colors
    ensures c != WallColor <==> IsFloor(m, x, y)
    ensures c != WallColor ==> c == m.chars[Index(m, x, y)]
  {
    var ch := m.chars[Index(m, x, y)];
    if ch == 'B' then 'B'
    else if ch == 'G' then 'G'
    else if ch == 'R' then 'R'
    else if ch == 'Y' then 'Y'
    else WallColor
  }

  /** The character that draws robot number k: robot 0 is '1', robot 1 is
      '2', and so on along the code points. */
  function RobotChar(k: nat): (c: char)
    requires k < 0xD800 - 0x31
    ensures k < 9 ==> c == "123456789"[k]
    ensures c as int - '1' as int == k
  {
    ('1' as int + k) as char
  }

  // ---------------------------------------------------------------------
  // Robot placements

  function RobotCount(m: Maze): nat {
    |m.robotloc| / 2
  }

  function RobotAt(m: Maze, k: nat): Cell
    requires Wf(m) && k < RobotCount(m)
  {
    (m.robotloc[2 * k], m.robotloc[2 * k + 1])
  }

  method HasRobot(m: Maze, x: int, y: int) returns (found: bool)
    requires Wf(m)
    ensures found <==> InBounds(m, x, y) && exists k :: 0 <= k < RobotCount(m) && RobotAt(m, k) == (x, y)
  {
    if x < 0 || x >= m.width {
      return false;
    }
    if y < 0 || y >= m.height {
      return false;
    }
    var i := 0;
    while i < |m.robotloc|
      invariant 0 <= i <= |m.robotloc| && i % 2 == 0
      invariant forall k :: 0 <= k < i / 2 ==> RobotAt(m, k) != (x, y)
    {
      var rx := m.robotloc[i];
      var ry := m.robotloc[i + 1];
      if rx == x && ry == y {
        assert RobotAt(m, i / 2) == (x, y);
        return true;
      }
      i := i + 2;
    }
    return false;
  }

  // ---------------------------------------------------------------------
  // Counting walls

  /** Walls among the cells (0, y) .. (w - 1, y). */
  function RowWalls(m: Maze, y: int, w: nat): nat
    requires Wf(m)
  {
    if w == 0 then 0 else RowWalls(m, y, w - 1) + (if IsFloor(m, w - 1, y) then 0 else 1)
  }

  /** Walls among the cells with x < w and y < h, counted row by row, i.e. in
      the order of the states of the hidden Markov model. */
  function Walls(m: Maze, w: nat, h: nat): nat
    requires Wf(m)
  {
    if h == 0 then 0 else Walls(m, w, h - 1) + RowWalls(m, h - 1, w)
  }

  /** Walls among the cells (x, 0) .. (x, h - 1). */
  function ColumnWalls(m: Maze, x: int, h: nat): nat
    requires Wf(m)
  {
    if h == 0 then 0 else ColumnWalls(m, x, h - 1) + (if IsFloor(m, x, h - 1) then 0 else 1)
  }

  /** The same count taken column by column, the order `num_walls` uses. */
  function WallsByColumn(m: Maze, w: nat, h: nat): nat
    requires Wf(m)
  {
    if w == 0 then 0 else WallsByColumn(m, w - 1, h) + ColumnWalls(m, w - 1, h)
  }

  lemma {:induction false} WallsAddColumn(m: Maze, w: nat, h: nat)
    requires Wf(m)
    ensures Walls(m, w + 1, h) == Walls(m, w, h) + ColumnWalls(m, w, h)
  {
    if h > 0 {
      WallsAddColumn(m, w, h - 1);
    }
  }

  /** Counting the walls by columns or by rows gives the same number. */
  lemma {:induction false} WallsByColumnIsWalls(m: Maze, w: nat, h: nat)
    requires Wf(m)
    ensures WallsByColumn(m, w, h) == Walls(m, w, h)
  {
    if w == 0 {
      ZeroWidthNoWalls(m, h);
    } else {
      WallsByColumnIsWalls(m, w - 1, h);
      WallsAddColumn(m, w - 1, h);
    }
  }

  lemma {:induction false} ZeroWidthNoWalls(m: Maze, h: nat)
    requires Wf(m)
    ensures Walls(m, 0, h) == 0
  {
    if h > 0 {
      ZeroWidthNoWalls(m, h - 1);
    }
  }

  /** A w-by-h block holds at most w * h walls. */
  lemma {:induction false} WallsBound(m: Maze, w: nat, h: nat)
    requires Wf(m)
    ensures Walls(m, w, h) <= w * h
  {
    if h > 0 {
      WallsBound(m, w, h - 1);
      RowWallsBound(m, h - 1, w);
      assert w * h == w * (h - 1) + w;
    }
  }

  lemma {:induction false} RowWallsBound(m: Maze, y: int, w: nat)
    requires Wf(m)
    ensures RowWalls(m, y, w) <= w
  {
    if w > 0 {
      RowWallsBound(m, y, w - 1);
    }
  }

  /** `num_walls`: the nested loop visits x in the outer loop and y in the
      inner one; the count is the number of non-floor cells of the grid. */
  method NumWalls(m: Maze) returns (count: nat)
    requires Wf(m)
    ensures count == Walls(m, m.width, m.height)
    ensures count <= m.width * m.height
  {
    count := 0;
    for x := 0 to m.width
      invariant count == WallsByColumn(m, x, m.height)
    {
      for y := 0 to m.height
        invariant count == WallsByColumn(m, x, m.height) + ColumnWalls(m, x, y)
      {
        if !IsFloor(m, x, y) {
          count := count + 1;
        }
      }
    }
    WallsByColumnIsWalls(m, m.width, m.height);
    WallsBound(m, m.width, m.height);
  }

  // ---------------------------------------------------------------------
  // Drawing the robots over the map

  /** Python's list indexing: a negative index counts from the end. */
  function PyIndex(i: int, n: nat): int {
    if i < 0 then i + n else i
  }

  /** The map position that robot k is drawn at. */
  function Slot(m: Maze, k: nat): int
    requires Wf(m) && k < RobotCount(m)
  {
    PyIndex(Index(m, RobotAt(m, k).0, RobotAt(m, k).1), |m.chars|)
  }

  /** Python accepts robot k's list position: it lies in [-len, len). */
  predicate SlotOk(m: Maze, k: nat)
    requires Wf(m) && k < RobotCount(m)
  {
    0 <= Slot(m, k) < |m.chars|
  }

  /** There are few enough robots for each to get its own character. */
  predicate FewRobots(m: Maze) {
    RobotCount(m) < 0xD800 - 0x31
  }

  /** Python accepts the list positions of the first n robots. */
  predicate SlotsOk(m: Maze, n: nat)
    requires Wf(m) && n <= RobotCount(m)
  {
    forall k :: 0 <= k < n ==> SlotOk(m, k)
  }

  /** The map with the first n robots drawn over it, in placement order. */
  function Overlay(m: Maze, n: nat): (r: seq<char>)
    requires Wf(m) && FewRobots(m) && n <= RobotCount(m) && SlotsOk(m, n)
    ensures |r| == |m.chars|
  {
    if n == 0 then m.chars
    else
      assert SlotOk(m, n - 1);
      Overlay(m, n - 1)[Slot(m, n - 1) := RobotChar(n - 1)]
  }

  /** The list `create_render_list` returns, or the IndexError it raises at
      the first robot whose position is not a list position. */
  function RenderList(m: Maze): (r: Result<seq<char>>)
    requires Wf(m) && FewRobots(m)
    ensures r.Err? <==> exists k :: 0 <= k < RobotCount(m) && !SlotOk(m, k)
    ensures r.Err? ==> r.error == IndexError
    ensures r.Ok? ==> |r.value| == |m.chars|
  {
    if SlotsOk(m, RobotCount(m)) then Ok(Overlay(m, RobotCount(m)))
    else Err(IndexError)
  }

  /** A robot placed inside the grid never raises IndexError, so a maze whose
      robots all stand in the grid always renders. */
  lemma PlacedInGridRenders(m: Maze)
    requires Wf(m) && FewRobots(m)
    requires forall k :: 0 <= k < RobotCount(m) ==> InBounds(m, RobotAt(m, k).0, RobotAt(m, k).1)
    ensures RenderList(m).Ok?
  {
    forall k | 0 <= k < RobotCount(m)
      ensures SlotOk(m, k)
    {
      var p := RobotAt(m, k);
      assert 0 <= Index(m, p.0, p.1) < |m.chars|;
    }
  }

  /** The smallest failing case: a 3-by-1 maze with a robot at x = 5, whose
      list position 5 is past the end. */
  lemma OffGridRaises()
    ensures RenderList(Maze(3, 1, "RGB", [5, 0])) == Err(IndexError)
  {
    var m := Maze(3, 1, "RGB", [5, 0]);
    assert RobotAt(m, 0) == (5, 0);
    assert !SlotOk(m, 0);
  }

  /** A position no robot is drawn at keeps its map character. */
  lemma {:induction false} OverlayUntouched(m: Maze, n: nat, p: int)
    requires Wf(m) && FewRobots(m) && n <= RobotCount(m) && SlotsOk(m, n) && 0 <= p < |m.chars|
    requires forall k :: 0 <= k < n ==> Slot(m, k) != p
    ensures Overlay(m, n)[p] == m.chars[p]
  {
    if n > 0 {
      OverlayUntouched(m, n - 1, p);
    }
  }

  /** Where several robots share a position, the one placed last is shown. */
  lemma {:induction false} OverlayLastWins(m: Maze, n: nat, k: nat)
    requires Wf(m) && FewRobots(m) && k < n <= RobotCount(m) && SlotsOk(m, n)
    requires forall k' :: k < k' < n ==> Slot(m, k') != Slot(m, k)
    ensures 0 <= Slot(m, k) < |m.chars| && Overlay(m, n)[Slot(m, k)] == RobotChar(k)
  {
    assert SlotOk(m, k) && SlotOk(m, n - 1);
    if n - 1 != k {
      OverlayLastWins(m, n - 1, k);
    }
  }

  /** `create_render_list`: copy the map, then overwrite each robot's
      position with its character, raising IndexError at the first robot
      whose position Python's list indexing rejects. */
  method CreateRenderList(m: Maze) returns (r: Result<seq<char>>)
    requires Wf(m) && FewRobots(m)
    ensures r == RenderList(m)
  {
    var renderlist := new char[|m.chars|](i requires 0 <= i < |m.chars| => m.chars[i]);
    var robotNumber := 0;
    var index := 0;
    while index < |m.robotloc|
      invariant index == 2 * robotNumber && robotNumber <= RobotCount(m)
      invariant SlotsOk(m, robotNumber)
      invariant renderlist[..] == Overlay(m, robotNumber)
    {
      var x := m.robotloc[index];
      var y := m.robotloc[index + 1];
      assert (x, y) == RobotAt(m, robotNumber);
      var i := Index(m, x, y);
      if !(-renderlist.Length <= i < renderlist.Length) {
        assert !SlotOk(m, robotNumber);
        return Err(IndexError);
      }
      assert PyIndex(i, renderlist.Length) == Slot(m, robotNumber);
      renderlist[PyIndex(i, renderlist.Length)] := RobotChar(robotNumber);
      robotNumber := robotNumber + 1;
      index := index + 2;
    }
    r := Ok(renderlist[..]);
  }

  // ---------------------------------------------------------------------
  // Printing

  /** Characters of one printed row: the cells, a newline, the next margin. */
  function RowWidth(m: Maze): nat {
    m.width + 1 + |Margin|
  }

  /** Offset in the printed text of the first cell of printed row r (row 0 is
      the top line of the maze). */
  function RowStart(m: Maze, r: int): int {
    |Margin| + r * RowWidth(m)
  }

  /** The render-list characters of maze row y, from x = 0 up. */
  function Cells(m: Maze, rl: seq<char>, y: int): (cs: string)
    requires Wf(m) && |rl| == |m.chars| && 0 <= y < m.height
    ensures |cs| == m.width
    ensures forall x :: 0 <= x < m.width ==> cs[x] == rl[Index(m, x, y)]
  {
    seq(m.width, x requires 0 <= x < m.width => rl[Index(m, x, y)])
  }

  /** What `__str__` prints for maze row y: its cells, then a newline and the
      margin of the next row. */
  function Line(m: Maze, rl: seq<char>, y: int): (l: string)
    requires Wf(m) && |rl| == |m.chars| && 0 <= y < m.height
    ensures |l| == RowWidth(m)
  {
    Cells(m, rl, y) + "\n" + Margin
  }

  /** The printed rows, top line (y = height - 1) first. */
  function Lines(m: Maze, rl: seq<char>): (ls: seq<string>)
    requires Wf(m) && |rl| == |m.chars|
    ensures |ls| == m.height
    ensures forall j :: 0 <= j < |ls| ==> |ls[j]| == RowWidth(m)
  {
    seq(m.height, j requires 0 <= j < m.height => Line(m, rl, m.height - 1 - j))
  }

  function Join(ls: seq<string>): string {
    if ls == [] then [] else Join(ls[..|ls| - 1]) + ls[|ls| - 1]
  }

  /** Joining lines of one common length w puts character c of line j at
      offset j * w + c. */
  lemma {:induction false} JoinAt(ls: seq<string>, w: nat, j: int, c: int)
    requires forall i :: 0 <= i < |ls| ==> |ls[i]| == w
    requires 0 <= j < |ls| && 0 <= c < w
    ensures |Join(ls)| == |ls| * w
    ensures 0 <= j * w + c < |Join(ls)| && Join(ls)[j * w + c] == ls[j][c]
  {
    var n := |ls| - 1;
    var front := ls[..n];
    JoinLength(front, w);
    assert Join(ls) == Join(front) + ls[n];
    if j < n {
      JoinAt(front, w, j, c);
    } else {
      assert j * w == |Join(front)|;
    }
  }

  lemma {:induction false} JoinLength(ls: seq<string>, w: nat)
    requires forall i :: 0 <= i < |ls| ==> |ls[i]| == w
    ensures |Join(ls)| == |ls| * w
  {
    if ls != [] {
      JoinLength(ls[..|ls| - 1], w);
    }
  }

  /** `__str__`: the margin, then every maze row from the top line down, each
      followed by a newline and the next margin; the IndexError of
      `create_render_list` propagates. */
  method Render(m: Maze) returns (s: Result<string>)
    requires Wf(m) && FewRobots(m)
    ensures RenderList(m).Err? ==> s == Err(IndexError)
    ensures RenderList(m).Ok? ==> s == Ok(Margin + Join(Lines(m, RenderList(m).value)))
  {
    var built := CreateRenderList(m);
    if built.Err? {
      return Err(built.error);
    }
    var out := PrintRows(m, built.value);
    s := Ok(out);
  }

  /** The printing loops of `__str__` over a render list. */
  method PrintRows(m: Maze, renderlist: seq<char>) returns (out: string)
    requires Wf(m) && |renderlist| == |m.chars|
    ensures out == Margin + Join(Lines(m, renderlist))
  {
    ghost var ls := Lines(m, renderlist);
    out := Margin;
    var y := m.height - 1;
    ghost var j := 0;
    while y >= 0
      invariant -1 <= y <= m.height - 1 && j == m.height - 1 - y
      invariant out == Margin + Join(ls[..j])
    {
      ghost var before := out;
      ghost var cells := Cells(m, renderlist, y);
      for x := 0 to m.width
        invariant out == before + cells[..x]
      {
        assert cells[..x + 1] == cells[..x] + [cells[x]];
        out := out + [renderlist[Index(m, x, y)]];
      }
      assert cells[..m.width] == cells;
      assert ls[j] == Line(m, renderlist, y);
      out := out + "\n" + Margin;
      RowJoined(ls, j);
      y := y - 1;
      j := j + 1;
    }
    assert ls[..j] == ls;
  }

  lemma RowJoined(ls: seq<string>, j: int)
    requires 0 <= j < |ls|
    ensures Join(ls[..j + 1]) == Join(ls[..j]) + ls[j]
  {
    assert ls[..j + 1][..j] == ls[..j];
  }

  /** Where each cell and each row break lands in the printed text: cell
      (x, y) is column x of printed row height - 1 - y, and every printed row
      ends with a newline and the next margin. */
  lemma PrintedCell(m: Maze, rl: seq<char>, x: int, y: int)
    requires Wf(m) && |rl| == |m.chars| && InBounds(m, x, y)
    ensures var k := RowStart(m, m.height - 1 - y) + x;
            && 0 <= k < |Margin + Join(Lines(m, rl))|
            && (Margin + Join(Lines(m, rl)))[k] == rl[Index(m, x, y)]
  {
    var ls := Lines(m, rl);
    var j := m.height - 1 - y;
    JoinAt(ls, RowWidth(m), j, x);
    assert ls[j] == Line(m, rl, y);
  }

  lemma PrintedBreak(m: Maze, rl: seq<char>, r: int, c: int)
    requires Wf(m) && |rl| == |m.chars| && 0 <= r < m.height && m.width <= c < RowWidth(m)
    ensures var k := RowStart(m, r) + c;
            && 0 <= k < |Margin + Join(Lines(m, rl))|
            && (Margin + Join(Lines(m, rl)))[k] == ("\n" + Margin)[c - m.width]
  {
    var ls := Lines(m, rl);
    JoinAt(ls, RowWidth(m), r, c);
    assert ls[r] == Line(m, rl, m.height - 1 - r);
  }

  // ---------------------------------------------------------------------
  // Listing the floor cells

  /** Cell a comes before cell b when x is the outer loop and y the inner one. */
  predicate ColumnMajorLess(a: Cell, b: Cell) {
    a.0 < b.0 || (a.0 == b.0 && a.1 < b.1)
  }

  /** l lists every floor cell exactly once, x in the outer loop and y in the
      inner one. */
  ghost predicate ListsFloorCells(m: Maze, l: seq<Cell>)
    requires Wf(m)
  {
    && (forall c :: c in l <==> IsFloor(m, c.0, c.1))
    && (forall a, b :: 0 <= a < b < |l| ==> ColumnMajorLess(l[a], l[b]))
  }

  /** The floor cells, collected x in the outer loop and y in the inner one
      (the start state of the sensorless problem and the robot's legal
      locations are both built this way). */
  method FloorCells(m: Maze) returns (l: seq<Cell>)
    requires Wf(m)
    ensures ListsFloorCells(m, l)
  {
    l := [];
    for x := 0 to m.width
      invariant forall c :: c in l <==> IsFloor(m, c.0, c.1) && c.0 < x
      invariant forall a, b :: 0 <= a < b < |l| ==> ColumnMajorLess(l[a], l[b])
      invariant forall a :: 0 <= a < |l| ==> l[a].0 < x
    {
      for y := 0 to m.height
        invariant forall c :: c in l <==> IsFloor(m, c.0, c.1) && (c.0 < x || (c.0 == x && c.1 < y))
        invariant forall a, b :: 0 <= a < b < |l| ==> ColumnMajorLess(l[a], l[b])
        invariant forall a :: 0 <= a < |l| ==> ColumnMajorLess(l[a], (x, y))
      {
        if IsFloor(m, x, y) {
          l := l + [(x, y)];
        }
      }
    }
  }

  /** The listing of the floor cells is determined by the maze. */
  lemma {:induction false} FloorListingUnique(m: Maze, l1: seq<Cell>, l2: seq<Cell>)
    requires Wf(m) && ListsFloorCells(m, l1) && ListsFloorCells(m, l2)
    ensures l1 == l2
  {
    SortedSameElementsEqual(l1, l2);
  }

  lemma {:induction false} SortedSameElementsEqual(l1: seq<Cell>, l2: seq<Cell>)
    requires forall a, b :: 0 <= a < b < |l1| ==> ColumnMajorLess(l1[a], l1[b])
    requires forall a, b :: 0 <= a < b < |l2| ==> ColumnMajorLess(l2[a], l2[b])
    requires forall c :: c in l1 <==> c in l2
    ensures l1 == l2
  {
    if l1 != [] && l2 != [] {
      var h1, h2 := l1[0], l2[0];
      assert h1 in l2 && h2 in l1;
      forall c
        ensures c in l1[1..] <==> c in l2[1..]
      {
        if c in l1[1..] {
          var i :| 1 <= i < |l1| && l1[i] == c;
          assert ColumnMajorLess(l1[0], l1[i]);
          assert c in l1;
          var j :| 0 <= j < |l2| && l2[j] == c;
          assert j != 0;
          assert l2[1..][j - 1] == c;
        }
        if c in l2[1..] {
          var i :| 1 <= i < |l2| && l2[i] == c;
          assert ColumnMajorLess(l2[0], l2[i]);
          assert c in l2;
          var j :| 0 <= j < |l1| && l1[j] == c;
          assert j != 0;
          assert l1[1..][j - 1] == c;
        }
      }
      SortedSameElementsEqual(l1[1..], l2[1..]);
      assert l1 == [h1] + l1[1..];
      assert l2 == [h2] + l2[1..];
    } else if l1 != [] {
      HeadIn(l1);
      assert false;
    } else if l2 != [] {
      HeadIn(l2);
      assert false;
    }
  }

  lemma HeadIn<T>(l: seq<T>)
    requires l != []
    ensures l[0] in l
  {
  }
}
