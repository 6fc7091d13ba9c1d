/** The `sensor_problem` class: it builds the hidden Markov model of a maze
    cell by cell, in nested loops over the rows and columns, and runs the
    forward filter over the colours its robot sensed.  Each method is proved
    to build exactly the object of the same name in `HiddenMarkov`. */
module SensorLocalizer {
  import opened Wrappers
  import opened MazeGrid
  import opened Linear
  import opened HiddenMarkov
  import RobotSim

  /** Every reading of a walk that succeeded is one of the four colours. */
  lemma ReadingsAreColors(m: Maze, legal: seq<Cell>, start: Cell, draws: seq<real>,
                          picks: seq<RobotSim.Pick>, choices: seq<RobotSim.Choice>, n: nat)
    requires Wf(m) && n <= |draws| && n <= |picks| && n <= |choices|
    requires RobotSim.Walk(m, legal, start, draws, picks, choices, n).Ok?
    ensures |RobotSim.Walk(m, legal, start, draws, picks, choices, n).value.readings| == n
    ensures forall t :: 0 <= t < n ==> RobotSim.Walk(m, legal, start, draws, picks, choices, n).value.readings[t] in Colors
  {
    RobotSim.WalkLengths(m, legal, start, draws, picks, choices, n);
    forall t | 0 <= t < n
      ensures RobotSim.Walk(m, legal, start, draws, picks, choices, n).value.readings[t] in Colors
    {
      RobotSim.WalkSensed(m, legal, start, draws, picks, choices, n, t);
    }
  }

  /** keys are the cells of the rows below j, x from 0 to w - 1, and the
      first i cells of row j. */
  ghost predicate CellsBefore(keys: set<Cell>, w: int, j: int, i: int) {
    forall c :: c in keys <==> 0 <= c.0 < w && (0 <= c.1 < j || (c.1 == j && c.0 < i))
  }

  /** There are j * w + i such cells. */
  lemma {:induction false} CellsCount(keys: set<Cell>, w: nat, j: nat, i: nat)
    requires CellsBefore(keys, w, j, i) && i <= w
    ensures |keys| == j * w + i
    decreases j, i
  {
    if i > 0 {
      var rest := keys - {(i - 1, j)};
      assert CellsBefore(rest, w, j, i - 1);
      assert keys == rest + {(i - 1, j)} && (i - 1, j) !in rest;
      CellsCount(rest, w, j, i - 1);
    } else if j > 0 {
      assert CellsBefore(keys, w, j - 1, w);
      CellsCount(keys, w, j - 1, w);
      assert (j - 1) * w + w == j * w;
    } else {
      assert keys == {};
    }
  }

  /** What `make_state_map` has built once it reaches cell (i, j): the
      entries of every earlier cell, the colours of their states, and the
      next state number. */
  ghost predicate MappedBefore(m: Maze, sm: map<Cell, (int, bool)>, added: seq<char>, j: nat, i: nat, state: int)
    requires Wf(m)
  {
    && j <= m.height && i <= m.width && (j < m.height || i == 0)
    && state == FirstState(m, j) + i
    && CellsBefore(sm.Keys, m.width, j, i)
    && StateEntries(m, sm)
    && state <= StateCount(m)
    && added == IndexColors(m)[..state]
  }

  /** One pass of the inner loop: cell (i, j) gets the next state. */
  lemma MapCell(m: Maze, sm: map<Cell, (int, bool)>, added: seq<char>, j: nat, i: nat, state: int)
    requires Wf(m) && MappedBefore(m, sm, added, j, i, state) && i < m.width && j < m.height
    ensures MappedBefore(m, sm[(i, j) := (state, !IsFloor(m, i, j))], added + [GetColor(m, i, j)], j, i + 1, state + 1)
  {
    var colors := IndexColors(m);
    assert state == StateOf(m, (i, j)) && state < |colors| && colors[state] == GetColor(m, i, j) by {
      FirstStateIsProduct(m, j);
      CellOfState(m, (i, j));
    }
    assert colors[..state + 1] == colors[..state] + [colors[state]];
    StateEntriesAdd(m, sm, (i, j));
  }

  /** The end of a row is the start of the next one. */
  lemma MapNextRow(m: Maze, sm: map<Cell, (int, bool)>, added: seq<char>, j: nat, state: int)
    requires Wf(m) && MappedBefore(m, sm, added, j, m.width, state) && j < m.height
    ensures MappedBefore(m, sm, added, j + 1, 0, state)
  {
  }

  /** After the last row the map is the state map and the colours are
      `index_to_color`. */
  lemma MappedAll(m: Maze, sm: map<Cell, (int, bool)>, added: seq<char>, state: int)
    requires Wf(m) && MappedBefore(m, sm, added, m.height, 0, state)
    ensures IsStateMap(m, sm) && |sm| == StateCount(m)
    ensures added == IndexColors(m)
  {
    FirstStateIsProduct(m, m.height);
    CellsCount(sm.Keys, m.width, m.height, 0);
    assert IndexColors(m)[..state] == IndexColors(m);
  }

  /** Cell (i, j) of the grid walk has state FirstState(j) + i, in [0, S),
      and the state map holds it with its wall flag. */
  lemma StateAt(m: Maze, sm: map<Cell, (int, bool)>, i: int, j: nat)
    requires Wf(m) && IsStateMap(m, sm) && 0 <= i < m.width && j < m.height
    ensures (i, j) in sm && sm[(i, j)] == (FirstState(m, j) + i, !IsFloor(m, i, j))
    ensures StateOf(m, (i, j)) == FirstState(m, j) + i < StateCount(m)
    ensures WallFlags(m)[FirstState(m, j) + i] == !IsFloor(m, i, j)
  {
    FirstStateIsProduct(m, j);
    CellOfState(m, (i, j));
  }

  /** What `starting_distribution` has built once it reaches state n. */
  ghost predicate SpreadBefore(m: Maze, p: real, l: seq<real>, n: int)
    requires Wf(m)
  {
    0 <= n <= StateCount(m) && l == Spread(WallFlags(m), p)[..n]
  }

  /** The starting vector once the number of floor cells is known. */
  lemma StartVectorAt(m: Maze, floors: int)
    requires Wf(m) && floors == StateCount(m) - Walls(m, m.width, m.height)
    ensures StartVector(m) == if floors == 0 then Err(ZeroDivisionError)
                              else Ok(Spread(WallFlags(m), 1.0 / floors as real))
  {
  }

  /** One pass of the inner loop of `starting_distribution` appends the
      entry of the next state. */
  lemma SpreadNext(m: Maze, sm: map<Cell, (int, bool)>, p: real, l: seq<real>, i: int, j: nat, n: int)
    requires Wf(m) && IsStateMap(m, sm) && 0 <= i < m.width && j < m.height && n == FirstState(m, j) + i
    requires SpreadBefore(m, p, l, n)
    ensures (i, j) in sm
    ensures SpreadBefore(m, p, l + [if sm[(i, j)].1 then 0.0 else p], n + 1)
  {
    StateAt(m, sm, i, j);
    var goal := Spread(WallFlags(m), p);
    assert goal[..n + 1] == goal[..n] + [goal[n]];
  }

  /** The end of row j is the start of row j + 1, and after the last row
      the vector is complete. */
  lemma SpreadRows(m: Maze, p: real, l: seq<real>, j: nat)
    requires Wf(m)
    ensures SpreadBefore(m, p, l, FirstState(m, j) + m.width) ==> SpreadBefore(m, p, l, FirstState(m, j + 1))
    ensures SpreadBefore(m, p, l, FirstState(m, m.height)) ==> l == Spread(WallFlags(m), p)
  {
    FirstStateIsProduct(m, m.height);
  }

  /** One pass of the loop over the legal moves of floor cell c in
      `make_transition_matrix`: the state of move q is marked unless it is
      the state of c. */
  lemma MarkMove(m: Maze, sm: map<Cell, (int, bool)>, c: Cell, q: nat, row: seq<real>)
    requires Wf(m) && IsStateMap(m, sm) && IsFloor(m, c.0, c.1) && q < |LegalMoves(m, c.0, c.1)|
    requires row == SetAll(StayRow(m, c), OtherStates(m, LegalMoves(m, c.0, c.1)[..q], StateOf(m, c)), 0.25)
    ensures LegalMoves(m, c.0, c.1)[q] in sm
    ensures 0 <= sm[LegalMoves(m, c.0, c.1)[q]].0 < |row|
    ensures (if sm[LegalMoves(m, c.0, c.1)[q]].0 != StateOf(m, c) then row[sm[LegalMoves(m, c.0, c.1)[q]].0 := 0.25] else row)
            == SetAll(StayRow(m, c), OtherStates(m, LegalMoves(m, c.0, c.1)[..q + 1], StateOf(m, c)), 0.25)
  {
    var moves := LegalMoves(m, c.0, c.1);
    var move := moves[q];
    var t := StateOf(m, move);
    assert InBounds(m, move.0, move.1) by {
      MoveInGrid(m, c, q);
    }
    assert move in sm && sm[move].0 == t && 0 <= t < StateCount(m) by {
      CellOfState(m, move);
    }
    var ks := OtherStates(m, moves[..q], StateOf(m, c));
    OtherStatesSnoc(m, moves, q, StateOf(m, c));
    if t != StateOf(m, c) {
      assert OtherStates(m, moves[..q + 1], StateOf(m, c)) == ks + [t];
      SetAllSnoc(StayRow(m, c), ks, t, 0.25);
    } else {
      assert OtherStates(m, moves[..q + 1], StateOf(m, c)) == ks;
    }
  }

  /** Before the loop over the legal moves, the row of floor cell c holds
      only its stay probability. */
  lemma StayFirst(m: Maze, c: Cell, z: seq<real>)
    requires Wf(m) && IsFloor(m, c.0, c.1) && z == Zeros(StateCount(m))
    ensures 0 <= StateOf(m, c) < |z|
    ensures z[StateOf(m, c) := (5 - |LegalMoves(m, c.0, c.1)|) as real / 4.0]
            == SetAll(StayRow(m, c), OtherStates(m, LegalMoves(m, c.0, c.1)[..0], StateOf(m, c)), 0.25)
  {
    CellOfState(m, c);
    assert LegalMoves(m, c.0, c.1)[..0] == [];
  }

  /** Setting entry k of row s of a matrix is setting entry k of the row. */
  lemma UpdateInRow(mat0: seq<seq<real>>, s: int, row: seq<real>, k: int, x: real)
    requires 0 <= s < |mat0| && 0 <= k < |row|
    ensures mat0[s := row][s := mat0[s := row][s][k := x]] == mat0[s := row[k := x]]
  {
  }

  /** The legal moves of (x, y), the checks of `find_legal_moves` written
      out one neighbour at a time. */
  lemma LegalMovesUnrolled(m: Maze, x: int, y: int)
    requires Wf(m)
    ensures LegalMoves(m, x, y)
            == [(x, y)] + (if IsFloor(m, x, y + 1) then [(x, y + 1)] else [])
                        + (if IsFloor(m, x, y - 1) then [(x, y - 1)] else [])
                        + (if IsFloor(m, x + 1, y) then [(x + 1, y)] else [])
                        + (if IsFloor(m, x - 1, y) then [(x - 1, y)] else [])
  {
    var a := Around(x, y);
    var north := if IsFloor(m, x, y + 1) then [(x, y + 1)] else [];
    var south := if IsFloor(m, x, y - 1) then [(x, y - 1)] else [];
    var east := if IsFloor(m, x + 1, y) then [(x + 1, y)] else [];
    var west := if IsFloor(m, x - 1, y) then [(x - 1, y)] else [];
    assert FloorOnly(m, a[..1]) == north by {
      assert a[..1] == [] + [a[0]];
      FloorOnlySnoc(m, [], a[0]);
    }
    assert FloorOnly(m, a[..2]) == north + south by {
      assert a[..2] == a[..1] + [a[1]];
      FloorOnlySnoc(m, a[..1], a[1]);
    }
    assert FloorOnly(m, a[..3]) == north + south + east by {
      assert a[..3] == a[..2] + [a[2]];
      FloorOnlySnoc(m, a[..2], a[2]);
    }
    assert FloorOnly(m, a) == north + south + east + west by {
      assert a == a[..3] + [a[3]];
      FloorOnlySnoc(m, a[..3], a[3]);
    }
    RobotSim.Associative([(x, y)], north, south);
    RobotSim.Associative([(x, y)], north + south, east);
    RobotSim.Associative([(x, y)], north + south + east, west);
  }

  /** Every legal move of a floor cell is in the grid. */
  lemma MoveInGrid(m: Maze, c: Cell, q: nat)
    requires Wf(m) && IsFloor(m, c.0, c.1) && q < |LegalMoves(m, c.0, c.1)|
    ensures InBounds(m, LegalMoves(m, c.0, c.1)[q].0, LegalMoves(m, c.0, c.1)[q].1)
  {
    LegalMovesMembers(m, c.0, c.1);
    assert LegalMoves(m, c.0, c.1)[q] in LegalMoves(m, c.0, c.1);
  }

  /** One more cell adds its state unless it is s. */
  lemma OtherStatesSnoc(m: Maze, ms: seq<Cell>, q: nat, s: int)
    requires q < |ms|
    ensures OtherStates(m, ms[..q + 1], s)
            == OtherStates(m, ms[..q], s) + (if StateOf(m, ms[q]) != s then [StateOf(m, ms[q])] else [])
  {
    assert ms[..q + 1][..q] == ms[..q];
  }

  /** The rows of mat before n are those of goal, the others still zero:
      what the grid walks of `make_transition_matrix` and
      `make_sensor_matrices` have built once they reach state n. */
  ghost predicate RowsFilled(mat: seq<seq<real>>, goal: seq<seq<real>>, n: int) {
    && |mat| == |goal| && 0 <= n <= |goal|
    && forall s {:trigger RowOf(mat, s)} :: 0 <= s < |goal| ==>
         RowOf(mat, s) == if s < n then goal[s] else Zeros(|goal|)
  }

  /** Row s of mat; `RowsFilled` speaks of its rows only through this name,
      so that its quantifier is used only where a proof asks for it. */
  function RowOf(mat: seq<seq<real>>, s: int): seq<real>
    requires 0 <= s < |mat|
  {
    mat[s]
  }

  /** Filling row n. */
  lemma RowFill(mat: seq<seq<real>>, goal: seq<seq<real>>, n: int)
    requires RowsFilled(mat, goal, n) && n < |goal|
    ensures mat[n] == Zeros(|goal|)
    ensures RowsFilled(mat[n := goal[n]], goal, n + 1)
  {
    assert RowOf(mat, n) == mat[n];
    forall s | 0 <= s < |goal|
      ensures RowOf(mat[n := goal[n]], s) == if s < n + 1 then goal[s] else Zeros(|goal|)
    {
      assert RowOf(mat, s) == mat[s];
    }
  }

  /** A row that should stay zero needs no work. */
  lemma RowSkip(mat: seq<seq<real>>, goal: seq<seq<real>>, n: int)
    requires RowsFilled(mat, goal, n) && n < |goal| && goal[n] == Zeros(|goal|)
    ensures RowsFilled(mat, goal, n + 1)
  {
    forall s | 0 <= s < |goal| ensures RowOf(mat, s) == if s < n + 1 then goal[s] else Zeros(|goal|) {
      assert RowOf(mat, s) == mat[s];
    }
  }

  /** One pass of the inner loop of `make_transition_matrix`: cell (i, j)
      has the next state, whose row is still zero; filling it with its
      transition row, or leaving the row of a wall as it is, keeps the rows
      filled up to the following state. */
  lemma TransitionCell(m: Maze, sm: map<Cell, (int, bool)>, mat: seq<seq<real>>, i: int, j: nat)
    requires Wf(m) && IsStateMap(m, sm) && 0 <= i < m.width && j < m.height
    requires RowsFilled(mat, TransitionMatrix(m), FirstState(m, j) + i)
    ensures (i, j) in sm && sm[(i, j)] == (FirstState(m, j) + i, !IsFloor(m, i, j))
    ensures InBounds(m, i, j) && StateOf(m, (i, j)) == FirstState(m, j) + i < |mat|
    ensures mat[FirstState(m, j) + i] == Zeros(StateCount(m)) && |mat| == StateCount(m)
    ensures RowsFilled(mat[FirstState(m, j) + i := TransitionRow(m, FirstState(m, j) + i)],
                       TransitionMatrix(m), FirstState(m, j) + i + 1)
    ensures !IsFloor(m, i, j) ==> RowsFilled(mat, TransitionMatrix(m), FirstState(m, j) + i + 1)
  {
    StateAt(m, sm, i, j);
    var n := FirstState(m, j) + i;
    RowFill(mat, TransitionMatrix(m), n);
    if !IsFloor(m, i, j) {
      WallRow(m, (i, j));
      RowSkip(mat, TransitionMatrix(m), n);
    }
  }

  /** One pass of the inner loops of `make_sensor_matrices` for `color`:
      the diagonal entry of the state of a floor cell becomes the chance of
      sensing `color` there, and the row of a wall stays zero. */
  lemma SensorCell(m: Maze, sm: map<Cell, (int, bool)>, color: char, mat: seq<seq<real>>, i: int, j: nat, n: int)
    requires Wf(m) && IsStateMap(m, sm) && 0 <= i < m.width && j < m.height && n == FirstState(m, j) + i
    requires RowsFilled(mat, SensorMatrix(m, color), n)
    ensures (i, j) in sm && sm[(i, j)] == (n, !IsFloor(m, i, j))
    ensures n < |mat| && |mat[n]| == |mat|
    ensures IsFloor(m, i, j) ==> RowsFilled(mat[n := mat[n][n := Sensed(m, color, i, j)]], SensorMatrix(m, color), n + 1)
    ensures !IsFloor(m, i, j) ==> RowsFilled(mat, SensorMatrix(m, color), n + 1)
  {
    StateAt(m, sm, i, j);
    var goal := SensorMatrix(m, color);
    SensorGoalRow(m, color, i, j);
    RowFill(mat, goal, n);
    if !IsFloor(m, i, j) {
      RowSkip(mat, goal, n);
    } else {
      RowDiagonal(mat, goal, n, Sensed(m, color, i, j));
    }
  }

  /** The row of the state of cell (i, j) in the sensor matrix of `color`. */
  lemma SensorGoalRow(m: Maze, color: char, i: int, j: nat)
    requires Wf(m) && 0 <= i < m.width && j < m.height
    ensures FirstState(m, j) + i < StateCount(m)
    ensures SensorMatrix(m, color)[FirstState(m, j) + i]
            == if IsFloor(m, i, j) then Zeros(StateCount(m))[FirstState(m, j) + i := Sensed(m, color, i, j)]
               else Zeros(StateCount(m))
  {
    FirstStateIsProduct(m, j);
    CellOfState(m, (i, j));
    SensorRowAt(m, color, (i, j));
  }

  /** The chance `make_sensor_matrices` gives of sensing `color` on floor
      cell (i, j): `error_threshold` for its own colour, an equal share of
      the rest for each other one. */
  function Sensed(m: Maze, color: char, i: int, j: int): real
    requires Wf(m) && InBounds(m, i, j)
  {
    if GetColor(m, i, j) == color then RobotSim.ErrorThreshold
    else (1.0 - RobotSim.ErrorThreshold) / (|Colors| - 1) as real
  }

  /** Setting the diagonal entry of row n to the one non-zero entry of the
      goal's row fills that row. */
  lemma RowDiagonal(mat: seq<seq<real>>, goal: seq<seq<real>>, n: int, v: real)
    requires RowsFilled(mat, goal, n) && n < |goal| && goal[n] == Zeros(|goal|)[n := v]
    requires mat[n] == Zeros(|goal|)
    ensures RowsFilled(mat[n := mat[n][n := v]], goal, n + 1)
  {
    RowFill(mat, goal, n);
  }

  /** The end of row j is the start of row j + 1. */
  lemma RowsNextRow(m: Maze, mat: seq<seq<real>>, goal: seq<seq<real>>, j: nat)
    requires RowsFilled(mat, goal, FirstState(m, j) + m.width)
    ensures RowsFilled(mat, goal, FirstState(m, j + 1))
  {
  }

  /** After the last row every state has its row. */
  lemma RowsDone(m: Maze, mat: seq<seq<real>>, goal: seq<seq<real>>)
    requires Wf(m) && |goal| == StateCount(m) && RowsFilled(mat, goal, FirstState(m, m.height))
    ensures mat == goal
  {
    FirstStateIsProduct(m, m.height);
    RowsAll(mat, goal);
  }

  /** Once every row is filled the matrix is the goal. */
  lemma RowsAll(mat: seq<seq<real>>, goal: seq<seq<real>>)
    requires RowsFilled(mat, goal, |goal|)
    ensures mat == goal
  {
    forall s | 0 <= s < |goal| ensures mat[s] == goal[s] {
      assert RowOf(mat, s) == mat[s];
    }
  }

  /** One more pass of `filter` appends the next vector. */
  lemma FilteredNext(T: seq<seq<real>>, O: map<char, seq<seq<real>>>, path: seq<char>,
                     start: seq<real>, root: real -> real, n: nat, r: seq<real>)
    requires n < |path| && forall k :: 0 <= k <= n ==> path[k] in O
    requires r == FilterStep(Filtered(T, O, path, start, root, n)[n], T, O[path[n]], root)
    ensures Filtered(T, O, path, start, root, n + 1) == Filtered(T, O, path, start, root, n) + [r]
  {
  }

  class SensorProblem {
    const maze: Maze
    const robot: RobotSim.Robot
    /** The colours the robot sensed, one per time step. */
    const path: seq<char>
    const timestep: int
    /** The colour of the cell of each state, in state order. */
    var indexToColor: seq<char>
    /** Cell to (state, is a wall). */
    var stateMap: map<Cell, (int, bool)>
    var transitionMatrix: seq<seq<real>>
    var sensorMatrices: map<char, seq<seq<real>>>

    /** Everything `__init__` sets up, described by the reference model. */
    ghost predicate Valid()
      reads this
    {
      && Wf(maze)
      && robot.errorThreshold == RobotSim.ErrorThreshold
      && IsStateMap(maze, stateMap) && |stateMap| == StateCount(maze)
      && indexToColor == IndexColors(maze)
      && transitionMatrix == TransitionMatrix(maze)
      && sensorMatrices == SensorMatrices(maze)
      && |path| == (if timestep > 0 then timestep else 0)
      && forall k :: 0 <= k < |path| ==> path[k] in Colors
    }

    /** `__init__` once the robot has made its readings: the state map, then
        the transition matrix, then the sensor matrices. */
    constructor (maze: Maze, timestep: int, robot: RobotSim.Robot, path: seq<char>)
      requires Wf(maze) && robot.errorThreshold == RobotSim.ErrorThreshold
      requires |path| == (if timestep > 0 then timestep else 0)
      requires forall k :: 0 <= k < |path| ==> path[k] in Colors
      ensures Valid()
      ensures this.maze == maze && this.timestep == timestep
      ensures this.robot == robot && this.path == path
    {
      this.maze := maze;
      this.robot := robot;
      this.path := path;
      this.timestep := timestep;
      indexToColor := [];
      stateMap := map[];
      transitionMatrix := [];
      sensorMatrices := map[];
      new;
      var sm := MakeStateMap();
      assert indexToColor == IndexColors(maze);
      stateMap := sm;
      var tm := MakeTransitionMatrix();
      transitionMatrix := tm;
      var om := MakeSensorMatrices();
      sensorMatrices := om;
    }

    /** `sensor_problem(maze, timestep)`: a robot at the maze's first
        placement makes its readings with the given draws, then the model is
        built.  A robot placed on a wall cannot sense (ValueError). */
    static method Create(maze: Maze, timestep: int, draws: seq<real>,
                         picks: seq<RobotSim.Pick>, choices: seq<RobotSim.Choice>)
      returns (r: Result<SensorProblem>)
      requires Wf(maze) && |maze.robotloc| >= 2
      requires InBounds(maze, maze.robotloc[0], maze.robotloc[1])
      requires timestep <= |draws| && timestep <= |picks| && timestep <= |choices|
      ensures r.Err? <==> 0 < timestep && !IsFloor(maze, maze.robotloc[0], maze.robotloc[1])
      ensures r.Ok? ==> && fresh(r.value) && r.value.Valid()
                        && r.value.maze == maze && r.value.timestep == timestep
                        && var walk := RobotSim.Walk(maze, r.value.robot.legalLocs,
                             (maze.robotloc[0], maze.robotloc[1]), draws, picks, choices,
                             if timestep > 0 then timestep else 0);
                           walk.Ok? && r.value.path == walk.value.readings
    {
      var robot := new RobotSim.Robot(maze, timestep);
      ghost var start := robot.loc;
      ghost var n := if timestep > 0 then timestep else 0;
      var readings := robot.MakeReadings(draws, picks, choices);
      RobotSim.WalkFailsOnlyAtStart(maze, robot.legalLocs, start, draws, picks, choices, n);
      if readings.Err? {
        return Err(readings.error);
      }
      ReadingsAreColors(maze, robot.legalLocs, start, draws, picks, choices, n);
      var p := new SensorProblem(maze, timestep, robot, readings.value);
      r := Ok(p);
    }

    /** `solve` without the rendering: the starting distribution, then the
        filter over the sensed colours.  Every vector it returns is a
        belief. */
    method Solve(root: real -> real) returns (r: Result<seq<seq<real>>>)
      requires Valid() && IsSqrt(root)
      ensures r.Err? <==> StartVector(maze).Err?
      ensures r.Err? ==> r.error == ZeroDivisionError
      ensures r.Ok? ==> r.value == Filtered(TransitionMatrix(maze), SensorMatrices(maze), path,
                                            StartVector(maze).value, root, |path|)
      ensures r.Ok? ==> forall k :: 0 <= k < |r.value| ==> Belief(maze, r.value[k])
    {
      var starting := StartingDistribution();
      if starting.Err? {
        return Err(starting.error);
      }
      var solution := Filter(starting.value, root);
      StartIsUniform(maze);
      FilteredBeliefs(maze, path, starting.value, root, |path|);
      r := Ok(solution);
    }

    /** `filter`: the starting vector, then one vector per time step, each
        the last one predicted, weighed by the sensed colour and
        normalised. */
    method Filter(starting: seq<real>, root: real -> real) returns (distributions: seq<seq<real>>)
      requires |path| == (if timestep > 0 then timestep else 0)
      requires forall k :: 0 <= k < |path| ==> path[k] in sensorMatrices
      ensures distributions == Filtered(transitionMatrix, sensorMatrices, path, starting, root, |path|)
      ensures |distributions| == |path| + 1 && distributions[0] == starting
    {
      distributions := [starting];
      for t := 0 to |path|
        invariant distributions == Filtered(transitionMatrix, sensorMatrices, path, starting, root, t)
      {
        var color := path[t];
        var prev := distributions[t];
        var intermediate := VecMat(prev, transitionMatrix);
        var result := VecMat(intermediate, sensorMatrices[color]);
        var r := Normalize(result, Norm(result, root));
        FilteredNext(transitionMatrix, sensorMatrices, path, starting, root, t, r);
        distributions := distributions + [r];
      }
    }

    /** `starting_distribution`: 1 / (number of floor cells) on every floor
        state and 0 on every wall, visiting the cells in the order they were
        put into the state map; ZeroDivisionError in a maze without floor. */
    method StartingDistribution() returns (start: Result<seq<real>>)
      requires Wf(maze) && IsStateMap(maze, stateMap) && |stateMap| == StateCount(maze)
      ensures start == StartVector(maze)
    {
      var walls := NumWalls(maze);
      var floors := |stateMap| - walls;
      StartVectorAt(maze, floors);
      if floors == 0 {
        return Err(ZeroDivisionError);
      }
      var p := 1.0 / floors as real;
      var l: seq<real> := [];
      for j := 0 to maze.height
        invariant SpreadBefore(maze, p, l, FirstState(maze, j))
      {
        for i := 0 to maze.width
          invariant SpreadBefore(maze, p, l, FirstState(maze, j) + i)
        {
          SpreadNext(maze, stateMap, p, l, i, j, FirstState(maze, j) + i);
          var state := stateMap[(i, j)];
          if state.1 {
            l := l + [0.0];
          } else {
            l := l + [p];
          }
        }
        SpreadRows(maze, p, l, j);
      }
      SpreadRows(maze, p, l, maze.height);
      start := Ok(l);
    }

    /** `make_state_map`: walking the grid row by row from the bottom, each
        cell gets the next state number and its wall flag, and its colour is
        appended to `index_to_color`. */
    method MakeStateMap() returns (sm: map<Cell, (int, bool)>)
      requires Wf(maze)
      modifies this`indexToColor
      ensures IsStateMap(maze, sm) && |sm| == StateCount(maze)
      ensures indexToColor == old(indexToColor) + IndexColors(maze)
    {
      sm := map[];
      var state := 0;
      ghost var added: seq<char> := [];
      for j := 0 to maze.height
        invariant MappedBefore(maze, sm, added, j, 0, state)
        invariant indexToColor == old(indexToColor) + added
      {
        for i := 0 to maze.width
          invariant MappedBefore(maze, sm, added, j, i, state)
          invariant indexToColor == old(indexToColor) + added
        {
          MapCell(maze, sm, added, j, i, state);
          RobotSim.Associative(old(indexToColor), added, [GetColor(maze, i, j)]);
          indexToColor := indexToColor + [GetColor(maze, i, j)];
          added := added + [GetColor(maze, i, j)];
          if IsFloor(maze, i, j) {
            sm := sm[(i, j) := (state, false)];
          } else {
            sm := sm[(i, j) := (state, true)];
          }
          state := state + 1;
        }
        MapNextRow(maze, sm, added, j, state);
      }
      MappedAll(maze, sm, added, state);
    }

    /** `find_legal_moves(x, y)`: the cell itself, then each of its north,
        south, east and west neighbours that is floor. */
    method FindLegalMoves(x: int, y: int) returns (legalMoves: seq<Cell>)
      requires Wf(maze)
      ensures legalMoves == LegalMoves(maze, x, y)
    {
      LegalMovesUnrolled(maze, x, y);
      legalMoves := [(x, y)];
      if IsFloor(maze, x, y + 1) {
        legalMoves := legalMoves + [(x, y + 1)];
      }
      if IsFloor(maze, x, y - 1) {
        legalMoves := legalMoves + [(x, y - 1)];
      }
      if IsFloor(maze, x + 1, y) {
        legalMoves := legalMoves + [(x + 1, y)];
      }
      if IsFloor(maze, x - 1, y) {
        legalMoves := legalMoves + [(x - 1, y)];
      }
    }

    /** `initialize_matrix`: an S x S matrix of zeros, S the number of
        states. */
    method InitializeMatrix() returns (mat: seq<seq<real>>)
      ensures |mat| == |stateMap| && Square(mat)
      ensures forall a :: 0 <= a < |mat| ==> mat[a] == Zeros(|stateMap|)
    {
      mat := [];
      for i := 0 to |stateMap|
        invariant |mat| == i
        invariant forall a :: 0 <= a < i ==> mat[a] == Zeros(|stateMap|)
      {
        var row: seq<real> := [];
        for j := 0 to |stateMap|
          invariant row == Zeros(j)
        {
          row := row + [0.0];
        }
        mat := mat + [row];
      }
    }

    /** `make_transition_matrix`: each floor cell gets its stay probability
        on the diagonal and 1/4 towards each other legal move; wall rows stay
        zero.  The final `getT()` returns the same matrix. */
    method MakeTransitionMatrix() returns (m: seq<seq<real>>)
      requires Wf(maze) && IsStateMap(maze, stateMap) && |stateMap| == StateCount(maze)
      ensures m == TransitionMatrix(maze)
    {
      var mat := InitializeMatrix();
      for j := 0 to maze.height
        invariant RowsFilled(mat, TransitionMatrix(maze), FirstState(maze, j))
      {
        for i := 0 to maze.width
          invariant RowsFilled(mat, TransitionMatrix(maze), FirstState(maze, j) + i)
        {
          TransitionCell(maze, stateMap, mat, i, j);
          var (state, wallAtState) := stateMap[(i, j)];
          if !wallAtState {
            mat := FillRow(mat, i, j, state);
          }
        }
        RowsNextRow(maze, mat, TransitionMatrix(maze), j);
      }
      RowsDone(maze, mat, TransitionMatrix(maze));
      m := Transpose(mat);
      TransposeIsNoOp(maze);
    }

    /** The body of the loop of `make_transition_matrix` for floor cell
        (i, j): the stay probability, then 1/4 for every legal move to
        another state. */
    method FillRow(mat0: seq<seq<real>>, i: int, j: int, state: int) returns (mat: seq<seq<real>>)
      requires Wf(maze) && IsStateMap(maze, stateMap) && |stateMap| == StateCount(maze)
      requires InBounds(maze, i, j) && IsFloor(maze, i, j) && state == StateOf(maze, (i, j))
      requires |mat0| == StateCount(maze) && 0 <= state < |mat0| && mat0[state] == Zeros(StateCount(maze))
      ensures mat == mat0[state := TransitionRow(maze, state)]
    {
      var legalMoves := FindLegalMoves(i, j);
      var numLegalMoves := |legalMoves|;
      ghost var c := (i, j);
      StayFirst(maze, c, mat0[state]);
      mat := mat0[state := mat0[state][state := (5 - numLegalMoves) as real / 4.0]];
      ghost var row := mat[state];
      for q := 0 to |legalMoves|
        invariant mat == mat0[state := row]
        invariant row == SetAll(StayRow(maze, c), OtherStates(maze, legalMoves[..q], state), 0.25)
      {
        var move := legalMoves[q];
        MarkMove(maze, stateMap, c, q, row);
        var adjState := stateMap[move].0;
        if adjState != state {
          UpdateInRow(mat0, state, row, adjState, 0.25);
          mat := mat[state := mat[state][adjState := 0.25]];
          row := row[adjState := 0.25];
        }
      }
      assert legalMoves[..|legalMoves|] == legalMoves;
      RowMarked(maze, c);
    }

    /** `make_sensor_matrices`: for each colour of the maze, a matrix of
        zeros whose diagonal holds, on each floor state, the chance of
        sensing that colour there. */
    method MakeSensorMatrices() returns (matrices: map<char, seq<seq<real>>>)
      requires Wf(maze) && IsStateMap(maze, stateMap) && |stateMap| == StateCount(maze)
      requires robot.errorThreshold == RobotSim.ErrorThreshold
      ensures matrices == SensorMatrices(maze)
    {
      matrices := map[];
      for k := 0 to |Colors|
        invariant forall c :: c in matrices <==> c in Colors[..k]
        invariant forall c :: c in matrices ==> matrices[c] == SensorMatrix(maze, c)
      {
        var color := Colors[k];
        var mat := SensorMatrixFor(color);
        matrices := matrices[color := mat];
      }
      assert Colors[..|Colors|] == Colors;
    }

    /** The inner loops of `make_sensor_matrices` for one colour. */
    method SensorMatrixFor(color: char) returns (mat: seq<seq<real>>)
      requires Wf(maze) && IsStateMap(maze, stateMap) && |stateMap| == StateCount(maze)
      requires robot.errorThreshold == RobotSim.ErrorThreshold
      ensures mat == SensorMatrix(maze, color)
    {
      mat := InitializeMatrix();
      for j := 0 to maze.height
        invariant RowsFilled(mat, SensorMatrix(maze, color), FirstState(maze, j))
      {
        for i := 0 to maze.width
          invariant RowsFilled(mat, SensorMatrix(maze, color), FirstState(maze, j) + i)
        {
          SensorCell(maze, stateMap, color, mat, i, j, FirstState(maze, j) + i);
          var (state, wallAtState) := stateMap[(i, j)];
          if !wallAtState {
            if GetColor(maze, i, j) == color {
              mat := mat[state := mat[state][state := robot.errorThreshold]];
            } else {
              mat := mat[state := mat[state][state := (1.0 - robot.errorThreshold) / (|Colors| - 1) as real]];
            }
          }
        }
        RowsNextRow(maze, mat, SensorMatrix(maze, color), j);
      }
      RowsDone(maze, mat, SensorMatrix(maze, color));
    }
  }
}
