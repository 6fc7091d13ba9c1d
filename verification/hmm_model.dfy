/** The hidden Markov model sensor_problem.py builds over a maze: one state
    per grid cell, numbered row by row from the bottom; a transition matrix
    for a robot that picks one of its four moves uniformly and bumps into
    walls; one diagonal sensor matrix per colour; a uniform prior over the
    floor; and the forward filter that folds the sensed colours into a
    sequence of belief vectors.  Everything here is the reference the
    methods of sensor_problem.dfy are proved against. */
module HiddenMarkov {
  import opened Wrappers
  import opened MazeGrid
  import opened Linear
  import RobotSim

  // ---------------------------------------------------------------------
  // States

  /** `len(state_map)`: one state per grid cell. */
  function StateCount(m: Maze): nat {
    m.width * m.height
  }

  /** The state `make_state_map` gives cell (i, j): its position when the
      grid is walked row by row from the bottom, j * width + i. */
  function StateOf(m: Maze, c: Cell): int {
    c.1 * m.width + c.0
  }

  /** The first state of row j, j * width, counted up row by row. */
  function FirstState(m: Maze, j: nat): nat {
    if j == 0 then 0 else FirstState(m, j - 1) + m.width
  }

  lemma {:induction false} FirstStateIsProduct(m: Maze, j: nat)
    ensures FirstState(m, j) == j * m.width
  {
    if j > 0 {
      FirstStateIsProduct(m, j - 1);
      assert j * m.width == (j - 1) * m.width + m.width;
    }
  }

  /** The cell of state s. */
  function CellOf(m: Maze, s: int): Cell
    requires Wf(m)
  {
    (s % m.width, s / m.width)
  }

  /** Cells of the grid and states correspond one to one: an in-grid cell
      has a state in [0, S) and is the cell of that state... */
  lemma CellOfState(m: Maze, c: Cell)
    requires Wf(m) && InBounds(m, c.0, c.1)
    ensures 0 <= StateOf(m, c) < StateCount(m)
    ensures CellOf(m, StateOf(m, c)) == c
  {
    var s := StateOf(m, c);
    MulMono(c.1, m.height - 1, m.width);
    assert s < StateCount(m) by {
      assert (m.height - 1) * m.width + m.width == m.height * m.width;
    }
    MulAddUnique(s / m.width, s % m.width, c.1, c.0, m.width);
  }

  /** ... and every state in [0, S) is the state of an in-grid cell. */
  lemma StateOfCell(m: Maze, s: int)
    requires Wf(m) && 0 <= s < StateCount(m)
    ensures InBounds(m, CellOf(m, s).0, CellOf(m, s).1)
    ensures StateOf(m, CellOf(m, s)) == s
  {
    var w := m.width;
    var q := s / w;
    var r := s % w;
    assert q * w + r == s && 0 <= r < w && 0 <= q;
    if q >= m.height {
      MulMono(m.height, q, w);
      assert false;
    }
  }

  /** Distinct in-grid cells have distinct states. */
  lemma StateInjective(m: Maze, c: Cell, d: Cell)
    requires Wf(m) && InBounds(m, c.0, c.1) && InBounds(m, d.0, d.1)
    requires StateOf(m, c) == StateOf(m, d)
    ensures c == d
  {
    CellOfState(m, c);
    CellOfState(m, d);
  }

  /** State s is a floor cell of the grid. */
  predicate FloorState(m: Maze, s: int)
    requires Wf(m)
  {
    0 <= s < StateCount(m) && IsFloor(m, CellOf(m, s).0, CellOf(m, s).1)
  }

  /** What `make_state_map` returns: every in-grid cell, and only those,
      mapped to its state and to whether it is a wall. */
  ghost predicate IsStateMap(m: Maze, sm: map<Cell, (int, bool)>)
    requires Wf(m)
  {
    && (forall c :: c in sm <==> InBounds(m, c.0, c.1))
    && StateEntries(m, sm)
  }

  /** Every cell in sm is mapped to its state and its wall flag. */
  ghost predicate StateEntries(m: Maze, sm: map<Cell, (int, bool)>)
    requires Wf(m)
  {
    forall c :: c in sm ==> sm[c] == (StateOf(m, c), !IsFloor(m, c.0, c.1))
  }

  lemma StateEntriesAdd(m: Maze, sm: map<Cell, (int, bool)>, c: Cell)
    requires Wf(m) && StateEntries(m, sm)
    ensures StateEntries(m, sm[c := (StateOf(m, c), !IsFloor(m, c.0, c.1))])
  {
  }

  /** The state map numbers the states 0 .. S - 1 without gaps or repeats:
      every state in range belongs to exactly one cell, and the wall flag
      of that cell says whether the state is a floor state. */
  lemma StateMapBijective(m: Maze, sm: map<Cell, (int, bool)>, s: int)
    requires Wf(m) && IsStateMap(m, sm) && 0 <= s < StateCount(m)
    ensures CellOf(m, s) in sm && sm[CellOf(m, s)] == (s, !FloorState(m, s))
    ensures forall c :: c in sm && sm[c].0 == s ==> c == CellOf(m, s)
  {
    StateOfCell(m, s);
    forall c | c in sm && sm[c].0 == s ensures c == CellOf(m, s) {
      StateInjective(m, c, CellOf(m, s));
    }
  }

  /** `index_to_color`: the colour `get_color` reports for the cell of each
      state, in state order. */
  function IndexColors(m: Maze): (r: seq<char>)
    requires Wf(m)
    ensures |r| == StateCount(m)
  {
    seq(StateCount(m), s requires 0 <= s < StateCount(m) =>
      StateOfCell(m, s); GetColor(m, CellOf(m, s).0, CellOf(m, s).1))
  }

  /** Looking a cell's state up in `index_to_color` gives that cell's
      colour, which is a colour exactly when the cell is floor. */
  lemma IndexColorsAgree(m: Maze, sm: map<Cell, (int, bool)>, c: Cell)
    requires Wf(m) && IsStateMap(m, sm) && c in sm
    ensures 0 <= sm[c].0 < |IndexColors(m)|
    ensures IndexColors(m)[sm[c].0] == GetColor(m, c.0, c.1)
    ensures IndexColors(m)[sm[c].0] in Colors <==> !sm[c].1
  {
    CellOfState(m, c);
  }

  // ---------------------------------------------------------------------
  // Legal moves

  /** The four cells next to (x, y), in the order N, S, E, W. */
  function Around(x: int, y: int): seq<Cell> {
    [(x, y + 1), (x, y - 1), (x + 1, y), (x - 1, y)]
  }

  predicate Adjacent(a: Cell, b: Cell) {
    || (a.0 == b.0 && (a.1 == b.1 + 1 || b.1 == a.1 + 1))
    || (a.1 == b.1 && (a.0 == b.0 + 1 || b.0 == a.0 + 1))
  }

  /** The floor cells of l, in order. */
  function FloorOnly(m: Maze, l: seq<Cell>): (r: seq<Cell>)
    requires Wf(m)
    ensures |r| <= |l|
  {
    if l == [] then []
    else
      var last := l[|l| - 1];
      FloorOnly(m, l[..|l| - 1]) + (if IsFloor(m, last.0, last.1) then [last] else [])
  }

  lemma {:induction false} FloorOnlyMembers(m: Maze, l: seq<Cell>)
    requires Wf(m)
    ensures forall c :: c in FloorOnly(m, l) <==> c in l && IsFloor(m, c.0, c.1)
  {
    if l != [] {
      FloorOnlyMembers(m, l[..|l| - 1]);
      assert l == l[..|l| - 1] + [l[|l| - 1]];
    }
  }

  /** Checking one more cell appends it exactly when it is floor. */
  lemma FloorOnlySnoc(m: Maze, l: seq<Cell>, c: Cell)
    requires Wf(m)
    ensures FloorOnly(m, l + [c]) == FloorOnly(m, l) + (if IsFloor(m, c.0, c.1) then [c] else [])
  {
    assert (l + [c])[..|l|] == l;
  }

  lemma {:induction false} FloorOnlyDistinct(m: Maze, l: seq<Cell>)
    requires Wf(m) && Distinct(l)
    ensures Distinct(FloorOnly(m, l))
  {
    if l != [] {
      var front := l[..|l| - 1];
      DistinctFront(l);
      FloorOnlyDistinct(m, front);
      FloorOnlyMembers(m, front);
    }
  }

  /** `find_legal_moves(x, y)`: the cell itself, then each of its N, S, E, W
      neighbours that is floor. */
  function LegalMoves(m: Maze, x: int, y: int): (r: seq<Cell>)
    requires Wf(m)
    ensures 1 <= |r| <= 5 && r[0] == (x, y)
  {
    [(x, y)] + FloorOnly(m, Around(x, y))
  }

  /** A legal move is the cell itself or a floor cell next to it, and
      every such cell is listed exactly once. */
  lemma LegalMovesMembers(m: Maze, x: int, y: int)
    requires Wf(m)
    ensures forall c :: c in LegalMoves(m, x, y) <==> c == (x, y) || (IsFloor(m, c.0, c.1) && Adjacent((x, y), c))
    ensures Distinct(LegalMoves(m, x, y))
  {
    var a := Around(x, y);
    FloorOnlyMembers(m, a);
    forall c ensures c in a <==> Adjacent((x, y), c) {
      if Adjacent((x, y), c) {
        if c.0 == x && c.1 == y + 1 {
          assert c == a[0];
        } else if c.0 == x {
          assert c == a[1];
        } else if c.0 == x + 1 {
          assert c == a[2];
        } else {
          assert c == a[3];
        }
      }
    }
    assert Distinct(a);
    FloorOnlyDistinct(m, a);
    var r := LegalMoves(m, x, y);
    assert (x, y) !in FloorOnly(m, a);
    forall i, j | 0 <= i < j < |r| ensures r[i] != r[j] {
      assert r[j] == FloorOnly(m, a)[j - 1];
      if i > 0 {
        assert r[i] == FloorOnly(m, a)[i - 1];
      }
    }
  }

  // ---------------------------------------------------------------------
  // The transition matrix

  /** The states of the cells of ms other than s, in order: the entries
      the loop over the legal moves marks, since it skips `adj_state ==
      state`. */
  function OtherStates(m: Maze, ms: seq<Cell>, s: int): (r: seq<int>)
    ensures |r| <= |ms|
  {
    if ms == [] then []
    else
      var t := StateOf(m, ms[|ms| - 1]);
      OtherStates(m, ms[..|ms| - 1], s) + (if t != s then [t] else [])
  }

  lemma {:induction false} OtherStatesMembers(m: Maze, ms: seq<Cell>, s: int)
    ensures forall t :: t in OtherStates(m, ms, s) <==> t != s && exists c :: c in ms && StateOf(m, c) == t
  {
    if ms != [] {
      var front := ms[..|ms| - 1];
      OtherStatesMembers(m, front, s);
      assert ms == front + [ms[|ms| - 1]];
    }
  }

  /** Other states of distinct in-grid cells are distinct states of the
      grid. */
  lemma {:induction false} OtherStatesDistinct(m: Maze, ms: seq<Cell>, s: int)
    requires Wf(m) && Distinct(ms)
    requires forall c :: c in ms ==> InBounds(m, c.0, c.1)
    ensures Distinct(OtherStates(m, ms, s))
    ensures forall t :: t in OtherStates(m, ms, s) ==> 0 <= t < StateCount(m)
  {
    if ms != [] {
      var front := ms[..|ms| - 1];
      var last := ms[|ms| - 1];
      DistinctFront(ms);
      assert forall c :: c in front ==> c in ms;
      OtherStatesDistinct(m, front, s);
      OtherStatesMembers(m, front, s);
      CellOfState(m, last);
      forall t | t in OtherStates(m, front, s) ensures t != StateOf(m, last) {
        var c :| c in front && StateOf(m, c) == t;
        if t == StateOf(m, last) {
          StateInjective(m, c, last);
        }
      }
      if StateOf(m, last) != s {
        DistinctSnoc(OtherStates(m, front, s), StateOf(m, last));
      }
    }
  }

  /** How many cells of ms have state s. */
  function Hits(m: Maze, ms: seq<Cell>, s: int): nat {
    if ms == [] then 0
    else Hits(m, ms[..|ms| - 1], s) + (if StateOf(m, ms[|ms| - 1]) == s then 1 else 0)
  }

  /** Only the cells of state s are skipped. */
  lemma {:induction false} OtherStatesLength(m: Maze, ms: seq<Cell>, s: int)
    ensures |OtherStates(m, ms, s)| == |ms| - Hits(m, ms, s)
  {
    if ms != [] {
      OtherStatesLength(m, ms[..|ms| - 1], s);
    }
  }

  /** Among distinct in-grid cells, at most one has state s, and one does
      when the cell of s is among them. */
  lemma {:induction false} HitsOnce(m: Maze, ms: seq<Cell>, s: int)
    requires Wf(m) && Distinct(ms)
    requires forall c :: c in ms ==> InBounds(m, c.0, c.1)
    ensures Hits(m, ms, s) == if exists c :: c in ms && StateOf(m, c) == s then 1 else 0
  {
    if ms != [] {
      var front := ms[..|ms| - 1];
      var last := ms[|ms| - 1];
      DistinctFront(ms);
      assert forall c :: c in front ==> c in ms;
      HitsOnce(m, front, s);
      assert ms == front + [last];
      if StateOf(m, last) == s {
        forall c | c in front && StateOf(m, c) == s ensures false {
          StateInjective(m, c, last);
        }
      }
    }
  }

  /** Probability of staying put: the (5 - k) of the four moves that bump,
      for a cell with k legal moves counting itself. */
  function Stay(m: Maze, c: Cell): (p: real)
    requires Wf(m)
    ensures 0.0 <= p <= 1.0
  {
    (5 - |LegalMoves(m, c.0, c.1)|) as real / 4.0
  }

  /** Entry (s, t) of the transition matrix before the transpose: a wall
      state goes nowhere; a floor state stays with probability `Stay` and
      moves to each floor neighbour with probability 1/4. */
  function TransitionEntry(m: Maze, s: int, t: int): (e: real)
    requires Wf(m)
    ensures 0.0 <= e <= 1.0
    ensures !FloorState(m, s) || !FloorState(m, t) ==> e == 0.0
    ensures s != t && e != 0.0 ==> e == 0.25 && Adjacent(CellOf(m, s), CellOf(m, t))
  {
    if !FloorState(m, s) then 0.0
    else if t == s then Stay(m, CellOf(m, s))
    else if FloorState(m, t) && Adjacent(CellOf(m, s), CellOf(m, t)) then 0.25
    else 0.0
  }

  function TransitionRow(m: Maze, s: int): (r: seq<real>)
    requires Wf(m)
    ensures |r| == StateCount(m)
  {
    seq(StateCount(m), t requires 0 <= t < StateCount(m) => TransitionEntry(m, s, t))
  }

  /** The S x S matrix of `make_transition_matrix`, row s for state s. */
  function TransitionMatrix(m: Maze): (r: seq<seq<real>>)
    requires Wf(m)
    ensures |r| == StateCount(m) && Square(r)
  {
    seq(StateCount(m), s requires 0 <= s < StateCount(m) => TransitionRow(m, s))
  }

  /** The loop over the legal moves of floor cell c marks state t exactly
      when t is a floor state next to c. */
  lemma MarkedStates(m: Maze, c: Cell, t: int)
    requires Wf(m) && IsFloor(m, c.0, c.1) && 0 <= t < StateCount(m)
    ensures t in OtherStates(m, LegalMoves(m, c.0, c.1), StateOf(m, c)) <==>
            t != StateOf(m, c) && FloorState(m, t) && Adjacent(c, CellOf(m, t))
  {
    var s := StateOf(m, c);
    var moves := LegalMoves(m, c.0, c.1);
    LegalMovesMembers(m, c.0, c.1);
    OtherStatesMembers(m, moves, s);
    StateOfCell(m, t);
    var d := CellOf(m, t);
    if t != s && FloorState(m, t) && Adjacent(c, d) {
      assert d in moves && StateOf(m, d) == t;
    }
    if t in OtherStates(m, moves, s) {
      var e :| e in moves && StateOf(m, e) == t;
      StateInjective(m, e, d);
    }
  }

  /** The row the loop over the legal moves of floor cell c starts from:
      zeros, with the stay probability at the state of c. */
  function StayRow(m: Maze, c: Cell): (r: seq<real>)
    requires Wf(m) && IsFloor(m, c.0, c.1)
    ensures |r| == StateCount(m) && 0 <= StateOf(m, c) < StateCount(m)
    ensures forall t :: 0 <= t < |r| ==> r[t] == if t == StateOf(m, c) then Stay(m, c) else 0.0
  {
    CellOfState(m, c);
    Zeros(StateCount(m))[StateOf(m, c) := Stay(m, c)]
  }

  /** The row the loop over the legal moves of floor cell c leaves: all
      zeros but the stay probability on the diagonal and 1/4 at every other
      legal move. */
  lemma RowMarked(m: Maze, c: Cell)
    requires Wf(m) && IsFloor(m, c.0, c.1)
    ensures SetAll(StayRow(m, c), OtherStates(m, LegalMoves(m, c.0, c.1), StateOf(m, c)), 0.25)
            == TransitionRow(m, StateOf(m, c))
  {
    var s := StateOf(m, c);
    var S := StateCount(m);
    CellOfState(m, c);
    var base := StayRow(m, c);
    var ks := OtherStates(m, LegalMoves(m, c.0, c.1), s);
    var row := SetAll(base, ks, 0.25);
    forall t | 0 <= t < S ensures row[t] == TransitionRow(m, s)[t] {
      MarkedEntry(m, c, t);
    }
  }

  lemma MarkedEntry(m: Maze, c: Cell, t: int)
    requires Wf(m) && IsFloor(m, c.0, c.1) && 0 <= t < StateCount(m)
    ensures SetAll(StayRow(m, c), OtherStates(m, LegalMoves(m, c.0, c.1), StateOf(m, c)), 0.25)[t]
            == TransitionEntry(m, StateOf(m, c), t)
  {
    var s := StateOf(m, c);
    assert 0 <= s < StateCount(m) && CellOf(m, s) == c by {
      CellOfState(m, c);
    }
    var base := StayRow(m, c);
    var ks := OtherStates(m, LegalMoves(m, c.0, c.1), s);
    var marked := t != s && FloorState(m, t) && Adjacent(c, CellOf(m, t));
    assert SetAll(base, ks, 0.25)[t] == if t in ks then 0.25 else base[t] by {
      SetAllAt(base, ks, 0.25, t);
    }
    assert t in ks <==> marked by {
      MarkedStates(m, c, t);
    }
    assert TransitionEntry(m, s, t) == if t == s then Stay(m, c) else if marked then 0.25 else 0.0 by {
      assert FloorState(m, s);
    }
  }

  /** A wall state's row of the transition matrix is all zeros. */
  lemma WallRow(m: Maze, c: Cell)
    requires Wf(m) && InBounds(m, c.0, c.1) && !IsFloor(m, c.0, c.1)
    ensures 0 <= StateOf(m, c) < StateCount(m)
    ensures TransitionRow(m, StateOf(m, c)) == Zeros(StateCount(m))
  {
    CellOfState(m, c);
  }

  /** Every floor row of the transition matrix sums to 1 (the robot is
      somewhere after a step); a wall row sums to 0. */
  lemma TransitionRowSum(m: Maze, s: int)
    requires Wf(m) && 0 <= s < StateCount(m)
    ensures Sum(TransitionRow(m, s)) == if FloorState(m, s) then 1.0 else 0.0
  {
    var S := StateCount(m);
    if FloorState(m, s) {
      StateOfCell(m, s);
      var c := CellOf(m, s);
      var moves := LegalMoves(m, c.0, c.1);
      var base := StayRow(m, c);
      var ks := OtherStates(m, moves, s);
      RowMarked(m, c);
      LegalMovesMembers(m, c.0, c.1);
      assert forall e :: e in moves ==> InBounds(m, e.0, e.1);
      OtherStatesDistinct(m, moves, s);
      OtherStatesLength(m, moves, s);
      assert moves[0] == c;
      HitsOnce(m, moves, s);
      OtherStatesMembers(m, moves, s);
      SumZeros(S);
      SumUpdate(Zeros(S), s, Stay(m, c));
      SetAllSum(base, ks, 0.25);
      assert |ks| == |moves| - 1;
    } else {
      assert TransitionRow(m, s) == Zeros(S);
      SumZeros(S);
    }
  }

  /** The matrix is symmetric: a move between two floor neighbours has
      probability 1/4 both ways. */
  lemma TransitionSymmetric(m: Maze, s: int, t: int)
    requires Wf(m)
    ensures TransitionEntry(m, s, t) == TransitionEntry(m, t, s)
  {
  }

  /** Hence `getT()` returns the matrix it is given. */
  lemma TransposeIsNoOp(m: Maze)
    requires Wf(m)
    ensures Transpose(TransitionMatrix(m)) == TransitionMatrix(m)
  {
    var M := TransitionMatrix(m);
    forall a, b | 0 <= a < |M| && 0 <= b < |M| ensures M[a][b] == M[b][a] {
      TransitionSymmetric(m, a, b);
    }
    TransposeSymmetric(M);
  }

  // ---------------------------------------------------------------------
  // The sensor matrices

  /** Entry (s, t) of the sensor matrix of `color`: zero off the diagonal
      and on walls; on a floor state, the chance `error_threshold` of
      sensing the true colour, or an equal share of the rest for each of
      the other colours. */
  function SensorEntry(m: Maze, color: char, s: int, t: int): (e: real)
    requires Wf(m)
    ensures 0.0 <= e <= 1.0
    ensures s != t || !FloorState(m, s) ==> e == 0.0
  {
    if s != t || !FloorState(m, s) then 0.0
    else if GetColor(m, CellOf(m, s).0, CellOf(m, s).1) == color then RobotSim.ErrorThreshold
    else (1.0 - RobotSim.ErrorThreshold) / (|Colors| - 1) as real
  }

  function SensorRow(m: Maze, color: char, s: int): (r: seq<real>)
    requires Wf(m)
    ensures |r| == StateCount(m)
  {
    seq(StateCount(m), t requires 0 <= t < StateCount(m) => SensorEntry(m, color, s, t))
  }

  /** The matrix `make_sensor_matrices` builds for one colour. */
  function SensorMatrix(m: Maze, color: char): (r: seq<seq<real>>)
    requires Wf(m)
    ensures |r| == StateCount(m) && Square(r)
  {
    seq(StateCount(m), s requires 0 <= s < StateCount(m) => SensorRow(m, color, s))
  }

  /** The row of cell c in the sensor matrix of `color`: all zeros but the
      diagonal entry, which on a floor cell is the chance of sensing
      `color` there. */
  lemma SensorRowAt(m: Maze, color: char, c: Cell)
    requires Wf(m) && InBounds(m, c.0, c.1)
    ensures 0 <= StateOf(m, c) < StateCount(m)
    ensures SensorRow(m, color, StateOf(m, c)) ==
            if !IsFloor(m, c.0, c.1) then Zeros(StateCount(m))
            else Zeros(StateCount(m))[StateOf(m, c) :=
                   if GetColor(m, c.0, c.1) == color then RobotSim.ErrorThreshold
                   else (1.0 - RobotSim.ErrorThreshold) / (|Colors| - 1) as real]
  {
    CellOfState(m, c);
  }

  /** The dictionary of sensor matrices, one per colour of the maze. */
  function SensorMatrices(m: Maze): (r: map<char, seq<seq<real>>>)
    requires Wf(m)
    ensures forall c :: c in r <==> c in Colors
  {
    map c | c in Colors :: SensorMatrix(m, c)
  }

  /** The sensor entries of state s for the colours cs. */
  function Likelihoods(m: Maze, s: int, cs: seq<char>): (r: seq<real>)
    requires Wf(m)
    ensures |r| == |cs|
  {
    seq(|cs|, k requires 0 <= k < |cs| => SensorEntry(m, cs[k], s, s))
  }

  /** On a floor state the four sensor matrices split certainty between the
      colours: their diagonal entries sum to 1.  On a wall they are all 0. */
  lemma SensorSumsToOne(m: Maze, s: int)
    requires Wf(m) && 0 <= s < StateCount(m)
    ensures Sum(Likelihoods(m, s, Colors)) == if FloorState(m, s) then 1.0 else 0.0
  {
    var l := Likelihoods(m, s, Colors);
    assert Sum(l[..1]) == l[0] by {
      assert l[..1][..0] == [];
    }
    assert Sum(l[..2]) == Sum(l[..1]) + l[1] by {
      assert l[..2][..1] == l[..1];
    }
    assert Sum(l[..3]) == Sum(l[..2]) + l[2] by {
      assert l[..3][..2] == l[..2];
    }
    assert Sum(l) == Sum(l[..3]) + l[3];
  }

  /** Every sensor matrix is diagonal, so multiplying by it weighs each
      state by the likelihood of the sensed colour there. */
  lemma SensorWeighs(m: Maze, u: seq<real>, color: char, b: int)
    requires Wf(m) && |u| == StateCount(m) && 0 <= b < StateCount(m)
    ensures VecMat(u, SensorMatrix(m, color))[b] == u[b] * SensorEntry(m, color, b, b)
  {
    VecMatDiagonal(u, SensorMatrix(m, color), b);
  }

  // ---------------------------------------------------------------------
  // The starting distribution

  /** The wall flags of the states, in state order: the second half of
      each entry of the state map. */
  function WallFlags(m: Maze): (r: seq<bool>)
    requires Wf(m)
    ensures |r| == StateCount(m)
  {
    seq(StateCount(m), s requires 0 <= s < StateCount(m) => !FloorState(m, s))
  }

  /** How many flags are set. */
  function Shut(flags: seq<bool>): nat {
    if flags == [] then 0 else Shut(flags[..|flags| - 1]) + (if flags[|flags| - 1] then 1 else 0)
  }

  /** How many flags are clear. */
  function Open(flags: seq<bool>): nat {
    if flags == [] then 0 else Open(flags[..|flags| - 1]) + (if flags[|flags| - 1] then 0 else 1)
  }

  lemma {:induction false} OpenAndShut(flags: seq<bool>)
    ensures Open(flags) + Shut(flags) == |flags|
    ensures Open(flags) == 0 <==> forall i :: 0 <= i < |flags| ==> flags[i]
  {
    if flags != [] {
      OpenAndShut(flags[..|flags| - 1]);
    }
  }

  /** Counting walls state by state is counting them row by row. */
  lemma {:induction false} StateWallsRows(m: Maze, j: nat, i: nat)
    requires Wf(m) && i <= m.width && j <= m.height && (j < m.height || i == 0)
    ensures FirstState(m, j) + i <= StateCount(m)
    ensures Shut(WallFlags(m)[..FirstState(m, j) + i]) == Walls(m, m.width, j) + RowWalls(m, j, i)
    decreases j, i
  {
    if i > 0 {
      StateWallsRows(m, j, i - 1);
      WallsNextCell(m, j, i);
    } else if j > 0 {
      StateWallsRows(m, j - 1, m.width);
    } else {
      assert WallFlags(m)[..0] == [];
    }
  }

  /** The step of StateWallsRows within a row: state FirstState(j) + i - 1
      is cell (i - 1, j). */
  lemma WallsNextCell(m: Maze, j: nat, i: nat)
    requires Wf(m) && 0 < i <= m.width && j < m.height
    requires FirstState(m, j) + i - 1 <= StateCount(m)
    requires Shut(WallFlags(m)[..FirstState(m, j) + i - 1]) == Walls(m, m.width, j) + RowWalls(m, j, i - 1)
    ensures FirstState(m, j) + i <= StateCount(m)
    ensures Shut(WallFlags(m)[..FirstState(m, j) + i]) == Walls(m, m.width, j) + RowWalls(m, j, i)
  {
    var flags := WallFlags(m);
    var n := FirstState(m, j) + i;
    assert n <= StateCount(m) && flags[n - 1] == !IsFloor(m, i - 1, j) by {
      FirstStateIsProduct(m, j);
      CellOfState(m, (i - 1, j));
    }
    assert flags[..n][..n - 1] == flags[..n - 1];
  }

  /** p on every open flag, 0 on every set one. */
  function Spread(flags: seq<bool>, p: real): (r: seq<real>)
    ensures |r| == |flags|
  {
    seq(|flags|, i requires 0 <= i < |flags| => if flags[i] then 0.0 else p)
  }

  lemma ScaleCount(a: nat, b: nat, p: real)
    ensures a == b + 1 ==> a as real * p == b as real * p + p
    ensures a == b ==> a as real * p == b as real * p
    ensures a == 0 ==> a as real * p == 0.0
  {
  }

  lemma {:induction false} SpreadSum(flags: seq<bool>, p: real)
    ensures Sum(Spread(flags, p)) == Open(flags) as real * p
  {
    if flags != [] {
      var n := |flags| - 1;
      assert Spread(flags, p)[..n] == Spread(flags[..n], p);
      SpreadSum(flags[..n], p);
      ScaleCount(Open(flags), Open(flags[..n]), p);
    } else {
      ScaleCount(Open(flags), 0, p);
    }
  }

  /** `starting_distribution`: the uniform distribution over the floor
      cells, or the ZeroDivisionError of `1/0` in a maze without floor. */
  function StartVector(m: Maze): (r: Result<seq<real>>)
    requires Wf(m)
  {
    var floors := StateCount(m) - Walls(m, m.width, m.height);
    if floors == 0 then Err(ZeroDivisionError)
    else Ok(Spread(WallFlags(m), 1.0 / floors as real))
  }

  /** The number `starting_distribution` divides by is the number of floor
      states. */
  lemma FloorCount(m: Maze)
    requires Wf(m)
    ensures StateCount(m) - Walls(m, m.width, m.height) == Open(WallFlags(m))
  {
    var flags := WallFlags(m);
    assert Shut(flags) == Walls(m, m.width, m.height) by {
      StateWallsRows(m, m.height, 0);
      FirstStateIsProduct(m, m.height);
      assert flags[..StateCount(m)] == flags;
    }
    OpenAndShut(flags);
  }

  /** A vector the filter can hold: one non-negative weight per state, and
      none on a wall. */
  predicate Belief(m: Maze, v: seq<real>)
    requires Wf(m)
  {
    && |v| == StateCount(m)
    && Nonneg(v)
    && forall s :: 0 <= s < |v| && !FloorState(m, s) ==> v[s] == 0.0
  }

  /** The starting distribution fails exactly when the maze has no floor
      cell. */
  lemma StartFailsWithoutFloor(m: Maze)
    requires Wf(m)
    ensures StartVector(m).Err? <==> forall s :: 0 <= s < StateCount(m) ==> !FloorState(m, s)
  {
    var flags := WallFlags(m);
    FloorCount(m);
    OpenAndShut(flags);
    if exists s :: 0 <= s < StateCount(m) && FloorState(m, s) {
      var s :| 0 <= s < StateCount(m) && FloorState(m, s);
      assert !flags[s];
    } else {
      assert forall i :: 0 <= i < |flags| ==> flags[i];
    }
  }

  /** Otherwise it is a belief that gives every floor cell the same
      positive weight... */
  lemma StartIsUniform(m: Maze)
    requires Wf(m) && StartVector(m).Ok?
    ensures Belief(m, StartVector(m).value)
    ensures forall s, t :: FloorState(m, s) && FloorState(m, t) ==>
              0.0 < StartVector(m).value[s] == StartVector(m).value[t]
  {
    var floors := StateCount(m) - Walls(m, m.width, m.height);
    FloorCount(m);
    assert 0.0 < 1.0 / floors as real;
  }

  lemma InverseTimes(f: real)
    requires f != 0.0
    ensures f * (1.0 / f) == 1.0
  {
  }

  /** ... and whose weights sum to 1. */
  lemma StartSumsToOne(m: Maze)
    requires Wf(m) && StartVector(m).Ok?
    ensures Sum(StartVector(m).value) == 1.0
  {
    FloorCount(m);
    var floors := StateCount(m) - Walls(m, m.width, m.height);
    SpreadSumsToOne(WallFlags(m), floors);
  }

  lemma SpreadSumsToOne(flags: seq<bool>, f: nat)
    requires f == Open(flags) && f != 0
    ensures Sum(Spread(flags, 1.0 / f as real)) == 1.0
  {
    var p := 1.0 / f as real;
    SpreadSum(flags, p);
    ScaleCount(Open(flags), f, p);
    InverseTimes(f as real);
  }

  // ---------------------------------------------------------------------
  // The filter

  /** One pass of `filter`: predict with the transition matrix, weigh by
      the sensor matrix of the sensed colour, normalise. */
  function FilterStep(v: seq<real>, T: seq<seq<real>>, O: seq<seq<real>>, root: real -> real): (r: seq<real>)
    ensures |r| == |v|
  {
    var w := VecMat(VecMat(v, T), O);
    Normalize(w, Norm(w, root))
  }

  /** The list `filter` returns after n passes over the sensed colours. */
  function Filtered(T: seq<seq<real>>, O: map<char, seq<seq<real>>>, path: seq<char>,
                    start: seq<real>, root: real -> real, n: nat): (ds: seq<seq<real>>)
    requires n <= |path| && forall k :: 0 <= k < n ==> path[k] in O
    ensures |ds| == n + 1 && ds[0] == start
  {
    if n == 0 then [start]
    else
      var ds := Filtered(T, O, path, start, root, n - 1);
      ds + [FilterStep(ds[n - 1], T, O[path[n - 1]], root)]
  }

  /** Every vector after the first is one filter pass over the one before,
      with the colour sensed at that step. */
  lemma {:induction false} FilteredSteps(T: seq<seq<real>>, O: map<char, seq<seq<real>>>, path: seq<char>,
                                         start: seq<real>, root: real -> real, n: nat, k: nat)
    requires n <= |path| && forall k :: 0 <= k < n ==> path[k] in O
    requires k < n
    ensures var ds := Filtered(T, O, path, start, root, n);
            ds[k + 1] == FilterStep(ds[k], T, O[path[k]], root)
  {
    if k < n - 1 {
      FilteredSteps(T, O, path, start, root, n - 1, k);
    }
  }

  /** The prediction keeps a belief a belief: weights stay non-negative and
      never flow onto a wall. */
  lemma PredictKeepsBelief(m: Maze, v: seq<real>)
    requires Wf(m) && Belief(m, v)
    ensures Belief(m, VecMat(v, TransitionMatrix(m)))
  {
    var T := TransitionMatrix(m);
    var u := VecMat(v, T);
    forall a, b ensures 0.0 <= Entry(T, a, b) {
    }
    VecMatNonneg(v, T);
    forall b | 0 <= b < |u| && !FloorState(m, b) ensures u[b] == 0.0 {
      VecMatDiagonal(v, T, b);
    }
  }

  /** So does weighing by a sensor matrix and normalising. */
  lemma UpdateKeepsBelief(m: Maze, u: seq<real>, color: char, root: real -> real)
    requires Wf(m) && Belief(m, u) && IsSqrt(root)
    ensures Belief(m, Normalize(VecMat(u, SensorMatrix(m, color)), Norm(VecMat(u, SensorMatrix(m, color)), root)))
  {
    var O := SensorMatrix(m, color);
    var w := VecMat(u, O);
    forall b | 0 <= b < |w| ensures 0.0 <= w[b] && (!FloorState(m, b) ==> w[b] == 0.0) {
      SensorWeighs(m, u, color, b);
    }
    NormSign(w, root);
    NormalizeSpec(w, Norm(w, root));
  }

  /** Every vector `filter` returns from a belief is a belief: the robot is
      never believed to be inside a wall. */
  lemma {:induction false} FilteredBeliefs(m: Maze, path: seq<char>, start: seq<real>, root: real -> real, n: nat)
    requires Wf(m) && IsSqrt(root) && Belief(m, start)
    requires n <= |path| && forall k :: 0 <= k < n ==> path[k] in Colors
    ensures forall k :: 0 <= k <= n ==>
              Belief(m, Filtered(TransitionMatrix(m), SensorMatrices(m), path, start, root, n)[k])
  {
    if n > 0 {
      var T, O := TransitionMatrix(m), SensorMatrices(m);
      var ds := Filtered(T, O, path, start, root, n - 1);
      FilteredBeliefs(m, path, start, root, n - 1);
      PredictKeepsBelief(m, ds[n - 1]);
      UpdateKeepsBelief(m, VecMat(ds[n - 1], T), path[n - 1], root);
      var last := FilterStep(ds[n - 1], T, O[path[n - 1]], root);
      assert Belief(m, last);
      assert Filtered(T, O, path, start, root, n) == ds + [last];
    }
  }
}
