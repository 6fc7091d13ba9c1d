/** `SensorlessProblem`: a robot that cannot sense anything tracks the set of
    cells it might be in.  The start belief is every floor cell; a move in one
    direction takes every candidate cell to its neighbour when that neighbour
    is a floor cell, and leaves it where it is (a bump) otherwise. */
module Sensorless {
  import opened MazeGrid

  /** An entry of a belief state: a coordinate pair, or a stray integer the
      search may slip in, which every operation skips. */
  datatype Entry = Pair(cell: Cell) | Scalar(n: int)

  /** Number of coordinate pairs in a state. */
  function PairCount(state: seq<Entry>): (n: nat)
    ensures n <= |state|
  {
    if state == [] then 0
    else PairCount(state[..|state| - 1]) + (if state[|state| - 1].Pair? then 1 else 0)
  }

  /** One entry of the state processed for direction d: a move appends the
      neighbour unconditionally, a bump appends p only when it is not listed
      yet, an integer is skipped. */
  function Step(start: seq<Cell>, acc: seq<Entry>, e: Entry, d: Dir): seq<Entry> {
    match e
    case Scalar(_) => acc
    case Pair(p) =>
      if Neighbour(p, d) in start then acc + [Pair(Neighbour(p, d))]
      else if Pair(p) in acc then acc
      else acc + [Pair(p)]
  }

  /** The successor state for direction d, entries processed in order. */
  function Advance(start: seq<Cell>, state: seq<Entry>, d: Dir): (r: seq<Entry>)
    ensures |r| <= PairCount(state)
    ensures forall k :: 0 <= k < |r| ==> r[k].Pair?
  {
    if state == [] then []
    else
      var before := Advance(start, state[..|state| - 1], d);
      Step(start, before, state[|state| - 1], d)
  }

  lemma PrefixStep(start: seq<Cell>, state: seq<Entry>, i: nat, d: Dir)
    requires i < |state|
    ensures Advance(start, state[..i + 1], d) == Step(start, Advance(start, state[..i], d), state[i], d)
  {
    assert state[..i + 1][..i] == state[..i];
  }

  class SensorlessProblem {
    const maze: Maze
    /** Every floor cell, x in the outer loop and y in the inner one. */
    const startState: seq<Cell>
    var visited: int

    constructor (maze: Maze)
      requires Wf(maze)
      ensures this.maze == maze && ListsFloorCells(maze, startState) && visited == 0
    {
      this.maze := maze;
      var l := FloorCells(maze);
      startState := l;
      visited := 0;
    }

    /** The start state as a belief state. */
    function StartBelief(): (s: seq<Entry>)
      ensures |s| == |startState| && PairCount(s) == |startState|
      ensures forall k :: 0 <= k < |s| ==> s[k] == Pair(startState[k])
    {
      AllPairs(startState)
    }

    /** The number of candidate cells beyond the first.  The source promises
        exactly this formula; HeuristicNeverGrows relates it to moves. */
    function BlindHeuristic(state: seq<Entry>): (h: int)
      ensures h + 1 == |state|
    {
      |state| - 1
    }

    method ResetVisited()
      modifies this
      ensures visited == 0
    {
      visited := 0;
    }

    method IncrementVisited()
      modifies this
      ensures visited == old(visited) + 1
    {
      visited := visited + 1;
    }

    /** The visited counter, as the search reads it back. */
    method GetVisited() returns (v: int)
      ensures v == visited
    {
      return visited;
    }

    /** The four successor states, north, south, east and west. */
    method GetSuccessors(state: seq<Entry>) returns (succ: seq<seq<Entry>>)
      ensures |succ| == 4
      ensures forall k :: 0 <= k < 4 ==> succ[k] == Advance(startState, state, Directions[k])
    {
      var north: seq<Entry> := [];
      var south: seq<Entry> := [];
      var east: seq<Entry> := [];
      var west: seq<Entry> := [];
      for i := 0 to |state|
        invariant north == Advance(startState, state[..i], North)
        invariant south == Advance(startState, state[..i], South)
        invariant east == Advance(startState, state[..i], East)
        invariant west == Advance(startState, state[..i], West)
      {
        PrefixStep(startState, state, i, North);
        PrefixStep(startState, state, i, South);
        PrefixStep(startState, state, i, East);
        PrefixStep(startState, state, i, West);
        var pair := state[i];
        if pair.Scalar? {
          continue;
        }
        var x := pair.cell.0;
        var y := pair.cell.1;
        var northMove := (x, y + 1);
        var southMove := (x, y - 1);
        var eastMove := (x + 1, y);
        var westMove := (x - 1, y);
        if northMove in startState {
          north := north + [Pair(northMove)];
        } else if Pair(pair.cell) !in north {
          north := north + [Pair(pair.cell)];
        }
        if southMove in startState {
          south := south + [Pair(southMove)];
        } else if Pair(pair.cell) !in south {
          south := south + [Pair(pair.cell)];
        }
        if eastMove in startState {
          east := east + [Pair(eastMove)];
        } else if Pair(pair.cell) !in east {
          east := east + [Pair(pair.cell)];
        }
        if westMove in startState {
          west := west + [Pair(westMove)];
        } else if Pair(pair.cell) !in west {
          west := west + [Pair(pair.cell)];
        }
      }
      assert state[..|state|] == state;
      succ := [north, south, east, west];
    }

    /** The robot is localised when one candidate is left. */
    function GoalTest(state: seq<Entry>): (b: bool)
      ensures b <==> BlindHeuristic(state) == 0
    {
      |state| == 1
    }

    /** Every move costs one, whatever the states; the source promises
        exactly this unit step. */
    function IncrementCost(cost: int, newState: seq<Entry>, oldState: seq<Entry>): (c: int)
      ensures c > cost && c - cost == 1
    {
      cost + 1
    }
  }

  function AllPairs(cells: seq<Cell>): (s: seq<Entry>)
    ensures |s| == |cells| && PairCount(s) == |cells|
    ensures forall k :: 0 <= k < |s| ==> s[k] == Pair(cells[k])
  {
    if cells == [] then []
    else
      var s := AllPairs(cells[..|cells| - 1]) + [Pair(cells[|cells| - 1])];
      assert s[..|s| - 1] == AllPairs(cells[..|cells| - 1]);
      s
  }

  // ---------------------------------------------------------------------
  // What a successor state holds

  /** Some candidate of the state lands on c. */
  ghost predicate Reached(start: seq<Cell>, state: seq<Entry>, d: Dir, c: Cell) {
    exists p :: Pair(p) in state && Lands(start, p, d) == c
  }

  /** A successor lists exactly the cells the candidates land on. */
  lemma {:induction false} AdvanceMembers(start: seq<Cell>, state: seq<Entry>, d: Dir, c: Cell)
    ensures Pair(c) in Advance(start, state, d) <==> Reached(start, state, d, c)
  {
    if state != [] {
      var front := state[..|state| - 1];
      var e := state[|state| - 1];
      AdvanceMembers(start, front, d, c);
      assert state == front + [e];
      if Reached(start, state, d, c) {
        var p :| Pair(p) in state && Lands(start, p, d) == c;
        if Pair(p) in front {
          assert Reached(start, front, d, c);
        }
      }
      if Reached(start, front, d, c) {
        var p :| Pair(p) in front && Lands(start, p, d) == c;
        assert Pair(p) in state;
      }
    }
  }

  /** A bumped candidate is listed only once: a cell no candidate moves onto
      appears at most once in the successor. */
  lemma {:induction false} BumpedListedOnce(start: seq<Cell>, state: seq<Entry>, d: Dir, c: Cell)
    requires forall p :: Pair(p) in state && Neighbour(p, d) in start ==> Neighbour(p, d) != c
    ensures forall i, j :: 0 <= i < j < |Advance(start, state, d)| && Advance(start, state, d)[i] == Pair(c) ==> Advance(start, state, d)[j] != Pair(c)
  {
    if state != [] {
      var front := state[..|state| - 1];
      var e := state[|state| - 1];
      assert state == front + [e];
      BumpedListedOnce(start, front, d, c);
      var before := Advance(start, front, d);
      var r := Advance(start, state, d);
      assert r == Step(start, before, e, d);
      assert r[..|before|] == before;
      forall i, j | 0 <= i < j < |r| && r[i] == Pair(c) ensures r[j] != Pair(c) {
        if j >= |before| {
          assert j == |before| && e.Pair? && r == Step(start, before, e, d);
          assert r[i] == before[i] && before[i] in before;
          var p := e.cell;
          assert Pair(p) in state;
          if Neighbour(p, d) in start {
            assert r[j] == Pair(Neighbour(p, d));
          } else {
            assert Pair(p) !in before && r[j] == Pair(p);
          }
        } else {
          assert r[i] == before[i] && r[j] == before[j];
        }
      }
    }
  }

  /** Integers in the state change nothing. */
  function PairsOnly(state: seq<Entry>): (s: seq<Entry>)
    ensures |s| == PairCount(state)
    ensures forall k :: 0 <= k < |s| ==> s[k].Pair?
  {
    if state == [] then []
    else if state[|state| - 1].Scalar? then PairsOnly(state[..|state| - 1])
    else PairsOnly(state[..|state| - 1]) + [state[|state| - 1]]
  }

  lemma {:induction false} ScalarsSkipped(start: seq<Cell>, state: seq<Entry>, d: Dir)
    ensures Advance(start, PairsOnly(state), d) == Advance(start, state, d)
  {
    if state != [] {
      var front := state[..|state| - 1];
      ScalarsSkipped(start, front, d);
      if state[|state| - 1].Pair? {
        var s := PairsOnly(front) + [state[|state| - 1]];
        assert s[..|s| - 1] == PairsOnly(front);
      }
    }
  }

  /** Candidates that are all floor cells stay floor cells. */
  lemma StaysInStart(start: seq<Cell>, state: seq<Entry>, d: Dir)
    requires forall k :: 0 <= k < |state| && state[k].Pair? ==> state[k].cell in start
    ensures forall k :: 0 <= k < |Advance(start, state, d)| ==> Advance(start, state, d)[k].cell in start
  {
    var r := Advance(start, state, d);
    forall k | 0 <= k < |r| ensures r[k].cell in start {
      var c := r[k].cell;
      assert Pair(c) in r;
      AdvanceMembers(start, state, d, c);
      var p :| Pair(p) in state && Lands(start, p, d) == c;
      var j :| 0 <= j < |state| && state[j] == Pair(p);
    }
  }

  /** A move never adds candidates: the heuristic of a successor is at most
      that of the state. */
  lemma HeuristicNeverGrows(problem: SensorlessProblem, state: seq<Entry>, d: Dir)
    ensures problem.BlindHeuristic(Advance(problem.startState, state, d)) <= problem.BlindHeuristic(state)
  {
  }

  /** A localised robot stays localised, whatever the move. */
  lemma GoalIsKept(start: seq<Cell>, c: Cell, d: Dir)
    ensures |Advance(start, [Pair(c)], d)| == 1
  {
    assert [Pair(c)][..0] == [];
  }

  // ---------------------------------------------------------------------
  // A moved candidate is not checked against the cells already listed

  /** In a one-column corridor of two floor cells, believing the robot is in
      either and moving north gives the top cell twice: the robot is
      localised, but the goal test still sees two candidates. */
  lemma MovedCellRepeats()
    ensures Advance([(0, 0), (0, 1)], [Pair((0, 1)), Pair((0, 0))], North) == [Pair((0, 1)), Pair((0, 1))]
  {
    var start := [(0, 0), (0, 1)];
    var state := [Pair((0, 1)), Pair((0, 0))];
    assert (0, 2) !in start;
    assert state[..1] == [Pair((0, 1))];
    assert state[..1][..0] == [];
    assert Advance(start, state[..1], North) == [Pair((0, 1))];
  }

  /** Each candidate processed for direction d, appended only when its landing
      cell is not listed yet. */
  function StepDistinct(start: seq<Cell>, acc: seq<Entry>, e: Entry, d: Dir): seq<Entry> {
    match e
    case Scalar(_) => acc
    case Pair(p) =>
      if Pair(Lands(start, p, d)) in acc then acc else acc + [Pair(Lands(start, p, d))]
  }

  /** The successor as a set of candidates: the landing cells, each once. */
  function AdvanceDistinct(start: seq<Cell>, state: seq<Entry>, d: Dir): (r: seq<Entry>)
    ensures |r| <= PairCount(state)
    ensures forall k :: 0 <= k < |r| ==> r[k].Pair?
    ensures forall i, j :: 0 <= i < j < |r| ==> r[i] != r[j]
    ensures forall c :: Pair(c) in r <==> Reached(start, state, d, c)
  {
    if state == [] then []
    else
      var front := state[..|state| - 1];
      var e := state[|state| - 1];
      var before := AdvanceDistinct(start, front, d);
      var r := StepDistinct(start, before, e, d);
      assert state == front + [e];
      forall c ensures Pair(c) in r <==> Reached(start, state, d, c) {
        if Reached(start, state, d, c) {
          var p :| Pair(p) in state && Lands(start, p, d) == c;
          if Pair(p) in front {
            assert Reached(start, front, d, c);
          }
        }
        if Reached(start, front, d, c) {
          var p :| Pair(p) in front && Lands(start, p, d) == c;
          assert Pair(p) in state;
        }
      }
      r
  }

  /** The corrected successor holds the same cells as the one the code
      builds, without repeats; a localised belief keeps length one. */
  lemma DistinctSameCells(start: seq<Cell>, state: seq<Entry>, d: Dir, c: Cell)
    ensures Pair(c) in AdvanceDistinct(start, state, d) <==> Pair(c) in Advance(start, state, d)
  {
    AdvanceMembers(start, state, d, c);
  }

  /** With the corrected successor the goal test fires as soon as every
      candidate lands on the same cell c. */
  lemma {:induction false} LocalisedWhenAllLand(start: seq<Cell>, state: seq<Entry>, d: Dir, c: Cell)
    requires forall p :: Pair(p) in state ==> Lands(start, p, d) == c
    ensures AdvanceDistinct(start, state, d) == if exists p :: Pair(p) in state then [Pair(c)] else []
  {
    if state != [] {
      var front := state[..|state| - 1];
      var e := state[|state| - 1];
      assert state == front + [e];
      assert forall p :: Pair(p) in front ==> Pair(p) in state;
      LocalisedWhenAllLand(start, front, d, c);
      if exists p :: Pair(p) in front {
        var p :| Pair(p) in front;
        assert Pair(p) in state;
      }
      if e.Pair? {
        assert Pair(e.cell) in state;
      }
    }
  }
}
