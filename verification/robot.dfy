/** The simulated robot of robot.py: it wanders the maze at random and senses
    the colour of the floor it stands on, reporting a wrong colour when its
    random draw exceeds the error threshold.  The random draws are supplied by
    the caller: `r` for `random.random()`, a pick among the three wrong colours
    and a choice among the four successors for `random.choice`. */
module RobotSim {
  import opened Wrappers
  import opened Text
  import opened MazeGrid

  /** `error_threshold`: a draw above it makes the sensor lie. */
  const ErrorThreshold: real := 0.88

  /** A draw of `random.choice` among the three wrong colours. */
  type Pick = k: nat | k < 3

  /** A draw of `random.choice` among the four successors. */
  type Choice = k: nat | k < 4

  /** r is s with its first x, at position i, taken out. */
  predicate RemovedFirst(s: seq<char>, x: char, r: seq<char>, i: int) {
    0 <= i < |s| && s[i] == x && x !in s[..i] && r == s[..i] + s[i + 1..]
  }

  /** `c.remove(x)`: the list without the first occurrence of x. */
  function Remove(s: seq<char>, x: char): (r: seq<char>)
    requires x in s
    ensures |r| == |s| - 1
    ensures exists i :: RemovedFirst(s, x, r, i)
  {
    if s[0] == x then
      assert RemovedFirst(s, x, s[1..], 0);
      s[1..]
    else
      var rest := Remove(s[1..], x);
      var i :| RemovedFirst(s[1..], x, rest, i);
      RemovedBehind(s, x, rest, i);
      [s[0]] + rest
  }

  /** Taking x out behind a different first element. */
  lemma RemovedBehind(s: seq<char>, x: char, rest: seq<char>, i: int)
    requires s != [] && s[0] != x && RemovedFirst(s[1..], x, rest, i)
    ensures RemovedFirst(s, x, [s[0]] + rest, i + 1)
  {
    assert s[..i + 1] == [s[0]] + s[1..][..i];
    assert s[i + 2..] == s[1..][i + 1..];
  }

  /** The three colours a faulty reading can report at a floor cell of
      colour actual, in the order of the colour list. */
  function WrongColors(actual: char): (c: seq<char>)
    requires actual in Colors
    ensures |c| == 3
  {
    if actual == 'R' then "GBY"
    else if actual == 'G' then "RBY"
    else if actual == 'B' then "RGY"
    else "RGB"
  }

  /** They are what `c.remove(real)` leaves of the colour list. */
  lemma WrongColorsIsRemove(actual: char)
    requires actual in Colors
    ensures WrongColors(actual) == Remove(Colors, actual)
  {
    var rest := Colors[1..];
    assert rest == ['G', 'B', 'Y'] && rest[1..] == ['B', 'Y'] && rest[1..][1..] == ['Y'];
  }

  /** The wrong colours are exactly the other three. */
  lemma WrongColorsAreTheOthers(actual: char, x: char)
    requires actual in Colors
    ensures x in WrongColors(actual) <==> x in Colors && x != actual
  {
  }

  /** The reading at a cell of colour actual for draw r: the true colour unless
      r exceeds the threshold, then the wrong colour number `pick`. */
  function Reading(actual: char, r: real, pick: Pick): (c: char)
    requires actual in Colors
    ensures c in Colors
    ensures c == actual <==> r <= ErrorThreshold
  {
    if r > ErrorThreshold then WrongColors(actual)[pick] else actual
  }

  /** `"Wrong color sensed at ({}, {})".format(x, y)`. */
  function ErrorMessage(loc: Cell): string {
    "Wrong color sensed at (" + ShowInt(loc.0) + ", " + ShowInt(loc.1) + ")"
  }

  /** The four places a move can lead, north, south, east and west. */
  function Successors(legal: seq<Cell>, loc: Cell): (s: seq<Cell>)
    ensures |s| == 4
  {
    seq(4, k requires 0 <= k < 4 => Lands(legal, loc, Directions[k]))
  }

  /** Every successor of a legal location is legal, and is the location
      itself or its neighbour in that direction. */
  lemma SuccessorsLegal(legal: seq<Cell>, loc: Cell)
    ensures forall k :: 0 <= k < 4 ==> Successors(legal, loc)[k] == Neighbour(loc, Directions[k]) || Successors(legal, loc)[k] == loc
    ensures loc in legal ==> forall k :: 0 <= k < 4 ==> Successors(legal, loc)[k] in legal
  {
  }

  /** The locations visited when the successor numbered choices[t] is taken
      at step t: one more location than there are choices. */
  function Trail(legal: seq<Cell>, start: Cell, choices: seq<Choice>): (p: seq<Cell>)
    ensures |p| == |choices| + 1 && p[0] == start
  {
    if choices == [] then [start]
    else
      var q := Trail(legal, start, choices[..|choices| - 1]);
      q + [Successors(legal, q[|q| - 1])[choices[|choices| - 1]]]
  }

  lemma {:induction false} TrailAt(legal: seq<Cell>, start: Cell, choices: seq<Choice>, t: nat)
    requires t < |choices|
    ensures Trail(legal, start, choices)[t + 1] == Successors(legal, Trail(legal, start, choices)[t])[choices[t]]
  {
    var front := choices[..|choices| - 1];
    if t < |front| {
      TrailAt(legal, start, front, t);
      assert front[t] == choices[t];
    }
  }

  /** A walk that starts on a legal location never leaves the legal ones. */
  lemma {:induction false} TrailLegal(legal: seq<Cell>, start: Cell, choices: seq<Choice>)
    requires start in legal
    ensures forall t :: 0 <= t < |Trail(legal, start, choices)| ==> Trail(legal, start, choices)[t] in legal
  {
    if choices != [] {
      var front := choices[..|choices| - 1];
      TrailLegal(legal, start, front);
      var q := Trail(legal, start, front);
      SuccessorsLegal(legal, q[|q| - 1]);
    }
  }

  /** The error messages logged along a walk, location locs[t] sensed with
      draw draws[t]: one per draw above the threshold, naming the location. */
  function ErrorLog(locs: seq<Cell>, draws: seq<real>): seq<string>
    requires |locs| <= |draws|
  {
    if locs == [] then []
    else
      var n := |locs| - 1;
      ErrorLog(locs[..n], draws) + (if draws[n] > ErrorThreshold then [ErrorMessage(locs[n])] else [])
  }

  /** `reading` is what the sensor reports at floor cell c with draw r and
      wrong-colour pick p. */
  predicate SensedAt(m: Maze, c: Cell, reading: char, r: real, p: Pick)
    requires Wf(m)
  {
    IsFloor(m, c.0, c.1) && reading == Reading(GetColor(m, c.0, c.1), r, p)
  }

  /** What `make_readings` has produced so far: the readings, the true
      locations they were taken at, the messages logged and where the robot
      now is. */
  datatype Progress = Progress(readings: seq<char>, locs: seq<Cell>, msgs: seq<string>, at: Cell)

  /** One pass of the loop of `make_readings`: sense at the current location
      (a ValueError off the floor), record it, then take successor `choice`. */
  function StepOnce(m: Maze, legal: seq<Cell>, p: Progress, r: real, pick: Pick, choice: Choice): (q: Result<Progress>)
    requires Wf(m)
    ensures q.Err? <==> !IsFloor(m, p.at.0, p.at.1)
    ensures q.Err? ==> q.error == ValueError
    ensures q.Ok? ==> q.value.locs == p.locs + [p.at] && |q.value.readings| == |p.readings| + 1
  {
    if !IsFloor(m, p.at.0, p.at.1) then Err(ValueError)
    else
      var reading := Reading(GetColor(m, p.at.0, p.at.1), r, pick);
      var logged := if r > ErrorThreshold then [ErrorMessage(p.at)] else [];
      Ok(Progress(p.readings + [reading], p.locs + [p.at], p.msgs + logged, Successors(legal, p.at)[choice]))
  }

  /** The first n passes of the loop from location start, step t using draw
      draws[t], pick picks[t] and choice choices[t]; the exception of the
      first step that fails. */
  function Walk(m: Maze, legal: seq<Cell>, start: Cell, draws: seq<real>, picks: seq<Pick>, choices: seq<Choice>, n: nat): (w: Result<Progress>)
    requires Wf(m) && n <= |draws| && n <= |picks| && n <= |choices|
    ensures w.Err? ==> w.error == ValueError
  {
    if n == 0 then Ok(Progress([], [], [], start))
    else
      var before := Walk(m, legal, start, draws, picks, choices, n - 1);
      if before.Err? then before
      else StepOnce(m, legal, before.value, draws[n - 1], picks[n - 1], choices[n - 1])
  }

  /** Every entry of l is a floor cell of m, stated one entry at a time. */
  predicate AllFloor(m: Maze, l: seq<Cell>)
    requires Wf(m)
  {
    l == [] || (AllFloor(m, l[..|l| - 1]) && IsFloor(m, l[|l| - 1].0, l[|l| - 1].1))
  }

  lemma {:induction false} AllFloorMember(m: Maze, l: seq<Cell>, c: Cell)
    requires Wf(m) && AllFloor(m, l) && c in l
    ensures IsFloor(m, c.0, c.1)
  {
    var front := l[..|l| - 1];
    if c != l[|l| - 1] {
      assert l == front + [l[|l| - 1]];
      AllFloorMember(m, front, c);
    }
  }

  lemma {:induction false} ListedFloorIsFloor(m: Maze, l: seq<Cell>)
    requires Wf(m) && forall c :: c in l ==> IsFloor(m, c.0, c.1)
    ensures AllFloor(m, l)
  {
    if l != [] {
      var front := l[..|l| - 1];
      assert forall c :: c in front ==> c in l;
      ListedFloorIsFloor(m, front);
    }
  }

  /** Once the robot stands on a floor cell it only ever moves to floor
      cells, so a walk over floor-only legal locations fails exactly when it
      starts on a wall. */
  lemma {:induction false} WalkFailsOnlyAtStart(m: Maze, legal: seq<Cell>, start: Cell, draws: seq<real>, picks: seq<Pick>, choices: seq<Choice>, n: nat)
    requires Wf(m) && AllFloor(m, legal)
    requires n <= |draws| && n <= |picks| && n <= |choices|
    ensures Walk(m, legal, start, draws, picks, choices, n).Err? <==> n > 0 && !IsFloor(m, start.0, start.1)
    ensures Walk(m, legal, start, draws, picks, choices, n).Ok? && n > 0 ==>
              IsFloor(m, Walk(m, legal, start, draws, picks, choices, n).value.at.0, Walk(m, legal, start, draws, picks, choices, n).value.at.1)
  {
    if n > 0 {
      WalkFailsOnlyAtStart(m, legal, start, draws, picks, choices, n - 1);
      var before := Walk(m, legal, start, draws, picks, choices, n - 1);
      if before.Ok? && IsFloor(m, before.value.at.0, before.value.at.1) {
        var p := before.value;
        var next := Successors(legal, p.at)[choices[n - 1]];
        SuccessorsLegal(legal, p.at);
        if next != p.at {
          AllFloorMember(m, legal, next);
        }
      }
    }
  }

  /** One more pass from a floor cell, spelled out; over floor-only legal
      locations it ends on a floor cell again. */
  lemma WalkStep(m: Maze, legal: seq<Cell>, start: Cell, draws: seq<real>, picks: seq<Pick>, choices: seq<Choice>, i: nat, p: Progress)
    requires Wf(m) && AllFloor(m, legal)
    requires i < |draws| && i < |picks| && i < |choices|
    requires Walk(m, legal, start, draws, picks, choices, i) == Ok(p) && IsFloor(m, p.at.0, p.at.1)
    ensures var next := Successors(legal, p.at)[choices[i]];
            && Walk(m, legal, start, draws, picks, choices, i + 1)
               == Ok(Progress(p.readings + [Reading(GetColor(m, p.at.0, p.at.1), draws[i], picks[i])],
                              p.locs + [p.at],
                              p.msgs + (if draws[i] > ErrorThreshold then [ErrorMessage(p.at)] else []),
                              next))
            && IsFloor(m, next.0, next.1)
  {
    var next := Successors(legal, p.at)[choices[i]];
    SuccessorsLegal(legal, p.at);
    if next != p.at {
      AllFloorMember(m, legal, next);
    }
  }

  /** A walk of n > 0 passes that succeeded is the walk p of n - 1 passes,
      ending on a floor cell, followed by one more pass. */
  lemma WalkLast(m: Maze, legal: seq<Cell>, start: Cell, draws: seq<real>, picks: seq<Pick>, choices: seq<Choice>, n: nat)
    returns (p: Progress)
    requires Wf(m) && 0 < n <= |draws| && n <= |picks| && n <= |choices|
    requires Walk(m, legal, start, draws, picks, choices, n).Ok?
    ensures Walk(m, legal, start, draws, picks, choices, n - 1) == Ok(p)
    ensures IsFloor(m, p.at.0, p.at.1)
    ensures Walk(m, legal, start, draws, picks, choices, n)
         == Ok(Progress(p.readings + [Reading(GetColor(m, p.at.0, p.at.1), draws[n - 1], picks[n - 1])],
                        p.locs + [p.at],
                        p.msgs + (if draws[n - 1] > ErrorThreshold then [ErrorMessage(p.at)] else []),
                        Successors(legal, p.at)[choices[n - 1]]))
  {
    p := Walk(m, legal, start, draws, picks, choices, n - 1).value;
  }

  /** The trail of n choices is the trail of the first n - 1 and one more
      successor. */
  lemma TrailSnoc(legal: seq<Cell>, start: Cell, choices: seq<Choice>, n: nat)
    requires 0 < n <= |choices|
    ensures var before := Trail(legal, start, choices[..n - 1]);
            Trail(legal, start, choices[..n]) == before + [Successors(legal, before[|before| - 1])[choices[n - 1]]]
  {
    assert choices[..n][..n - 1] == choices[..n - 1];
  }

  /** The log of one more location is the log so far and that location's
      message, if its draw was above the threshold. */
  lemma ErrorLogSnoc(locs: seq<Cell>, at: Cell, draws: seq<real>)
    requires |locs| < |draws|
    ensures ErrorLog(locs + [at], draws)
         == ErrorLog(locs, draws) + (if draws[|locs|] > ErrorThreshold then [ErrorMessage(at)] else [])
  {
    assert (locs + [at])[..|locs|] == locs;
  }

  /** After n passes there are n readings and n recorded locations, and the
      recorded locations followed by the current one are the trail of the
      choices made. */
  lemma {:induction false} WalkFollowsTrail(m: Maze, legal: seq<Cell>, start: Cell, draws: seq<real>, picks: seq<Pick>, choices: seq<Choice>, n: nat)
    requires Wf(m) && n <= |draws| && n <= |picks| && n <= |choices|
    requires Walk(m, legal, start, draws, picks, choices, n).Ok?
    ensures |Walk(m, legal, start, draws, picks, choices, n).value.readings| == n
    ensures Walk(m, legal, start, draws, picks, choices, n).value.locs + [Walk(m, legal, start, draws, picks, choices, n).value.at]
         == Trail(legal, start, choices[..n])
  {
    if n > 0 {
      var p := WalkAppends(m, legal, start, draws, picks, choices, n);
      WalkFollowsTrail(m, legal, start, draws, picks, choices, n - 1);
      TrailSnoc(legal, start, choices, n);
      Associative(p.locs, [p.at], [Successors(legal, p.at)[choices[n - 1]]]);
    }
  }

  /** Every reading is the sensor's report at the location it was taken at,
      with that step's draw and pick. */
  lemma {:induction false} WalkSensed(m: Maze, legal: seq<Cell>, start: Cell, draws: seq<real>, picks: seq<Pick>, choices: seq<Choice>, n: nat, t: nat)
    requires Wf(m) && n <= |draws| && n <= |picks| && n <= |choices|
    requires Walk(m, legal, start, draws, picks, choices, n).Ok? && t < n
    ensures t < |Walk(m, legal, start, draws, picks, choices, n).value.readings|
    ensures t < |Walk(m, legal, start, draws, picks, choices, n).value.locs|
    ensures SensedAt(m, Walk(m, legal, start, draws, picks, choices, n).value.locs[t],
                     Walk(m, legal, start, draws, picks, choices, n).value.readings[t], draws[t], picks[t])
  {
    var p := WalkAppends(m, legal, start, draws, picks, choices, n);
    WalkLengths(m, legal, start, draws, picks, choices, n - 1);
    if t < n - 1 {
      WalkSensed(m, legal, start, draws, picks, choices, n - 1, t);
    }
  }

  /** The last pass appends its location and its reading. */
  lemma WalkAppends(m: Maze, legal: seq<Cell>, start: Cell, draws: seq<real>, picks: seq<Pick>, choices: seq<Choice>, n: nat)
    returns (p: Progress)
    requires Wf(m) && 0 < n <= |draws| && n <= |picks| && n <= |choices|
    requires Walk(m, legal, start, draws, picks, choices, n).Ok?
    ensures Walk(m, legal, start, draws, picks, choices, n - 1) == Ok(p)
    ensures Walk(m, legal, start, draws, picks, choices, n).value.locs == p.locs + [p.at]
    ensures Walk(m, legal, start, draws, picks, choices, n).value.readings
            == p.readings + [Reading(GetColor(m, p.at.0, p.at.1), draws[n - 1], picks[n - 1])]
    ensures Walk(m, legal, start, draws, picks, choices, n).value.at == Successors(legal, p.at)[choices[n - 1]]
  {
    p := WalkLast(m, legal, start, draws, picks, choices, n);
  }

  /** n passes record n readings and n locations. */
  lemma {:induction false} WalkLengths(m: Maze, legal: seq<Cell>, start: Cell, draws: seq<real>, picks: seq<Pick>, choices: seq<Choice>, n: nat)
    requires Wf(m) && n <= |draws| && n <= |picks| && n <= |choices|
    requires Walk(m, legal, start, draws, picks, choices, n).Ok?
    ensures |Walk(m, legal, start, draws, picks, choices, n).value.readings| == n
    ensures |Walk(m, legal, start, draws, picks, choices, n).value.locs| == n
  {
    if n > 0 {
      var p := WalkLast(m, legal, start, draws, picks, choices, n);
      WalkLengths(m, legal, start, draws, picks, choices, n - 1);
    }
  }

  /** The messages logged are one per draw above the threshold, naming the
      location sensed, in order. */
  lemma {:induction false} WalkLog(m: Maze, legal: seq<Cell>, start: Cell, draws: seq<real>, picks: seq<Pick>, choices: seq<Choice>, n: nat)
    requires Wf(m) && n <= |draws| && n <= |picks| && n <= |choices|
    requires Walk(m, legal, start, draws, picks, choices, n).Ok?
    ensures |Walk(m, legal, start, draws, picks, choices, n).value.locs| == n
    ensures Walk(m, legal, start, draws, picks, choices, n).value.msgs
         == ErrorLog(Walk(m, legal, start, draws, picks, choices, n).value.locs, draws)
  {
    WalkLengths(m, legal, start, draws, picks, choices, n);
    if n > 0 {
      var p := WalkLast(m, legal, start, draws, picks, choices, n);
      WalkLog(m, legal, start, draws, picks, choices, n - 1);
      ErrorLogSnoc(p.locs, p.at, draws);
    }
  }

  /** How many draws took the error branch. */
  function Exceeding(draws: seq<real>): nat {
    if draws == [] then 0
    else Exceeding(draws[..|draws| - 1]) + (if draws[|draws| - 1] > ErrorThreshold then 1 else 0)
  }

  /** Exactly one error message is logged per draw above the threshold,
      that is, per wrong reading. */
  lemma {:induction false} OneMessagePerError(locs: seq<Cell>, draws: seq<real>)
    requires |locs| <= |draws|
    ensures |ErrorLog(locs, draws)| == Exceeding(draws[..|locs|])
  {
    if locs != [] {
      var n := |locs| - 1;
      OneMessagePerError(locs[..n], draws);
      assert draws[..|locs|][..n] == draws[..n];
    }
  }

  /** Regrouping a concatenation; the localiser's proofs use it too. */
  lemma Associative<T>(a: seq<T>, b: seq<T>, c: seq<T>)
    ensures (a + b) + c == a + (b + c)
  {
  }

  class Robot {
    const maze: Maze
    const errorThreshold: real
    var timestep: int
    /** Every floor cell, x in the outer loop and y in the inner one. */
    const legalLocs: seq<Cell>
    var loc: Cell
    var correctLocs: seq<Cell>
    var errorMsgs: seq<string>

    /** What sensing needs: a well-formed maze, a location on the grid and
        the threshold of robot.py. */
    predicate CanSense()
      reads this
    {
      && Wf(maze)
      && InBounds(maze, loc.0, loc.1)
      && errorThreshold == ErrorThreshold
    }

    predicate Valid()
      reads this
    {
      && CanSense()
      && AllFloor(maze, legalLocs)
    }

    /** The robot starts at the first placement of the maze. */
    constructor (maze: Maze, timestep: int)
      requires Wf(maze) && |maze.robotloc| >= 2
      requires InBounds(maze, maze.robotloc[0], maze.robotloc[1])
      ensures Valid() && ListsFloorCells(maze, legalLocs)
      ensures this.maze == maze && this.timestep == timestep
      ensures loc == (maze.robotloc[0], maze.robotloc[1])
      ensures correctLocs == [] && errorMsgs == []
    {
      this.maze := maze;
      errorThreshold := ErrorThreshold;
      this.timestep := timestep;
      var l := FloorCells(maze);
      legalLocs := l;
      ListedFloorIsFloor(maze, l);
      loc := (maze.robotloc[0], maze.robotloc[1]);
      correctLocs := [];
      errorMsgs := [];
    }

    /** The four successors of the current location, written slot by slot. */
    method GetSuccessors() returns (succ: seq<Cell>)
      ensures succ == Successors(legalLocs, loc)
    {
      var a := new Cell[4];
      var x := loc.0;
      var y := loc.1;
      var northMove := (x, y + 1);
      var southMove := (x, y - 1);
      var eastMove := (x + 1, y);
      var westMove := (x - 1, y);
      if northMove in legalLocs {
        a[0] := northMove;
      } else {
        a[0] := loc;
      }
      if southMove in legalLocs {
        a[1] := southMove;
      } else {
        a[1] := loc;
      }
      if eastMove in legalLocs {
        a[2] := eastMove;
      } else {
        a[2] := loc;
      }
      if westMove in legalLocs {
        a[3] := westMove;
      } else {
        a[3] := loc;
      }
      succ := a[..];
    }

    /** The successor numbered `choice` (the draw of `random.choice`). */
    method Move(choice: Choice) returns (next: Cell)
      ensures next == Successors(legalLocs, loc)[choice]
    {
      var succ := GetSuccessors();
      next := succ[choice];
    }

    /** Sense the colour at the current location with draw r.  A wall has no
        colour to remove from the list of wrong ones: ValueError. */
    method SenseColor(r: real, pick: Pick) returns (c: Result<char>)
      requires CanSense()
      modifies this`errorMsgs
      ensures c.Err? <==> !IsFloor(maze, loc.0, loc.1)
      ensures c.Err? ==> c.error == ValueError && errorMsgs == old(errorMsgs)
      ensures c.Ok? ==> c.value == Reading(GetColor(maze, loc.0, loc.1), r, pick)
      ensures c.Ok? ==> errorMsgs == old(errorMsgs) + (if r > ErrorThreshold then [ErrorMessage(loc)] else [])
    {
      var actual := GetColor(maze, loc.0, loc.1);
      var colours := Colors;
      if actual !in colours {
        return Err(ValueError);
      }
      var wrong := Remove(colours, actual);
      WrongColorsIsRemove(actual);
      if r > errorThreshold {
        errorMsgs := errorMsgs + [ErrorMessage(loc)];
        return Ok(wrong[pick]);
      }
      return Ok(actual);
    }

    /** Sense, record the true location and move, until `timestep` runs out:
        the first max(timestep, 0) passes of `Walk`.  A robot placed on a
        wall fails at once and changes nothing. */
    method MakeReadings(draws: seq<real>, picks: seq<Pick>, choices: seq<Choice>) returns (readings: Result<seq<char>>)
      requires Valid()
      requires timestep <= |draws| && timestep <= |picks| && timestep <= |choices|
      modifies this
      ensures Valid()
      ensures var n := if old(timestep) > 0 then old(timestep) else 0;
              var w := Walk(maze, legalLocs, old(loc), draws, picks, choices, n);
              && (readings.Err? <==> w.Err?)
              && (readings.Err? ==> && readings.error == w.error
                                    && timestep == old(timestep) && loc == old(loc)
                                    && correctLocs == old(correctLocs) && errorMsgs == old(errorMsgs))
              && (readings.Ok? ==> && readings.value == w.value.readings
                                   && timestep == old(timestep) - n && loc == w.value.at
                                   && correctLocs == old(correctLocs) + w.value.locs
                                   && errorMsgs == old(errorMsgs) + w.value.msgs)
    {
      ghost var n := if timestep > 0 then timestep else 0;
      ghost var start := loc;
      ghost var locs0 := correctLocs;
      ghost var msgs0 := errorMsgs;
      ghost var locs: seq<Cell> := [];
      ghost var msgs: seq<string> := [];
      var i := 0;  // how many draws have been used
      var sensorReadings: seq<char> := [];
      while timestep > 0
        invariant CanSense()
        invariant 0 <= i <= n && timestep == old(timestep) - i
        invariant Walk(maze, legalLocs, start, draws, picks, choices, i) == Ok(Progress(sensorReadings, locs, msgs, loc))
        invariant correctLocs == locs0 + locs && errorMsgs == msgs0 + msgs
      {
        var c := SenseColor(draws[i], picks[i]);
        if c.Err? {
          assert i == 0 && Walk(maze, legalLocs, start, draws, picks, choices, n).Err? by {
            WalkFailsOnlyAtStart(maze, legalLocs, start, draws, picks, choices, i);
            WalkFailsOnlyAtStart(maze, legalLocs, start, draws, picks, choices, n);
          }
          return Err(c.error);
        }
        var next := Move(choices[i]);
        WalkStep(maze, legalLocs, start, draws, picks, choices, i, Progress(sensorReadings, locs, msgs, loc));
        ghost var logged := if draws[i] > ErrorThreshold then [ErrorMessage(loc)] else [];
        assert Walk(maze, legalLocs, start, draws, picks, choices, i + 1)
            == Ok(Progress(sensorReadings + [c.value], locs + [loc], msgs + logged, next));
        Associative(msgs0, msgs, logged);
        Associative(locs0, locs, [loc]);
        sensorReadings := sensorReadings + [c.value];
        msgs := msgs + logged;
        locs := locs + [loc];
        correctLocs := correctLocs + [loc];
        loc := next;
        timestep := timestep - 1;
        i := i + 1;
      }
      assert i == n;
      readings := Ok(sensorReadings);
    }
  }
}
