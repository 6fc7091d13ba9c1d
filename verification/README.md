# Colour-maze robot localisation, modelled in Dafny

This project models the localisation code of a small robotics lab (`Maze.py`,
`SensorlessProblem.py`, `robot.py`, `sensor_problem.py`). The code has four parts:

- **Grid oracle.** A maze is a grid of characters read from text lines. The
  letters `R`, `G`, `B`, `Y` are coloured floor and anything else is a wall.
- **Blind robot.** A sensorless robot tracks the set of cells it might be in
  and moves all of them north, south, east or west at once.
- **Simulated robot.** This robot wanders at random and senses the floor colour
  under it. Its sensor is wrong when a random draw exceeds the error threshold
  0.88.
- **Hidden Markov model.** It is built over the grid and holds:
  - a state per cell;
  - a transition matrix;
  - one diagonal sensor matrix per colour;
  - a uniform prior.

  The forward filter folds the sensed colours into one belief vector per time
  step.

Modules:

- `Wrappers`: `Option`, `Result` and the Python exceptions the code can raise.
- `Text`: `str.strip()`, `str.split()` and `int()`, as the maze reader uses them.
- `MazeGrid`: the `Maze` value and its queries, counting, overlay and printing
  (`Maze.py`).
- `MazeReader`: the line-processing loop of `Maze.__init__`, over a given list of lines.
- `Sensorless`: class `SensorlessProblem` and its successor function.
- `RobotSim`: class `Robot`. The random draws are parameters, and the pure
  function `Walk` is the reference for `make_readings`.
- `Linear`: the numpy operations used, over `real`: sums, `v * M`, `getT()`, `normalize`.
- `HiddenMarkov`: the reference model, stated as functions. It covers the state
  numbering, the transition and sensor matrices, the prior, the filter, and
  the lemmas about them.
- `SensorLocalizer`: class `SensorProblem`. Its nested loops build the model
  in place, and each method is proved to build exactly the `HiddenMarkov`
  object.

## Model

| member | source | states |
|---|---|---|
| MazeGrid.Index | Maze.py:76-77 | Every in-grid cell has a position in [0, width*height) in the flat map, whose first row is the top line. |
| MazeGrid.IndexInjective | Maze.py:76-77 | Distinct in-grid cells have distinct map positions. |
| MazeGrid.IsFloor | Maze.py:81-87 | Only an in-grid cell can be floor. The predicate answers false outside the grid instead of failing. |
| MazeGrid.GetColor | Maze.py:89-98 | The answer is `W` or one of R, G, B, Y. It is not `W` exactly when the cell is floor, and then it is the map character. |
| MazeGrid.RobotChar | Maze.py:150-151 | Robot k is drawn as the character k places after `1`, so robots 0..8 get the digits `1`..`9`. |
| MazeGrid.HasRobot | Maze.py:100-112 | True iff (x, y) is in the grid and some placement pair (robotloc[2k], robotloc[2k+1]) equals it. |
| MazeGrid.NumWalls | Maze.py:68-74 | The column-by-column count equals the number of non-floor cells of the grid, which is at most width*height. |
| MazeGrid.WallsByColumnIsWalls | Maze.py:70-73 | Counting walls with x outer and y inner gives the same number as counting row by row. |
| MazeGrid.WallsBound | Maze.py:68-74 | A w-by-h block holds at most w*h walls. |
| MazeGrid.Overlay | Maze.py:119-128 | Drawing robots over the map keeps its length. |
| MazeGrid.OverlayUntouched | Maze.py:117-130 | A map position where no robot is drawn keeps its map character. |
| MazeGrid.OverlayLastWins | Maze.py:121-128 | Where several robots share a position, the character of the last one placed is shown. |
| MazeGrid.CreateRenderList | Maze.py:117-130 | The array filled in place equals the overlay of all robots, or IndexError when some robot's position lies outside [-len, len). Negative positions count from the end, as Python list indexing does. |
| MazeGrid.RenderList | Maze.py:117-130 | The render list fails, with IndexError, exactly when some robot's list position is rejected; otherwise it keeps the map's length. |
| MazeGrid.PlacedInGridRenders | Maze.py:124-127 | Robots placed inside the grid never raise IndexError. |
| MazeGrid.OffGridRaises | Maze.py:124-127 | A robot at x = 5 in a 3-by-1 maze raises IndexError. |
| MazeGrid.Cells | Maze.py:142-143 | Printed row y holds, at column x, the render-list character of cell (x, y). |
| MazeGrid.Lines | Maze.py:141-145 | There is one printed row per maze row, and all printed rows have the same width. |
| MazeGrid.JoinAt | Maze.py:141-145 | Concatenating rows of one width w puts character c of row j at offset j*w + c. |
| MazeGrid.Render | Maze.py:132-147 | The IndexError of the render list propagates; otherwise the string is the margin followed by the printed rows, top line first. |
| MazeGrid.PrintRows | Maze.py:140-147 | The nested loops build the margin followed by one printed row per maze row, top line first. |
| MazeGrid.PrintedCell | Maze.py:141-145 | Cell (x, y) appears in printed row height-1-y at column x of the output. |
| MazeGrid.PrintedBreak | Maze.py:145 | Every printed row ends with a newline followed by the six-space margin. |
| MazeGrid.Lands | robot.py:88-109 | A move reaches the neighbour or stays put, and a legal location moves only to legal locations. |
| MazeGrid.FloorCells | robot.py:22-28 | The list holds every floor cell and only floor cells, strictly ordered with x outer and y inner, so each appears once. |
| MazeGrid.FloorListingUnique | SensorlessProblem.py:10-17 | Any two lists with that property are equal, so the start state and the robot's legal locations coincide. |
| Text.Strip | Maze.py:45 | The result is a slice of the line that starts and ends with non-whitespace. |
| Text.StripDropsSpace | Maze.py:45 | Everything `strip()` removes at either end is whitespace. |
| Text.StripEmpty | Maze.py:45-48 | A line strips to empty exactly when it is whitespace throughout. |
| Text.SplitWords | Maze.py:52 | Every piece `split()` returns is a non-empty run without whitespace. |
| Text.SplitUnwords | Maze.py:52 | Splitting words joined by single spaces gives back the words. |
| Text.ParseInt | Maze.py:53-54 | On ASCII text, a token parses iff it is an optional `+` or `-` followed by a decimal literal (digits, single underscores between digits). The value is the digits' value, negated after `-`. |
| Text.ParseShowInt | Maze.py:53-54 | `int()` reads back how Python writes any integer. |
| MazeReader.Classify | Maze.py:45-58 | A line is blank iff it strips to empty. A line starting with a backslash is a directive split into words. Any other line is a non-empty grid row. |
| MazeReader.DirectiveCoords | Maze.py:52-54 | The directive succeeds iff it has at least three words and words 1 and 2 are integers. IndexError and ValueError arise exactly where Python raises them. |
| MazeReader.Parse | Maze.py:38-65 | The line loop returns exactly `Read`: the first exception, IndexError when there is no grid row, or the maze with placements, width, height and concatenated rows. |
| MazeReader.ErrorPersists | Maze.py:49-56 | Once a directive fails, no later line changes the outcome. |
| MazeReader.PlacementsPairUp | Maze.py:49-56 | Every directive appends exactly two integers, so `robotloc` has twice as many entries as there are directive lines. |
| MazeReader.BlankLinesIgnored | Maze.py:47-48 | Deleting the blank lines changes neither the placements, nor the grid rows, nor the maze. |
| MazeReader.ConcatLength | Maze.py:65 | Concatenating h rows of width w gives h*w characters. |
| MazeReader.ReadWellFormed | Maze.py:57-65 | A file whose grid rows all have the first row's width yields a well-formed maze. Its height is the number of rows and its placements are the parsed pairs. |
| MazeReader.GridRowsNonEmpty | Maze.py:57-58 | Every grid row kept is non-empty, so the width is at least 1. |
| MazeReader.RobotLineRoundTrip | Maze.py:49-54 | Reading a `\robot x y` line, as a maze file writes it, gives back (x, y). |
| Sensorless.PairCount | SensorlessProblem.py:50-55 | A state holds at most as many coordinate pairs as entries. |
| Sensorless.Advance | SensorlessProblem.py:50-88 | A successor holds only pairs, and it is no longer than the number of pairs in the state. |
| Sensorless.SensorlessProblem.constructor | SensorlessProblem.py:6-19 | The start state lists every floor cell once, with x outer and y inner, and the visited counter is 0. |
| Sensorless.SensorlessProblem.StartBelief | SensorlessProblem.py:17 | The start state read as a belief consists only of pairs, one per floor cell. |
| Sensorless.SensorlessProblem.BlindHeuristic | SensorlessProblem.py:27-28 | The heuristic plus one is the number of candidates. |
| Sensorless.SensorlessProblem.ResetVisited | SensorlessProblem.py:30-31 | The counter becomes 0. |
| Sensorless.SensorlessProblem.IncrementVisited | SensorlessProblem.py:33-34 | The counter grows by one. |
| Sensorless.SensorlessProblem.GetVisited | SensorlessProblem.py:36-37 | The method returns the counter. |
| Sensorless.SensorlessProblem.GetSuccessors | SensorlessProblem.py:39-96 | The loop returns four lists, and list k is the successor for direction k of north, south, east, west. |
| Sensorless.SensorlessProblem.GoalTest | SensorlessProblem.py:130-133 | The goal is reached exactly when the heuristic is 0. |
| Sensorless.SensorlessProblem.IncrementCost | SensorlessProblem.py:135-136 | Every move costs exactly one. |
| Sensorless.AllPairs | SensorlessProblem.py:17 | Cells become pairs one for one. |
| Sensorless.AdvanceMembers | SensorlessProblem.py:61-88 | A cell is in a successor iff some candidate lands on it: it moves there, or it bumps and stays there. |
| Sensorless.BumpedListedOnce | SensorlessProblem.py:71-87 | A cell that no candidate moves onto appears at most once in the successor. |
| Sensorless.PairsOnly | SensorlessProblem.py:54-55 | Dropping the integers leaves exactly the pairs. |
| Sensorless.ScalarsSkipped | SensorlessProblem.py:54-55 | Integer entries do not affect any successor. |
| Sensorless.StaysInStart | SensorlessProblem.py:67-88 | When every candidate is a start cell, every candidate of every successor is one too. |
| Sensorless.HeuristicNeverGrows | SensorlessProblem.py:27-28 | A move never increases the heuristic. |
| Sensorless.GoalIsKept | SensorlessProblem.py:130-133 | A localised robot stays localised whatever the move. |
| Sensorless.MovedCellRepeats | SensorlessProblem.py:67-72 | A moved cell is not checked against the list, so a two-cell corridor moved north lists the top cell twice. |
| Sensorless.AdvanceDistinct | SensorlessProblem.py:61-88 | The corrected successor holds only pairs, never repeats a cell, and holds exactly the cells some candidate lands on. |
| Sensorless.DistinctSameCells | SensorlessProblem.py:61-88 | The corrected successor and the built one hold the same cells. |
| Sensorless.LocalisedWhenAllLand | SensorlessProblem.py:130-133 | With the corrected successor, the state is down to a single candidate as soon as every candidate lands on the same cell. |
| RobotSim.Remove | robot.py:58 | `list.remove` drops exactly one entry: the first occurrence of x, keeping the others in order. |
| RobotSim.WrongColorsIsRemove | robot.py:57-58 | The wrong colours are what removing the true colour leaves of R, G, B, Y. |
| RobotSim.WrongColorsAreTheOthers | robot.py:57-58 | A colour is a wrong colour iff it is a colour other than the true one. |
| RobotSim.Reading | robot.py:48-67 | A reading is always a colour. It equals the true colour iff the draw is at most 0.88. |
| RobotSim.Successors | robot.py:74-111 | There are exactly four successors. |
| RobotSim.SuccessorsLegal | robot.py:74-111 | Entry k is the neighbour in direction k or the location itself. From a legal location, every successor is legal. |
| RobotSim.Trail | robot.py:43 | n choices visit n+1 locations, starting at the start. |
| RobotSim.TrailAt | robot.py:43 | Location t+1 is successor number choices[t] of location t. |
| RobotSim.TrailLegal | robot.py:70-71 | A walk that starts on a legal location stays on legal locations. |
| RobotSim.StepOnce | robot.py:35-44 | One pass fails with ValueError exactly off the floor. Otherwise it records the location and adds one reading. |
| RobotSim.Walk | robot.py:35-44 | The only failure of the loop is ValueError. |
| RobotSim.AllFloorMember | robot.py:22-28 | Every entry of an all-floor list is floor. |
| RobotSim.ListedFloorIsFloor | robot.py:22-28 | A list holding only floor cells is all-floor. |
| RobotSim.WalkFailsOnlyAtStart | robot.py:31-46 | Over floor-only legal locations, the loop fails iff it runs at least once from a wall, and a successful walk ends on the floor. |
| RobotSim.WalkStep | robot.py:35-44 | One more pass from a floor cell appends its reading, its location and its message, and moves to a floor cell. |
| RobotSim.WalkLast | robot.py:35-44 | A successful walk is its own first n-1 passes followed by one pass from a floor cell. |
| RobotSim.WalkAppends | robot.py:37-43 | The last pass appends its location and its reading, and moves to the chosen successor. |
| RobotSim.WalkLengths | robot.py:35-44 | n passes record n readings and n locations. |
| RobotSim.WalkFollowsTrail | robot.py:40-43 | The recorded locations followed by the current one are the trail of the choices made. |
| RobotSim.WalkSensed | robot.py:37-40 | Reading t is the sensor's report at recorded location t, with that step's draw and pick. |
| RobotSim.WalkLog | robot.py:61-63 | The messages are the error log of the recorded locations: one per draw above the threshold, naming the location. |
| RobotSim.OneMessagePerError | robot.py:61-64 | There are exactly as many messages as draws that took the error branch. |
| RobotSim.Robot.constructor | robot.py:9-19 | The robot starts at the first placement, with every floor cell legal, the given timestep, threshold 0.88 and empty logs. |
| RobotSim.Robot.GetSuccessors | robot.py:74-111 | The four slots written in place are the four successors. |
| RobotSim.Robot.Move | robot.py:70-71 | The new location is the chosen successor. |
| RobotSim.Robot.SenseColor | robot.py:48-67 | On a wall it raises ValueError and logs nothing. Otherwise it returns the reading and logs one message iff the draw exceeds the threshold. |
| RobotSim.Robot.MakeReadings | robot.py:31-46 | The loop performs the first max(timestep, 0) passes of `Walk`: readings, recorded locations, messages, final location, and a timestep reduced to 0. A robot on a wall fails and changes nothing. |
| Linear.Zeros | sensor_problem.py:277-281 | A zero vector has the requested length. |
| Linear.SumZeros | sensor_problem.py:272-283 | A zero row sums to 0. |
| Linear.SumUpdate | sensor_problem.py:198-205 | Writing one entry changes the row sum by the difference. |
| Linear.SetAll | sensor_problem.py:199-205 | Marking a list of indices keeps the row length. |
| Linear.SetAllAt | sensor_problem.py:199-205 | An entry is the mark iff its index was listed, and is unchanged otherwise. |
| Linear.SetAllSum | sensor_problem.py:199-205 | Marking n distinct zero entries with x adds n*x to the sum. |
| Linear.Transpose | sensor_problem.py:208 | `getT()` keeps the size. |
| Linear.TransposeTwice | sensor_problem.py:208 | Transposing a square matrix twice gives it back. |
| Linear.TransposeSymmetric | sensor_problem.py:208 | A symmetric matrix is its own transpose. |
| Linear.Columns | sensor_problem.py:130 | The first n columns of `v * M` form n entries. |
| Linear.VecMat | sensor_problem.py:130-133 | `v * M` has one entry per state. |
| Linear.ColumnsAt | sensor_problem.py:130-133 | Entry b of `v * M` is the dot product of v with column b. |
| Linear.VecMatNonneg | sensor_problem.py:130-133 | Non-negative factors give a non-negative product. |
| Linear.VecMatDiagonal | sensor_problem.py:133 | Multiplying by a matrix whose column b is zero off the diagonal scales entry b. |
| Linear.SumSqNonneg | sensor_problem.py:287 | A sum of squares is non-negative. |
| Linear.NormSign | sensor_problem.py:287-288 | The norm is non-negative, and it is 0 exactly when every square is 0. |
| Linear.Scaled | sensor_problem.py:290 | Dividing by a scalar keeps the length. |
| Linear.ScaledAt | sensor_problem.py:290 | Entry i is divided by the scalar. |
| Linear.Normalize | sensor_problem.py:286-290 | Normalising keeps the length. |
| Linear.NormalizeSpec | sensor_problem.py:286-290 | A zero-norm vector comes back unchanged. Otherwise each entry times the norm is the input entry, so a non-negative norm keeps signs and zeros. |
| HiddenMarkov.FirstStateIsProduct | sensor_problem.py:164-178 | Row j starts at state j*width. |
| HiddenMarkov.CellOfState | sensor_problem.py:167-178 | Every in-grid cell gets a state in [0, S), and that state maps back to the cell. |
| HiddenMarkov.StateOfCell | sensor_problem.py:167-178 | Every state in [0, S) is the state of an in-grid cell. |
| HiddenMarkov.StateInjective | sensor_problem.py:167-178 | Distinct cells get distinct states. |
| HiddenMarkov.StateEntriesAdd | sensor_problem.py:174-177 | Adding a cell's entry keeps every entry correct. |
| HiddenMarkov.StateMapBijective | sensor_problem.py:161-180 | The state map numbers 0..S-1 without gaps or repeats. Each state has exactly one cell, and its wall flag is the opposite of floor. |
| HiddenMarkov.IndexColors | sensor_problem.py:171 | There is one colour per state. |
| HiddenMarkov.IndexColorsAgree | sensor_problem.py:171-177 | `index_to_color` at a cell's state is that cell's colour, and it is a colour iff the cell is not flagged as a wall. |
| HiddenMarkov.FloorOnly | sensor_problem.py:253-266 | Filtering for floor never adds cells. |
| HiddenMarkov.FloorOnlyMembers | sensor_problem.py:253-266 | The kept cells are exactly the floor cells of the list. |
| HiddenMarkov.FloorOnlySnoc | sensor_problem.py:253-266 | Checking one more cell appends it iff it is floor. |
| HiddenMarkov.FloorOnlyDistinct | sensor_problem.py:253-266 | Filtering keeps distinctness. |
| HiddenMarkov.LegalMoves | sensor_problem.py:248-268 | The list has between 1 and 5 cells, the cell itself first. |
| HiddenMarkov.LegalMovesMembers | sensor_problem.py:248-268 | A cell is a legal move iff it is the cell itself or an adjacent floor cell, and no cell is listed twice. |
| HiddenMarkov.OtherStates | sensor_problem.py:199-205 | The states marked are no more than the moves. |
| HiddenMarkov.OtherStatesMembers | sensor_problem.py:199-205 | A state is marked iff it differs from the current state and is the state of a legal move. |
| HiddenMarkov.OtherStatesDistinct | sensor_problem.py:199-205 | The marked states are distinct states of the grid. |
| HiddenMarkov.OtherStatesLength | sensor_problem.py:201 | Only moves to the state itself are skipped. |
| HiddenMarkov.HitsOnce | sensor_problem.py:199-205 | Among distinct in-grid cells, exactly one has a given state when its cell is listed, and none otherwise. |
| HiddenMarkov.Stay | sensor_problem.py:198 | The stay probability (5-k)/4 is a probability. |
| HiddenMarkov.TransitionEntry | sensor_problem.py:182-205 | Every entry is a probability. Wall rows and wall columns are 0, and a non-zero entry off the diagonal is 1/4 between adjacent cells. |
| HiddenMarkov.TransitionRow | sensor_problem.py:186-205 | There is one entry per state. |
| HiddenMarkov.TransitionMatrix | sensor_problem.py:182-209 | The matrix is S by S. |
| HiddenMarkov.MarkedStates | sensor_problem.py:199-205 | The move loop marks exactly the floor states next to the cell. |
| HiddenMarkov.StayRow | sensor_problem.py:198 | The row is zero except for the stay probability on the diagonal. |
| HiddenMarkov.RowMarked | sensor_problem.py:194-205 | Marking every other legal move with 1/4 yields the row of the transition matrix. |
| HiddenMarkov.MarkedEntry | sensor_problem.py:194-205 | Each entry of the marked row is the transition entry. |
| HiddenMarkov.WallRow | sensor_problem.py:190-192 | A wall's row is all zeros. |
| HiddenMarkov.TransitionRowSum | sensor_problem.py:182-205 | Every floor row sums to 1 and every wall row sums to 0. |
| HiddenMarkov.TransitionSymmetric | sensor_problem.py:199-205 | A move between two cells has the same probability both ways. |
| HiddenMarkov.TransposeIsNoOp | sensor_problem.py:207-208 | The transpose returns the matrix it is given. |
| HiddenMarkov.SensorEntry | sensor_problem.py:227-236 | Every entry is a probability, and it is 0 off the diagonal and on walls. |
| HiddenMarkov.SensorRow | sensor_problem.py:222-236 | There is one entry per state. |
| HiddenMarkov.SensorMatrix | sensor_problem.py:220-238 | The sensor matrix of a colour is S by S. |
| HiddenMarkov.SensorRowAt | sensor_problem.py:225-236 | A cell's row is zero, except that a floor cell has 0.88 on the diagonal for its own colour and 0.12/3 for any other. |
| HiddenMarkov.SensorMatrices | sensor_problem.py:213-243 | The dictionary has exactly one matrix per colour of the maze. |
| HiddenMarkov.Likelihoods | sensor_problem.py:229-236 | There is one diagonal entry per colour. |
| HiddenMarkov.SensorSumsToOne | sensor_problem.py:229-236 | On a floor state the diagonal entries over the four colours sum to 1, and on a wall they sum to 0. |
| HiddenMarkov.SensorWeighs | sensor_problem.py:133 | Multiplying by a sensor matrix weighs each state by the likelihood of the sensed colour. |
| HiddenMarkov.WallFlags | sensor_problem.py:146-150 | There is one wall flag per state. |
| HiddenMarkov.OpenAndShut | sensor_problem.py:145 | Open and shut states add up to all states, and none is open iff all are shut. |
| HiddenMarkov.StateWallsRows | sensor_problem.py:145-150 | Counting shut states in state order is counting walls row by row. |
| HiddenMarkov.WallsNextCell | sensor_problem.py:145-150 | The next state in a row is the next cell of that row. |
| HiddenMarkov.Spread | sensor_problem.py:146-155 | There is one weight per state. |
| HiddenMarkov.SpreadSum | sensor_problem.py:146-155 | The weights sum to p times the number of open states. |
| HiddenMarkov.FloorCount | sensor_problem.py:145 | The divisor `len(state_map) - num_walls()` is the number of floor states. |
| HiddenMarkov.StartFailsWithoutFloor | sensor_problem.py:145 | The starting distribution fails with ZeroDivisionError exactly when the maze has no floor. |
| HiddenMarkov.StartIsUniform | sensor_problem.py:141-159 | Otherwise it is a belief, and every floor state gets the same positive weight. |
| HiddenMarkov.StartSumsToOne | sensor_problem.py:141-159 | The starting distribution sums to 1. |
| HiddenMarkov.SpreadSumsToOne | sensor_problem.py:145-155 | Giving 1/f to each of f open states sums to 1. |
| HiddenMarkov.FilterStep | sensor_problem.py:127-134 | One pass keeps the vector's length. |
| HiddenMarkov.Filtered | sensor_problem.py:115-138 | After n passes there are n+1 vectors, the first of which is the starting vector. |
| HiddenMarkov.FilteredSteps | sensor_problem.py:121-135 | Vector k+1 is one pass (predict, weigh by the colour sensed at step k, normalise) over vector k. |
| HiddenMarkov.PredictKeepsBelief | sensor_problem.py:130 | The prediction keeps weights non-negative and never moves weight onto a wall. |
| HiddenMarkov.UpdateKeepsBelief | sensor_problem.py:133-134 | Weighing by a sensor matrix and normalising keeps a belief a belief. |
| HiddenMarkov.FilteredBeliefs | sensor_problem.py:115-138 | Every vector the filter returns from a belief is a belief, so a wall never gets weight. |
| SensorLocalizer.ReadingsAreColors | sensor_problem.py:15 | Every colour the robot sensed is one of the four, so every one has a sensor matrix. |
| SensorLocalizer.CellsCount | sensor_problem.py:167-178 | The cells before (i, j) number j*width + i. |
| SensorLocalizer.MapCell | sensor_problem.py:171-178 | One pass gives cell (i, j) the next state, its wall flag and its colour. |
| SensorLocalizer.MappedAll | sensor_problem.py:161-180 | After the last row, the dictionary is the state map with S entries, and the colours are `index_to_color`. |
| SensorLocalizer.StateAt | sensor_problem.py:188 | Cell (i, j) has state j*width + i and its wall flag. |
| SensorLocalizer.SpreadNext | sensor_problem.py:146-155 | One pass appends the next entry of the starting vector. |
| SensorLocalizer.LegalMovesUnrolled | sensor_problem.py:248-268 | The four checks spell out the legal moves. |
| SensorLocalizer.TransitionCell | sensor_problem.py:188-205 | Handling cell (i, j) fills exactly its row. |
| SensorLocalizer.SensorCell | sensor_problem.py:225-236 | Handling cell (i, j) fills exactly its row of the sensor matrix. |
| SensorLocalizer.FilteredNext | sensor_problem.py:124-135 | One more pass of the loop appends the next vector. |
| SensorLocalizer.SensorProblem.constructor | sensor_problem.py:8-33 | From a robot and its readings, the state map, `index_to_color`, the transition matrix and the sensor matrices are exactly the reference objects. |
| SensorLocalizer.SensorProblem.Create | sensor_problem.py:8-33 | The whole construction fails iff the robot is placed on a wall and has to sense. Otherwise the sensed path is the readings of the robot's walk. |
| SensorLocalizer.SensorProblem.Solve | sensor_problem.py:35-42 | Solving fails with ZeroDivisionError iff the maze has no floor. Otherwise it returns the filtered beliefs from the uniform prior, and every one is a belief. |
| SensorLocalizer.SensorProblem.Filter | sensor_problem.py:115-138 | The loop returns `Filtered` over the whole path: the starting vector, then one vector per time step. |
| SensorLocalizer.SensorProblem.StartingDistribution | sensor_problem.py:141-159 | The vector built in state-map order is the uniform prior over the floor, or ZeroDivisionError. |
| SensorLocalizer.SensorProblem.MakeStateMap | sensor_problem.py:161-180 | The dictionary is the state map of all S cells, and `index_to_color` grows by the colour of every state in order. |
| SensorLocalizer.SensorProblem.FindLegalMoves | sensor_problem.py:248-268 | The list built is exactly the legal moves. |
| SensorLocalizer.SensorProblem.InitializeMatrix | sensor_problem.py:272-283 | The result is an S by S matrix of zeros. |
| SensorLocalizer.SensorProblem.MakeTransitionMatrix | sensor_problem.py:182-209 | The matrix filled cell by cell and then transposed is the transition matrix. |
| SensorLocalizer.SensorProblem.FillRow | sensor_problem.py:192-205 | A floor cell's row becomes its transition row, and every other row is unchanged. |
| SensorLocalizer.SensorProblem.MakeSensorMatrices | sensor_problem.py:213-243 | The dictionary holds, for each colour, that colour's sensor matrix. |
| SensorLocalizer.SensorProblem.SensorMatrixFor | sensor_problem.py:220-238 | The matrix filled cell by cell is the sensor matrix of the colour. |

## Left out

- File I/O in `Maze.__init__`. `MazeReader.Parse` takes the lines of the file.
- All printing: `render_solution`, `animate_path` (which also sleeps and rewrites the maze's `robotloc`), `SensorlessProblem.__str__` and the demonstration blocks.
- Randomness. `random.random()` and both uses of `random.choice` are parameters. Probability distributions are not modelled.
- Floating point. Probabilities are exact `real`s. The threshold is the exact real 0.88, and 0.12/3 is exact, whereas the float constants are not.
- Linear.Norm: the square root is a parameter `root` that is only assumed to be the square root on the non-negative reals. No claim is made about the normalised vector beyond sign, zeros and the zero-norm case.
- numpy shapes. Vectors are sequences and matrices are sequences of rows, so shape errors cannot occur.
- Dictionary iteration. The state map is iterated in insertion order, which is state order. The model walks the grid in that order directly.
- RobotSim.Robot.constructor: requires a maze with at least one placement inside the grid, and these runs of the code are not modelled:
  - A maze with no `\robot` line, or a timestep of 0 or less, builds a robot that never senses (robot.py:35), so the whole run succeeds.
  - With a positive timestep, a missing placement raises IndexError in `sense_color`.
  - An off-grid first placement makes `get_color` read the map at a wrapped position, or raise IndexError. A wrapped position on floor gives an ordinary reading, and the robot then moves by the bump rule.
- RobotSim.Robot.constructor: the location is the pair of the first placement. With several placements the code's location is the whole `robotloc` tuple. `get_successors` reads only its first two entries, and a bump returns the tuple unchanged (robot.py:88-109). So `correct_locs` records the long tuple until the first move that does not bump. That is not modelled.
- SensorLocalizer.SensorProblem.Create: requires the same about the first placement as the robot constructor, and leaves out the same runs.
- MazeGrid.CreateRenderList: requires fewer than 0xD800 - 0x31 robots (`FewRobots`), because a Dafny `char` cannot hold the surrogate code points that `chr` gives the later robot numbers. The code has no such limit below the ValueError of `chr` past 0x10FFFF.
- MazeGrid.Render: requires the same robot-count bound as `CreateRenderList`, for the same reason.
- Text.ParseInt: accepts ASCII digits only. Python's `int()` also accepts every Unicode decimal digit (so `\robot ٣ 1` places a robot at (3, 1)) and surrounding whitespace, which `split()` has already removed. Non-ASCII digits give ValueError in the model.
- Non-rectangular maze files: every grid query and both class constructors require `Wf`, so the flat map holds exactly width*height characters. This covers `MazeGrid.IsFloor`, `MazeGrid.GetColor`, `MazeGrid.NumWalls`, `MazeGrid.HasRobot`, `MazeGrid.FloorCells`, `RobotSim.Robot.constructor` and `SensorLocalizer.SensorProblem.constructor`. The code reads a file whose grid rows differ in length. There `is_floor` and `get_color` read a neighbouring row's character or raise IndexError. `MazeReader.Parse` reads such files, but no behaviour is modelled for them after reading.
- SensorLocalizer.SensorProblem.constructor: takes the robot and its readings as inputs. `Create` does what `__init__` does from the maze and the timestep.
- The inner loops of `make_transition_matrix` and `make_sensor_matrices` are split into the helper methods `FillRow` and `SensorMatrixFor`, and the printing loops of `__str__` into `PrintRows`. The loop of `filter` runs over the sensed path, whose length is max(timestep, 0).
- The graph search that drives `SensorlessProblem` is not part of this model.

## Findings

| source | as written | input that shows it | evidently intended | confidence | as-written member | corrected member |
|---|---|---|---|---|---|---|
| SensorlessProblem.py:67-88 | A moved cell is appended without checking whether it is already listed. Only a bumped cell is checked. | A one-column corridor of floor cells (0,0) and (0,1), belief [(0,1), (0,0)], moving north: the successor is [(0,1), (0,1)], so the goal test sees two candidates although the robot is localised. | A successor lists each reachable cell once, so the goal test fires when every candidate lands on one cell. | not executed | Sensorless.MovedCellRepeats | Sensorless.AdvanceDistinct |

`Sensorless.SensorlessProblem.GetSuccessors` models the code as written. `Sensorless.DistinctSameCells` shows that the corrected successor holds the same cells. `Sensorless.LocalisedWhenAllLand` proves the intended goal behaviour for the corrected successor.
