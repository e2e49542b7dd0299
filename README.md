# Maze solver and military time converter, modelled in Dafny

This project models two small C# programs.

**The maze program** (`JakeTheSnakeTeam16/Program.cs`) reads a maze drawn as text rows:
a space is open floor, `$` is the snake and `F` is the goal, and every other character
(`+`, `-`, `=`, `|` and anything else) blocks the solver.
It answers with the moves `up`, `down`, `left`, `right` that take the snake to the goal.
The model covers:

- `Vec2` and its `+`, `-` and `==` (module `Geometry`).
- The table of the four exploration offsets.
- `GetNeighbours` and the row-major scan for `$` and `F` (module `MazeGrid`).
- `ReconstructPath`, which walks the `cameFrom` chain back and reverses it (module `MazePath`).
- The A* loop of `SolveMaze` (module `MazeSolver`):
  - The priority queue is a multiset of entries. Each step takes some entry of least priority.
  - The Euclidean heuristic is a parameter.
  - The solver is proved to terminate.
  - An answer is a route that replays over walkable cells from `$` to `F`. When `$` and `F` are distinct cells, the answer is empty exactly when no such route exists.
  - The only fault is an out-of-range neighbour lookup. It comes only after a route from `$` has reached a cell with an out-of-range offset neighbour, so an enclosed maze never meets it.
- `GenerateTestMaze` (module `MazeGenerator`):
  - `Random.Next()` is an oracle `rnd(i)`, the `i`-th value it returns.
  - A generated maze is proved enclosed, so the solver never faults on it.
  - A 3 by 3 maze is proved to make the generator's redraw loop spin forever.

**The military time converter** (`CO2023/Program.cs`, module `MilitaryTime`) reads a
12-hour time such as `7:45AM` and speaks it the military way, `zero seven forty five`.
The model covers:

- `ParseTime`, with `int.TryParse` over `NumberStyles.Integer` and every exception as an error value.
- `ConvertTime`, with its `StringBuilder` appends as string concatenation.
- The two name tables.
- Every assertion of the program's `Main` as a lemma.

`ParseTime` is proved to invert a 12-hour formatter for every 24-hour time. `ConvertTime`
is proved equal to a spoken-names specification. That specification is the names from the
two tables, joined by single spaces.

The minutes 30, 40 and 50 are spoken as written: the tens name followed by `zero`, so
`6:30PM` is `eighteen thirty zero` (`MilitaryTime.SaysSixThirtyPm`).

## Model

| member | source | states |
|---|---|---|
| Geometry.Add | JakeTheSnakeTeam16/Program.cs:290-293 | the sum leaves `a` unchanged exactly when `b` is the zero offset |
| Geometry.Sub | JakeTheSnakeTeam16/Program.cs:295-298 | the difference is zero exactly when the two coordinates are equal |
| Geometry.OffsetIndex | JakeTheSnakeTeam16/Program.cs:24-30 | a delta has an index below 4 exactly when it is one of the four offsets, and that index picks it out of the table |
| Geometry.AddSubInverse | JakeTheSnakeTeam16/Program.cs:290-298 | `-` undoes `+` and `+` undoes `-` |
| Geometry.OffsetIndexOfStep | JakeTheSnakeTeam16/Program.cs:259-261 | the coordinates whose difference from `c` is offset `k` are exactly `c + offsets[k]` |
| MazeGrid.NeighboursFrom | JakeTheSnakeTeam16/Program.cs:259-264 | the neighbours from offset `k` on are exactly the walkable (space or `F`) offset cells from `k` on, in offset order |
| MazeGrid.GetNeighbours | JakeTheSnakeTeam16/Program.cs:257-265 | fails exactly when an offset neighbour is out of range; otherwise yields exactly the walkable unit-offset neighbours, in offset order |
| MazeGrid.NeighbourReturnedIffWalkable | JakeTheSnakeTeam16/Program.cs:262-263 | `curr + offsets[k]` is returned iff it holds a space or `F`, so never a `$` |
| MazeGrid.LastColumn | JakeTheSnakeTeam16/Program.cs:154-163 | the last column of a row holding the character, or -1 when the row has none |
| MazeGrid.LastMarker | JakeTheSnakeTeam16/Program.cs:152-165 | the last cell in row-major order holding the character; none exactly when no cell holds it |
| MazeGrid.LastMarkerUnique | JakeTheSnakeTeam16/Program.cs:152-165 | the last occurrence is unique |
| MazeGrid.ScanComplete | JakeTheSnakeTeam16/Program.cs:152-165 | a scan that covered every cell holds the last marker, or (0, 0) when there is none |
| MazeGrid.FindMarkers | JakeTheSnakeTeam16/Program.cs:149-165 | the nested loops leave `start` at the last `$` and `goal` at the last `F` in row-major order, each (0, 0) when absent |
| MazeGrid.EnclosedNeighbours | JakeTheSnakeTeam16/Program.cs:257-264 | in an enclosed maze the neighbour query of the start and of every walkable cell succeeds |
| MazePath.Direction | JakeTheSnakeTeam16/Program.cs:229-244 | one token exactly for the four unit deltas, none for any other delta |
| MazePath.StepOfDirection | JakeTheSnakeTeam16/Program.cs:229-244 | the token of a unit delta is a token, and it moves by that very delta |
| MazePath.DirectionOfStep | JakeTheSnakeTeam16/Program.cs:229-244 | every token is the one the switch gives for its own move |
| MazePath.ExtendPath | JakeTheSnakeTeam16/Program.cs:189-199 | a path extended by a unit step onto a walkable cell is a path to that cell |
| MazePath.Reversed | JakeTheSnakeTeam16/Program.cs:248 | the result has the same length with element `i` taken from position `len - 1 - i` |
| MazePath.ReversedAppend | JakeTheSnakeTeam16/Program.cs:233-248 | a token appended before the reversal comes out first |
| MazePath.ReconstructPath | JakeTheSnakeTeam16/Program.cs:224-249 | the loop collects the tokens of the `cameFrom` chain ending at `curr`, returned start-first |
| MazePath.ChainIsPath | JakeTheSnakeTeam16/Program.cs:224-249 | when every predecessor is one unit step back from a walkable cell and the chain ends at the start, its tokens replay from the start to `n` over walkable cells |
| MazeSolver.LeastExists | JakeTheSnakeTeam16/Program.cs:181-183 | a non-empty queue has an entry of least priority to dequeue |
| MazeSolver.PotentialShrinks | JakeTheSnakeTeam16/Program.cs:193-196 | a strictly smaller g-score shrinks the termination measure |
| MazeSolver.PotentialMonotone | JakeTheSnakeTeam16/Program.cs:189-201 | g-scores that only decrease never grow the measure, and any change shrinks it |
| MazeSolver.ClosedSetHoldsWalk | JakeTheSnakeTeam16/Program.cs:189-201 | every cell a path from the start reaches lies in any set closed under walkable neighbours |
| MazeSolver.NoPathOutside | JakeTheSnakeTeam16/Program.cs:181-204 | a closed set that holds the start and not the goal leaves the goal unreachable |
| MazeSolver.DequeueStep | JakeTheSnakeTeam16/Program.cs:183 | dequeuing keeps the ledger, and every other discovered cell stays queued or expanded |
| MazeSolver.RelaxStep | JakeTheSnakeTeam16/Program.cs:191-199 | a better route to a neighbour keeps the ledger and shrinks the measure |
| MazeSolver.RelaxBound | JakeTheSnakeTeam16/Program.cs:191-196 | a new g-score `gScore[curr] + 1` stays below the number of cells |
| MazeSolver.RelaxLedger | JakeTheSnakeTeam16/Program.cs:195-199 | recording predecessor, g-score and queue entry keeps the ledger |
| MazeSolver.RelaxRanked | JakeTheSnakeTeam16/Program.cs:193-196 | g-scores still strictly decrease along `cameFrom` |
| MazeSolver.ScoresOnlyDecrease | JakeTheSnakeTeam16/Program.cs:193-196 | a relaxation never raises a g-score and always changes the map |
| MazeSolver.RelaxClosure | JakeTheSnakeTeam16/Program.cs:196-199 | a cell given a g-score is queued |
| MazeSolver.ExpandDone | JakeTheSnakeTeam16/Program.cs:189-201 | once all of its neighbours have g-scores, `curr` counts as expanded |
| MazeSolver.GoalChainIsPath | JakeTheSnakeTeam16/Program.cs:185-186 | the `cameFrom` chain from the dequeued goal replays as a path from the start |
| MazeSolver.ExhaustedMeansUnreachable | JakeTheSnakeTeam16/Program.cs:181-204 | an empty queue means no path from the start reaches the goal |
| MazeSolver.RelaxedPrefix | JakeTheSnakeTeam16/Program.cs:189-201 | handling one more neighbour, by keeping a g-score already within `gScore[curr] + 1` or by recording that score and `curr` as its predecessor, extends the handled prefix: every handled neighbour has a g-score within the bound, and every other coordinate keeps its g-score and predecessor |
| MazeSolver.UpdatedUpToIffAll | JakeTheSnakeTeam16/Program.cs:193-199 | the recursive record of improved neighbours holds exactly when every neighbour the new route improves on has `curr` as predecessor, the new g-score, the f-score `g + h` and a queue entry at that priority |
| MazeSolver.UpdatedUpToKept | JakeTheSnakeTeam16/Program.cs:195-199 | recording the improved state of one more coordinate keeps every earlier improved coordinate's record |
| MazeSolver.AddedEntries | JakeTheSnakeTeam16/Program.cs:193-199 | every entry the loop adds to the queue is for a neighbour the new route improves on, at priority `g + h` |
| MazeSolver.UpdatedEverywhere | JakeTheSnakeTeam16/Program.cs:189-201 | after all neighbours, every improved neighbour has the improved predecessor, g-score, f-score and queue entry |
| MazeSolver.AddedFrontier | JakeTheSnakeTeam16/Program.cs:199 | a queue grown by the added entries only grew, and only by entries of improved neighbours at their new priority |
| MazeSolver.NextCoordinate | JakeTheSnakeTeam16/Program.cs:189-193 | a neighbour handled before is within the bound; one not handled before has the g-score the loop started from |
| MazeSolver.UpdatedPrefix | JakeTheSnakeTeam16/Program.cs:193-199 | recording a neighbour the new route improves on extends the record of improved neighbours and adds its one queue entry |
| MazeSolver.SkippedPrefix | JakeTheSnakeTeam16/Program.cs:193 | skipping a neighbour the new route does not improve on extends the record and adds no queue entry |
| MazeSolver.RelaxAllStep | JakeTheSnakeTeam16/Program.cs:189-201 | relaxing one more neighbour extends the relaxation of the neighbours before it |
| MazeSolver.RelaxAllRelaxed | JakeTheSnakeTeam16/Program.cs:189-201 | after relaxing a list of neighbours each is within the route length, every other coordinate keeps its g-score and predecessor, and no g-score grew |
| MazeSolver.RelaxAllUpdated | JakeTheSnakeTeam16/Program.cs:189-201 | after relaxing a list of neighbours every improved one carries the improved state, and the queue grew by exactly the added entries |
| MazeSolver.RelaxAllOutcome | JakeTheSnakeTeam16/Program.cs:189-201 | each neighbour ends within the route length; each neighbour the route improves on has `curr` as predecessor, the route length as g-score, f-score `g + h` and a queue entry at that priority; the queue only grew, and only by such entries; every other coordinate keeps its g-score and predecessor; no g-score grew |
| MazeSolver.RelaxOneLedger | JakeTheSnakeTeam16/Program.cs:191-199 | relaxing one neighbour with `gScore[curr] + 1` keeps the ledger and shrinks the measure unless nothing changed |
| MazeSolver.RelaxOneKeepsCurr | JakeTheSnakeTeam16/Program.cs:189-191 | relaxing a neighbour leaves `curr`'s own g-score alone, so the route length is the same on every pass |
| MazeSolver.RelaxOneClosure | JakeTheSnakeTeam16/Program.cs:196-199 | relaxing one neighbour keeps every discovered cell queued or expanded |
| MazeSolver.RelaxAllKeeps | JakeTheSnakeTeam16/Program.cs:189-201 | relaxing all neighbours keeps the ledger, the closure and `curr`'s g-score, and shrinks the measure unless nothing changed |
| MazeSolver.RelaxNeighbour | JakeTheSnakeTeam16/Program.cs:193-200 | one pass of the `foreach` is exactly one relaxation step |
| MazeSolver.RelaxNeighbours | JakeTheSnakeTeam16/Program.cs:189-201 | the loop computes the relaxation of all neighbours; each neighbour ends within `gScore[curr] + 1`; each one that route improves on has `curr` as predecessor, that g-score, f-score `g + h` and a queue entry at that priority; the queue only grew, and only by such entries; every other coordinate keeps its g-score and predecessor; no g-score grew |
| MazeSolver.RelaxKeeps | JakeTheSnakeTeam16/Program.cs:189-201 | the loop's result keeps the ledger, the closure and `curr`'s g-score, and shrinks the measure unless nothing changed |
| MazeSolver.SolveMaze | JakeTheSnakeTeam16/Program.cs:146-205 | an answer is a route from `$` to `F` over walkable cells; when `$` and `F` are distinct cells, it is empty exactly when no route exists; an out-of-range failure comes only after a route from `$` has reached a cell with an out-of-range offset neighbour, so an enclosed maze never fails |
| MazeGenerator.OrOne | JakeTheSnakeTeam16/Program.cs:128-132 | `n` with its lowest bit set is odd, and is `n` or `n + 1` |
| MazeGenerator.LayoutShape | JakeTheSnakeTeam16/Program.cs:102-126 | the border is all wall characters, every odd-row odd-column cell is open, and no marker appears |
| MazeGenerator.Spot | JakeTheSnakeTeam16/Program.cs:128-132 | a marker lands on an odd row and odd column strictly inside the border |
| MazeGenerator.SoleMarker | JakeTheSnakeTeam16/Program.cs:134-135 | a marker written on one cell only is what the solver's scan finds |
| MazeGenerator.GeneratedIsEnclosed | JakeTheSnakeTeam16/Program.cs:97-138 | a generated maze is enclosed, and its scanned start and goal are the placed markers |
| MazeGenerator.Mark | JakeTheSnakeTeam16/Program.cs:134-135 | `Remove(x, 1).Insert(x, ch)` replaces exactly that cell and keeps every size |
| MazeGenerator.PlaceMarkers | JakeTheSnakeTeam16/Program.cs:134-135 | marking the start then the goal on the layout gives the generated maze |
| MazeGenerator.BorderRow | JakeTheSnakeTeam16/Program.cs:124-126 | the row alternates `+` and `=` over the whole width |
| MazeGenerator.InnerRow | JakeTheSnakeTeam16/Program.cs:109-121 | inner row `y` matches the layout and takes exactly its own draws |
| MazeGenerator.BuildLayout | JakeTheSnakeTeam16/Program.cs:99-126 | every row matches the layout, taking draws in row-major order |
| MazeGenerator.SmallestMazeCollides | JakeTheSnakeTeam16/Program.cs:128-132 | in a 3 by 3 maze every goal draw collides with the start |
| MazeGenerator.ChooseMarkers | JakeTheSnakeTeam16/Program.cs:128-132 | the start comes from the first two draws after the layout, the goal from the first later pair that differs; none exactly when all `fuel` retries collide |
| MazeGenerator.GenerateTestMaze | JakeTheSnakeTeam16/Program.cs:97-138 | the layout with `$` at the start and `F` at the first free goal; none exactly when every retry collides, always for 3 by 3 |
| MilitaryTime.IsWhiteSpace | CO2023/Program.cs:131 | the white space `char.IsWhiteSpace` recognises includes the white space a number may be padded with, and never a digit, colon or sign |
| MilitaryTime.NullOrWhiteSpaceIffAll | CO2023/Program.cs:131 | `string.IsNullOrWhiteSpace` (`MilitaryTime.IsNullOrWhiteSpace`) holds exactly when every character is white space |
| MilitaryTime.SkipWhite | CO2023/Program.cs:143-160 | the index ending the run of number white space from `i`: everything skipped is number white space and the character there is not |
| MilitaryTime.SkipDigits | CO2023/Program.cs:143-160 | the index ending the run of digits from `i`: everything skipped is a digit and the character there is not |
| MilitaryTime.NumberWhiteSpanIffAll | CO2023/Program.cs:143-160 | a span is number white space exactly when each of its characters is |
| MilitaryTime.DigitSpanIffAll | CO2023/Program.cs:143-160 | a span is digits exactly when each of its characters is |
| MilitaryTime.TryParseInt | CO2023/Program.cs:143-160 | a successful parse fits in 32 bits |
| MilitaryTime.DigitsValueOfDecimal | CO2023/Program.cs:143-160 | the digits of `Decimal(n)` read back as `n` |
| MilitaryTime.TryParseDigits | CO2023/Program.cs:143-160 | a digit string whose value fits in 32 bits parses to that value |
| MilitaryTime.TryParseDecimal | CO2023/Program.cs:143-160 | `int.TryParse` inverts the decimal form of every 32-bit non-negative number |
| MilitaryTime.IsPm | CO2023/Program.cs:171 | the letter after the minutes means PM exactly when it lower-cases to `p` |
| MilitaryTime.ParseTime | CO2023/Program.cs:129-175 | an accepted time is 0..23 hours and 0..59 minutes |
| MilitaryTime.ParseTimeEarlyErrors | CO2023/Program.cs:131-156 | blank input, input shorter than 4, and no colon at index 1 or 2 each give their error exactly when they occur |
| MilitaryTime.ParseTimeAccepts | CO2023/Program.cs:141-174 | an accepted time has a colon at index 1 or 2 and a character after the minutes; the hours parse to 1..12 and the minutes to the result; the result hour is hours mod 12, plus 12 for PM |
| MilitaryTime.ParseSmall | CO2023/Program.cs:143-160 | one or two digits parse to their value |
| MilitaryTime.ParseNoDigits | CO2023/Program.cs:143-160 | text starting with no white space, sign or digit does not parse |
| MilitaryTime.ReadTime | CO2023/Program.cs:141-174 | a digit-colon-digit string parses to the 24-hour time when in range and is rejected as out of range otherwise |
| MilitaryTime.ReadFields | CO2023/Program.cs:143-160 | the hour and minute fields parse to their digits' values |
| MilitaryTime.Format12Parts | CO2023/Program.cs:124-129 | the 12-hour form has the shape `ParseTime` reads: hour digits, colon, two minute digits, `P` exactly after noon |
| MilitaryTime.ParseFormat12 | CO2023/Program.cs:129-175 | parsing the 12-hour form of any 24-hour time gives that time back; the form is written by the reference formatter `Format12` over `Decimal` and `DigitChar`, which have no counterpart in the source |
| MilitaryTime.TwelveHourClock | CO2023/Program.cs:166-172 | 12 wraps to 0 and PM adds 12, which maps each 12-hour hour back to its 24-hour hour |
| MilitaryTime.ParsesOnePm | CO2023/Program.cs:49 | "1:00PM" parses to (13, 0) |
| MilitaryTime.ParsesOneAm | CO2023/Program.cs:50 | "1:00AM" parses to (1, 0) |
| MilitaryTime.ParsesLeadingZero | CO2023/Program.cs:51 | "01:00AM" parses to (1, 0) |
| MilitaryTime.ParsesMidnight | CO2023/Program.cs:52 | "12:00AM" parses to (0, 0) |
| MilitaryTime.ParsesElevenPm | CO2023/Program.cs:53 | "11:00PM" parses to (23, 0) |
| MilitaryTime.RejectsBlank | CO2023/Program.cs:131-132 | white-space input is "no time was input" |
| MilitaryTime.RejectsShort | CO2023/Program.cs:134-135 | a 3-character input is rejected as not in the time form |
| MilitaryTime.RejectsMissingMeridiem | CO2023/Program.cs:171 | "1:00" faults reading the AM/PM letter past the end |
| MilitaryTime.RejectsShortMinutes | CO2023/Program.cs:159 | "12:0" faults slicing the minutes past the end |
| MilitaryTime.RejectsMissingColon | CO2023/Program.cs:153-156 | "1200PM" has no colon at index 1 or 2 |
| MilitaryTime.RejectsThirteen | CO2023/Program.cs:163-164 | "13:00PM" is out of range |
| MilitaryTime.RejectsBadHours | CO2023/Program.cs:143-144 | "x:00PM" has invalid hours |
| MilitaryTime.RejectsBadMinutes | CO2023/Program.cs:159-160 | "1:x0PM" has invalid minutes |
| MilitaryTime.JoinAppend | CO2023/Program.cs:85-120 | joining two name lists is joining each with one space between |
| MilitaryTime.HourWordsAreNames | CO2023/Program.cs:86-91 | the hour text is its names joined by spaces |
| MilitaryTime.MinuteWordsAreNames | CO2023/Program.cs:102-118 | the minute text is its names joined by spaces |
| MilitaryTime.SpokenIsJoin | CO2023/Program.cs:85-120 | the spoken time is its names, one space apart |
| MilitaryTime.HundredHoursIffOnTheHour | CO2023/Program.cs:95-99 | a time ends in "hundred hours" exactly when its minutes are 0 |
| MilitaryTime.LeadingZeroIffEarly | CO2023/Program.cs:86-90 | a time starts with "zero" exactly when its hour is below 10 |
| MilitaryTime.MinuteNamesShape | CO2023/Program.cs:102-118 | minutes below 10 are "zero" and the unit, 10 to 23 their table name, 24 on two names; whole tens from 30 end in "zero" |
| MilitaryTime.NamesFromTables | CO2023/Program.cs:7-43 | every name spoken comes from the two tables or is "hundred hours" |
| MilitaryTime.SpokenFourPm | CO2023/Program.cs:55 | 16:00 is "sixteen hundred hours" |
| MilitaryTime.SpokenElevenAm | CO2023/Program.cs:56 | 11:00 is "eleven hundred hours" |
| MilitaryTime.SpokenElevenTwentyThree | CO2023/Program.cs:57 | 11:23 is "eleven twenty three" |
| MilitaryTime.SpokenSixFortyFivePm | CO2023/Program.cs:58 | 18:45 is "eighteen forty five" |
| MilitaryTime.SpokenSevenFortyFiveAm | CO2023/Program.cs:59 | 07:45 is "zero seven forty five" |
| MilitaryTime.SpokenFiveOhFivePm | CO2023/Program.cs:60 | 17:05 is "seventeen zero five" |
| MilitaryTime.SpokenFourOhNineAm | CO2023/Program.cs:61 | 04:09 is "zero four zero nine" |
| MilitaryTime.SpokenSixThirtyPm | CO2023/Program.cs:112-118 | 18:30 is "eighteen thirty zero" |
| MilitaryTime.ParsesFourPm | CO2023/Program.cs:55 | "4:00PM" parses to (16, 0) |
| MilitaryTime.SaysFourPm | CO2023/Program.cs:55 | `ConvertTime("4:00PM")` is "sixteen hundred hours" |
| MilitaryTime.ParsesElevenAm | CO2023/Program.cs:56 | "11:00AM" parses to (11, 0) |
| MilitaryTime.SaysElevenAm | CO2023/Program.cs:56 | `ConvertTime("11:00AM")` is "eleven hundred hours" |
| MilitaryTime.ParsesElevenTwentyThree | CO2023/Program.cs:57 | "11:23AM" parses to (11, 23) |
| MilitaryTime.SaysElevenTwentyThree | CO2023/Program.cs:57 | `ConvertTime("11:23AM")` is "eleven twenty three" |
| MilitaryTime.ParsesSixFortyFivePm | CO2023/Program.cs:58 | "6:45PM" parses to (18, 45) |
| MilitaryTime.SaysSixFortyFivePm | CO2023/Program.cs:58 | `ConvertTime("6:45PM")` is "eighteen forty five" |
| MilitaryTime.ParsesSevenFortyFiveAm | CO2023/Program.cs:59 | "7:45AM" parses to (7, 45) |
| MilitaryTime.SaysSevenFortyFiveAm | CO2023/Program.cs:59 | `ConvertTime("7:45AM")` is "zero seven forty five" |
| MilitaryTime.ParsesFiveOhFivePm | CO2023/Program.cs:60 | "5:05PM" parses to (17, 5) |
| MilitaryTime.SaysFiveOhFivePm | CO2023/Program.cs:60 | `ConvertTime("5:05PM")` is "seventeen zero five" |
| MilitaryTime.ParsesFourOhNineAm | CO2023/Program.cs:61 | "4:09AM" parses to (4, 9) |
| MilitaryTime.SaysFourOhNineAm | CO2023/Program.cs:61 | `ConvertTime("4:09AM")` is "zero four zero nine" |
| MilitaryTime.ParsesSixThirtyPm | CO2023/Program.cs:141-174 | "6:30PM" parses to (18, 30) |
| MilitaryTime.SaysSixThirtyPm | CO2023/Program.cs:81-121 | `ConvertTime("6:30PM")` is "eighteen thirty zero", as written |
| MilitaryTime.ConvertTime | CO2023/Program.cs:81-121 | the appends build the spoken form of the parsed time, and a parse failure is passed on |

## Left out

- Heuristic and `Vec2.Dist`: the float Euclidean distance is an arbitrary priority function `(Vec2, Vec2) -> real`. Float rounding is not modelled.
- MazeSolver.SolveMaze: the returned route is proved to be a path, not a shortest one. With an arbitrary heuristic nothing more holds. The Euclidean heuristic's consistency, and the optimality that follows from it, are not modelled.
- `PriorityQueue` internals: the queue is a multiset, and any least-priority entry may be dequeued, so the source's tie-breaking is not fixed.
- `gScore` holds whole numbers (`nat`) rather than floats. Every g-score is a step count, so only float rounding of large counts is lost. The `float.MaxValue` fallback for `curr` is dead code, since a dequeued cell always has a g-score.
- `fScore` is kept as a map, as in the source. Nothing is proved about it beyond the entries enqueued with it.
- MazeSolver.RelaxNeighbours: a separate method for the `foreach` inside `SolveMaze`'s loop, with the same steps. The route length `gScore[curr] + 1` is computed once before the loop rather than on each pass. Every pass gets the same value, since `curr` is never its own neighbour (MazeSolver.RelaxOneKeepsCurr).
- MazeGenerator.BorderRow, MazeGenerator.InnerRow, MazeGenerator.BuildLayout and MazeGenerator.ChooseMarkers: separate methods for the phases of `GenerateTestMaze`, with the same steps and draw order.
- MazeGenerator.GenerateTestMaze: `Random` is an oracle over the index of each `Next()` call, not a seeded generator.
- MazeGenerator.GenerateTestMaze: the redraw loop, unbounded in the source, retries at most `fuel` times. Exhausted fuel gives `None`.
- MazeGenerator.GenerateTestMaze: requires width and height of at least 3, the only sizes for which the source builds a maze with both markers inside its walls. For smaller sizes, a negative height fails when the row array is allocated. Height 0 fails on `result[0]`. Width 2 or height 2 divides by zero in `% (width - 2)` or `% (height - 2)`. Height 1 puts both markers in row 1. For width 0, 1, 3 or 4 both markers also land in column 1, so it redraws forever. For width 5 or more it writes into row 1, which does not exist. Width 0 or 1 puts both markers in column 1: `% -1` is 0, and `% -2` of a non-negative draw is 0 or 1, so `| 1` gives 1. With height 3 or 4 the rows also coincide, so it redraws forever. With height 5 or more it returns a grid whose top and bottom rows have `width` characters and whose inner rows have 2. A negative width can draw a column past the two-character inner rows, where `Remove` throws.
- MazeGenerator.GenerateTestMaze: `StringBuilder` and `Remove`/`Insert` are modelled as sequence operations.
- Both `Main` methods are left out: console I/O, cursor drawing and the debug restart loop. Their assertions are lemmas.
- MilitaryTime.ParseTime: the input is never `null`. Only the `IsNullOrWhiteSpace` white-space case is modelled.
- MilitaryTime.TryParseInt: digits are ASCII only. The current culture's sign symbols are `+` and `-`. Leading and trailing white space is tab to carriage return and space, and trailing NULs are accepted, as `NumberStyles.Integer` parsing does.
- MilitaryTime.ParseTime: `ToLowerInvariant()[4 + colon] == 'p'` is modelled as that character being `p` or `P`. No other character lower-cases to `p` in the invariant culture.
- MilitaryTime.LowerInvariant: lower-cases the ASCII letters only. It serves only to state `IsPm`, and no non-ASCII character lower-cases to `p`.
- MilitaryTime.ParseTime: strings are sequences of Unicode scalar values, while C# indexes UTF-16 code units. For input holding characters outside the Basic Multilingual Plane, the length check and the index checks can see different positions, so the error kind can differ. For example, `"1\U{1F600}:00PM"` is `InvalidHours` here and the missing-colon exception in the source. Successful parses are unaffected.
- MazeGrid.Grid: rows are sequences of Unicode scalar values, so in rows with characters outside the Basic Multilingual Plane the column indices differ from the source's UTF-16 indices.
- MilitaryTime.ParseTime: the exception types and messages are the `TimeError` cases.
- MilitaryTime.ConvertTime: `StringBuilder` is an immutable string that each append replaces.
- `ShakespeareAnalysis` is not part of this model.
