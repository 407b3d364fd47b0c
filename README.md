# Some-Tasks in Dafny

A Dafny model of four small Rust programs from the Some-Tasks repository,
with proofs of what each one computes.

- **Pizza** (`Pizza/main.rs`, the largest part): pizzerias are placed on a
  rectangular grid. Each pizzeria may claim at most `capacity` cells in
  straight lines from itself. The program fills the grid as follows:
  - cells that only one pizzeria can reach are committed first;
  - pairs of cells that share two candidates are tried next;
  - then single cells with a candidate list.

  Each trial is checked on a copy of the map by `correct_check`, and the
  live map is changed only when that check passes.

  The model has four layers:
  - `PizzaState` and `PizzaFill` define each step on map values.
  - `PizzaValid` states the invariant that a built map keeps, and proves
    that every filling step keeps it. The invariant: source k holds the
    pizzeria numbered k; every candidate of a free cell names a source on
    its row or column; and a free cell lists source k exactly when it lies
    on that source's frontier (`available_blocks`).
  - `PizzaMap.Map` is the program's mutable map. Each of its methods is
    proved to leave the object in the state the value-level definition
    gives.
- **RGBGame** (`RGBGame/main.rs`): a SameGame board of 10 rows by 15
  columns. A move does three things:
  - it labels the clusters of 4-connected same-coloured balls with a
    breadth-first search and removes the largest one (the first found
    wins a tie);
  - the balls fall down;
  - non-empty columns are packed to the left.

  Then the move is scored. `RGBGame.Game` is the game object. The falling
  and packing are specified by column functions (`Settle`, `Compact`).
- **DigitalLab** (`DigitalLab/main.rs`): every window of a character matrix
  that equals a pattern is rewritten ('1' becomes '2', anything else
  becomes '*'). The windows are scanned by top-left corner in row-major
  order. An availability map disables every later window that overlaps a
  rewritten one. The scan is proved to rewrite exactly the greedy selection
  of non-overlapping matching windows of the original matrix.
- **Railroads** (`Railroads/main.rs:70-101`): decides whether trains
  1..n, arriving in order, can leave in a requested order through a
  dead-end siding (a stack).

Integers are unbounded throughout. The source's unsigned points are used
only inside the grid, where its wrap-around is never reached.

## Model

| member | source | states |
|---|---|---|
| PizzaGeometry.GetShift | Pizza/main.rs:495-504 | every direction's shift is one unit step on one axis, with `Up` going to smaller y (rows grow downwards) and `Left` to smaller x |
| PizzaGeometry.Add | Pizza/main.rs:76-81 | `Point + Shift` undone by `Point - Point`: `(p + s) - p == s`; PizzaGeometry.StepsAlong states what `pos + shift * k` reaches |
| PizzaGeometry.Sub | Pizza/main.rs:87-89 | `Point - Point` is the offset between two points; PizzaGeometry.StepsAlong states that the `sum` of the offset k steps along a direction is ±k |
| PizzaGeometry.Mul | Pizza/main.rs:68-70 | `Shift * i32` scales both coordinates; PizzaGeometry.StepsAlong states that `pos + shift * k` is the point k steps along the direction |
| PizzaGeometry.Sum | Pizza/main.rs:49-51 | `sum` is `x + y`; PizzaGeometry.StepsAlong states that on the offset of a point k steps along a direction it is ±k |
| PizzaGeometry.StepsAlong | Pizza/main.rs:65-90 | `pos + shift * k` is the point k steps along the direction, and the `sum` of its offset from `pos` is ±k |
| PizzaGeometry.GuaranteedArithmetic | Pizza/main.rs:507-517 | the reach is at most the capacity and at most the distance to the edge, and equals one of the two; every step up to it stays on the grid; when the capacity is not the limit, one step more leaves the grid |
| PizzaGeometry.WalkDirection | Pizza/main.rs:217-232 | for a cell on its source's row or column, walking its Manhattan distance (at least 1) in the chosen direction lands exactly on the source |
| PizzaGeometry.WalkStaysInside | Pizza/main.rs:233-236 | every cell of that walk, up to and including the source, is on the grid |
| PizzaGeometry.WalkDirectionIsReversed | Pizza/main.rs:218-232 | a cell to the right of its source walks `Left` and one above it walks `Down`: the direction names the way back to the source |
| PizzaGeometry.Bump | Pizza/main.rs:289-303 | `constriction` raises exactly the movement counter of the walk's direction by the diff (Down .0, Left .1, Up .2, Right .3) and leaves the other three; the total grows by the diff |
| PizzaGeometry.SideMatchesWalk | Pizza/main.rs:305-318 | the counter `constriction` adds for a frontier point is the very counter a commit starting from that point is charged to |
| PizzaState.SetAt | Pizza/main.rs:149-152 | `self[p] = b` changes the cell at p and no other cell, counter or source |
| PizzaState.Without | Pizza/main.rs:323-331 | `retain(x != v)` removes every copy of v and keeps everything else |
| PizzaState.NewState | Pizza/main.rs:156-163 | a new map has the given size, every cell free with no candidate, and no source |
| PizzaState.NewStateCounts | Pizza/main.rs:156-163 | the free counter of a new map equals its number of free cells, width times height |
| PizzaState.Push | Pizza/main.rs:198-211 | one expansion step appends the number to the free cell's candidates and the cell to the pizzeria's frontier, and changes nothing else |
| PizzaState.Run | Pizza/main.rs:196-203 | the points an expansion direction pushes are exactly the free prefix of its line; the point after them is not free |
| PizzaState.ExpandAlong | Pizza/main.rs:196-213 | the inner loop of `expansion` for one direction keeps the map's shape, free counter and sources; PizzaState.ExpandAlongCell and PizzaState.ExpandAlongFrontier state what it does to each cell and to the frontier |
| PizzaState.ExpandAlongCell | Pizza/main.rs:196-203 | one direction of `expansion` appends the number to exactly the cells of that free prefix and leaves every other cell alone |
| PizzaState.ExpandAlongFrontier | Pizza/main.rs:204-211 | one direction of `expansion` appends exactly that free prefix, in order, to the pizzeria's frontier |
| PizzaState.Reachable | Pizza/main.rs:194-196 | a direction visits `GuaranteedArithmetic` distinct points on the source's row or column, all on the grid, not the source itself |
| PizzaState.Expanded | Pizza/main.rs:185-215 | `expansion` (its loop over the four directions is `ExpandDirs`) never changes the free counter, the size or the list of sources |
| PizzaState.Claim | Pizza/main.rs:193-203 | every point `expansion` claims is a free cell on the source's row or column, on the grid |
| PizzaState.AllDirectionsOnce | Pizza/main.rs:8-17 | `expansion` visits each of the four directions exactly once |
| PizzaState.ExpansionSync | Pizza/main.rs:185-215 | `expansion` grows the source's frontier by exactly the claimed points and appends its number to exactly those cells; all other cells are unchanged |
| PizzaState.SourcePoint | Pizza/main.rs:166 | the input's 1-based, bottom-origin position lands on the grid |
| PizzaState.AddState | Pizza/main.rs:165-177 | `add_pizzeria` keeps the map's size and shape |
| PizzaState.AddPizzeriaEffect | Pizza/main.rs:165-177 | `add_pizzeria` stores a fresh pizzeria (zero counters, frontier = its claimed points) at the flipped position; it lowers the free counter by one and appends the position as the next source |
| PizzaState.Path | Pizza/main.rs:217-238 | the cells from `pos` toward the source, both ends included, number the Manhattan distance plus one; PizzaState.DistanceStops states where the walk of `count_distance_and_shift` stops on them |
| PizzaState.Distance | Pizza/main.rs:233-236 | the count of `count_distance_and_shift` lies between 1 and the length of the path to the source |
| PizzaState.Occupy | Pizza/main.rs:260-262 | marking a run occupied changes neither counter nor sources |
| PizzaState.OccupyCell | Pizza/main.rs:260-262 | exactly the listed cells become `Occupied(num)` |
| PizzaState.Dropped | Pizza/main.rs:305-322 | `block_pos` holds exactly the frontier points whose distance exceeds the capacity plus their side's counter |
| PizzaState.RetainAll | Pizza/main.rs:323-325 | after the `retain` loop the frontier holds exactly its old points that were not dropped |
| PizzaState.Unlist | Pizza/main.rs:327-331 | the last loop of `constriction` changes neither counter nor sources |
| PizzaState.UnlistCell | Pizza/main.rs:327-331 | a dropped point that is still free loses the source's number from its candidates; every other cell is unchanged |
| PizzaState.Narrowed | Pizza/main.rs:280-325 | `constriction` keeps the pizzeria's number and lowers its capacity by exactly the diff; it raises exactly one counter by the diff, so capacity plus counters is conserved; a frontier point stays exactly when it is within the new reach |
| PizzaState.Constrict | Pizza/main.rs:277-332 | `constriction` never touches the free counter, the size or the sources |
| PizzaState.ConstrictSource | Pizza/main.rs:280-325 | after `constriction` the source holds its narrowed block |
| PizzaState.ConstrictCell | Pizza/main.rs:327-331 | every other cell changes only when it is a free, newly out-of-reach frontier point, and then only by losing the source's number |
| PizzaState.Commit | Pizza/main.rs:257-266 | a commit keeps the size and the sources |
| PizzaState.Walked | Pizza/main.rs:258-264 | marking the run lowers the free counter by exactly its length |
| PizzaState.DistanceBelowSource | Pizza/main.rs:233-236 | the walk toward a pizzeria stays on the grid and stops at or before the source |
| PizzaState.DistanceStops | Pizza/main.rs:233-236 | the walk stops at the first cell that is not free; that cell is on the grid, at most at the source, and every cell before it is free |
| PizzaState.WalkedCell | Pizza/main.rs:260-262 | exactly the run's cells become `Occupied(num)`, and the source is never among them |
| PizzaState.CommitEffect | Pizza/main.rs:257-266 | a commit of n cells lowers the free counter by n, occupies exactly the run, narrows the source, and changes no other cell except for unlisting the source's number from dropped free cells |
| PizzaState.OccupyCount | Pizza/main.rs:260-264 | occupying distinct cells removes exactly the free ones among them from the count of free cells |
| PizzaState.RunFreeAmong | Pizza/main.rs:233-236 | the run is its starting cell followed by n - 1 free cells, all distinct and on the grid |
| PizzaState.ConstrictCount | Pizza/main.rs:277-332 | `constriction` never changes which cells are free |
| PizzaState.CommitCount | Pizza/main.rs:257-266 | the number of free cells drops by n - 1, plus one when the starting cell was free; so the free counter and the real count drop alike when the start is free |
| PizzaFill.PlaceState | Pizza/main.rs:356-368 | `place` keeps the size and the sources |
| PizzaFill.ClearBlock | Pizza/main.rs:373-377 | clearing keeps a block's kind, empties a free cell's candidates and a pizzeria's frontier, and leaves occupied cells as they are |
| PizzaFill.Cleared | Pizza/main.rs:370-380 | `clear_unoccupied_and_pizzerias` keeps the shape, the free counter and the sources; PizzaFill.ClearedCell states that it clears every cell and changes nothing else |
| PizzaFill.ClearFromCell | Pizza/main.rs:371-379 | the clearing scan clears exactly the cells it has passed |
| PizzaFill.ClearedCell | Pizza/main.rs:370-380 | `clear_unoccupied_and_pizzerias` (its double loop is `ClearFrom`) clears every cell and changes nothing else |
| PizzaFill.Contribution | Pizza/main.rs:396-401 | a source is charged `min(capacity, |frontier|)`, which is non-negative and one of the two; a negative capacity fails the check |
| PizzaFill.ExpandAll | Pizza/main.rs:393-394 | expanding every source keeps the counters, size and sources |
| PizzaFill.ExpandAllKeeps | Pizza/main.rs:393-394 | expanding the sources never changes a cell that is not free, and a free cell stays free |
| PizzaFill.ExpandAllSource | Pizza/main.rs:393-401 | a source's block is final once expanded, so its charge can be read off the fully expanded map |
| PizzaFill.CheckFromNext | Pizza/main.rs:393-401 | a passing check passes its first source and then the rest |
| PizzaFill.CheckFromBack | Pizza/main.rs:393-401 | passing the first source and then the rest passes the check |
| PizzaFill.CheckFrom | Pizza/main.rs:392-414 | the loop of `correct_check` from source i on; PizzaFill.CheckFromMeaning states what it decides |
| PizzaFill.CheckFromMeaning | Pizza/main.rs:390-414 | the loop of `correct_check` from source i on decides exactly the stated condition on the fully expanded map |
| PizzaFill.Verdict | Pizza/main.rs:390-414 | `correct_check` run on the cleared copy of the map; PizzaFill.VerdictMeaning states what it decides |
| PizzaFill.VerdictMeaning | Pizza/main.rs:390-414 | `correct_check` passes exactly when, once every source of the cleared map is expanded: no capacity is negative; every free cell keeps a candidate; the free counter equals the sum of the sources' charges |
| PizzaFill.RotateRight | Pizza/main.rs:386 | `rotate_right(1)` moves the last element to the front and shifts the rest up, keeping the elements |
| PizzaFill.Rotated | Pizza/main.rs:384-386 | repeated rotation keeps the length and the elements |
| PizzaFill.TryFrom | Pizza/main.rs:384-422 | a failed `try_to_fill` leaves the live map exactly as it was |
| PizzaFill.TryFill | Pizza/main.rs:382-424 | `try_to_fill` returns false only when it changed nothing |
| PizzaFill.TryFromPassed | Pizza/main.rs:416-421 | a trial that reports success left a map that passes `correct_check` |
| PizzaFill.TryFillPassed | Pizza/main.rs:382-424 | `try_to_fill` changes the live map only to a map that passes `correct_check` |
| PizzaFill.TryFromSingle | Pizza/main.rs:384-422 | with one position every remaining trial places the cell for the first number |
| PizzaFill.SingleTriesFirstOnly | Pizza/main.rs:382-424 | a single-cell `try_to_fill` succeeds exactly when committing the cell to its first candidate passes the check; the other candidates are never tried |
| PizzaFill.Intersection | Pizza/main.rs:335-339 | the intersection holds exactly the entries of v1 that are also in v2, and is no longer than v1 |
| PizzaFill.FindPairFrom | Pizza/main.rs:341-353 | the scan of `find_pair` (entered through `FindPairOf` from cell (0, 0)) returns the first cell in row-major order that is another free cell sharing exactly two numbers, with those numbers; or (-1, -1) and nothing when there is no such cell |
| PizzaFill.ObviousAt | Pizza/main.rs:247-267 | a cell is committed exactly when it is free with a single candidate that names a source it can walk to, which on a valid map is exactly the test of `fill_obvious_blocks` (PizzaValid.ObviousIsSourceTest); a commit lowers the number of free cells |
| PizzaFill.SweepFrom | Pizza/main.rs:245-269 | a sweep reports a commit exactly when it lowered the number of free cells; one that reports none changed nothing and met no obvious cell |
| PizzaFill.RoundsFrom | Pizza/main.rs:243-270 | `fill_obvious_blocks` returns true exactly when the number of free cells dropped, and leaves no obvious cell |
| PizzaFill.FillObvious | Pizza/main.rs:240-272 | `fill_obvious_blocks` returns true exactly when the number of free cells dropped, keeps the size and the sources, and leaves no obvious cell |
| PizzaFill.PairTrial | Pizza/main.rs:456-464 | the pair trial at a cell keeps the size and the sources |
| PizzaFill.PairsFrom | Pizza/main.rs:454-466 | `try_to_find_pairs` keeps the size and the sources |
| PizzaFill.SingleTrial | Pizza/main.rs:440-447 | a single-cell trial that fails changes nothing |
| PizzaFill.SinglesFrom | Pizza/main.rs:438-449 | the or is not short-circuit, so an earlier success stays; a pass that reports nothing changed nothing, and every trial in it failed |
| PizzaValid.CandidateCommits | Pizza/main.rs:248-258 | on a valid map a free cell's candidate names a pizzeria on the cell's row or column, so `pizzerias_pos[num]` and the walk toward it are well defined |
| PizzaValid.SourcesDistinct | Pizza/main.rs:165-177 | the sources of a valid map lie on the grid at distinct points |
| PizzaValid.FrontierAgrees | Pizza/main.rs:185-215 | on a valid map a free cell lists source k among its candidates exactly when it lies on that source's frontier (`available_blocks`) |
| PizzaValid.ObviousIsSourceTest | Pizza/main.rs:247-252 | on a valid map a cell is obvious exactly when it is free with a single candidate other than -1, the test `fill_obvious_blocks` makes |
| PizzaValid.DescendsValid | Pizza/main.rs:431-451 | every change the filling makes keeps the map valid, the agreement of candidates and frontiers included |
| PizzaValid.DescendsCount | Pizza/main.rs:431-451 | no change the filling makes adds a free cell |
| PizzaValid.RunIsFree | Pizza/main.rs:233-236 | past its starting cell a run covers free cells only |
| PizzaValid.CommitKeeps | Pizza/main.rs:257-266 | a commit from a cell that is not a pizzeria keeps every pizzeria and its number, and frees no cell |
| PizzaValid.CommitDescends | Pizza/main.rs:257-266 | a commit from a cell that is not a pizzeria keeps the map valid, the agreement of candidates and frontiers included |
| PizzaValid.CommitSyncedAt | Pizza/main.rs:277-332 | a commit keeps candidates and frontiers in agreement: the run's cells stop being free, `constriction` drops from the frontier exactly the out-of-reach points, and exactly the free ones among them lose the source's number |
| PizzaValid.PlaceDescends | Pizza/main.rs:356-368 | `place` keeps the map valid |
| PizzaValid.TryFromDescends | Pizza/main.rs:384-422 | every trial of `try_to_fill` keeps the map valid |
| PizzaValid.TryFillDescends | Pizza/main.rs:382-424 | `try_to_fill` on cells that are not pizzerias keeps the map valid |
| PizzaValid.ObviousDescends | Pizza/main.rs:247-267 | one step of the obvious sweep keeps the map valid |
| PizzaValid.SweepDescends | Pizza/main.rs:245-269 | a whole sweep keeps the map valid |
| PizzaValid.RoundsDescends | Pizza/main.rs:243-270 | `fill_obvious_blocks` keeps the map valid |
| PizzaValid.PairTrialDescends | Pizza/main.rs:456-464 | a pair trial keeps the map valid |
| PizzaValid.PairsDescends | Pizza/main.rs:453-467 | `try_to_find_pairs` keeps the map valid |
| PizzaValid.SingleTrialProgress | Pizza/main.rs:440-447 | a single-cell trial keeps the map valid, and one that succeeds lowers the number of free cells |
| PizzaValid.SinglesProgress | Pizza/main.rs:438-449 | the single-cell pass keeps the map valid, and reports new success only when the number of free cells dropped |
| PizzaValid.StuckWhenAllFail | Pizza/main.rs:438-449 | if every single-cell trial fails, no free cell passes the check when committed to its first candidate |
| PizzaValid.Round | Pizza/main.rs:433-449 | one pass of the `fill_map` loop keeps the map valid; if it reports progress the number of free cells dropped; if not, no single-cell trial passes |
| PizzaValid.FillFrom | Pizza/main.rs:431-451 | `fill_map` terminates on every valid map, keeps it valid, and ends with the free counter at zero or no single-cell trial passing |
| PizzaValid.NewValid | Pizza/main.rs:156-163 | a new map is valid: it has no sources, and every cell is free with no candidates |
| PizzaValid.AddValid | Pizza/main.rs:165-177 | `add_pizzeria` keeps a map valid, the agreement of candidates and frontiers included, when given the next number and a cell that is not a pizzeria |
| PizzaValid.AddCell | Pizza/main.rs:165-177 | `add_pizzeria` appends the new number to exactly the claimed free cells on the new source's row or column and leaves every other cell alone |
| PizzaValid.AddKeepsSource | Pizza/main.rs:165-177 | `add_pizzeria` leaves every earlier source's block unchanged |
| PizzaValid.AddCandidate | Pizza/main.rs:165-177 | after `add_pizzeria` every candidate of a free cell names a source on its row or column |
| PizzaValid.AddSyncedAt | Pizza/main.rs:165-177 | `add_pizzeria` keeps candidates and frontiers in agreement: the new source's frontier is exactly the set of free cells given its number, and nothing else changes for any other source |
| PizzaMap.Map.constructor | Pizza/main.rs:156-163 | `Map::new` builds exactly the new map |
| PizzaMap.Map.Copy | Pizza/main.rs:133-139 | `clone` copies grid, size, counter and sources |
| PizzaMap.Map.Set | Pizza/main.rs:149-152 | writing a cell in place gives `SetAt` |
| PizzaMap.Map.AddPizzeria | Pizza/main.rs:165-177 | `add_pizzeria` in place gives exactly `AddState` |
| PizzaMap.Map.PushCell | Pizza/main.rs:198-211 | one expansion step in place gives exactly `Push` |
| PizzaMap.Map.ExpandDirection | Pizza/main.rs:194-213 | one direction's loop, with its early break, gives exactly `ExpandAlong` over the reachable points |
| PizzaMap.Map.Expansion | Pizza/main.rs:185-215 | `expansion` in place gives exactly `Expanded` |
| PizzaMap.Map.CountDistanceAndShift | Pizza/main.rs:217-238 | returns the walk direction and the distance to the first cell that is not free; the count is at least 1 and at most the distance to the source, and every cell before that one is free |
| PizzaMap.Map.CommitRun | Pizza/main.rs:257-266 | a straight-run commit in place gives exactly `Commit` |
| PizzaMap.Map.WalkRun | Pizza/main.rs:258-264 | marks the run and lowers the counter as `Walked` says, returning its length and direction |
| PizzaMap.Map.OutOfReachPoints | Pizza/main.rs:305-322 | collects exactly the out-of-reach frontier points, in frontier order |
| PizzaMap.Map.RetainEach | Pizza/main.rs:323-325 | keeps exactly the frontier points that were not dropped |
| PizzaMap.Map.UnlistEach | Pizza/main.rs:327-331 | the unlisting loop in place gives exactly `Unlist` |
| PizzaMap.Map.Constriction | Pizza/main.rs:277-332 | `constriction` in place gives exactly `Constrict` |
| PizzaMap.Map.Place | Pizza/main.rs:356-368 | `place` in place gives exactly `PlaceState` |
| PizzaMap.Map.ClearUnoccupiedAndPizzerias | Pizza/main.rs:370-380 | the clearing scan in place gives exactly `Cleared` |
| PizzaMap.Map.ExpandSource | Pizza/main.rs:393-402 | one round of `correct_check`'s first loop; a negative capacity fails the check, otherwise the check's outcome carries over to the next source |
| PizzaMap.Map.NoStarvedCell | Pizza/main.rs:404-412 | true exactly when no free cell is left without a candidate |
| PizzaMap.Map.CorrectCheck | Pizza/main.rs:390-414 | returns exactly the verdict on the map as it was |
| PizzaMap.Map.Trial | Pizza/main.rs:385-417 | placing on a clone and checking it returns the verdict on the placed map |
| PizzaMap.Map.TryRotation | Pizza/main.rs:416-421 | a passing trial is placed on the live map; a failing one leaves it unchanged |
| PizzaMap.Map.TryToFill | Pizza/main.rs:382-424 | `try_to_fill` in place returns exactly `TryFill`'s map and outcome |
| PizzaMap.Map.FindPair | Pizza/main.rs:334-354 | finds the first other free cell sharing exactly two numbers, with the two of them, or (-1, -1) and nothing when no cell qualifies |
| PizzaMap.Map.ObviousCell | Pizza/main.rs:247-267 | one cell of the obvious sweep in place gives exactly `ObviousAt` |
| PizzaMap.Map.ObviousRow | Pizza/main.rs:246-268 | one row of the sweep keeps the map valid and advances `SweepFrom` by one row |
| PizzaMap.Map.ObviousSweep | Pizza/main.rs:245-269 | one sweep in place gives exactly `SweepFrom` |
| PizzaMap.Map.FillObviousBlocks | Pizza/main.rs:240-272 | `fill_obvious_blocks` in place gives exactly the rounds of `RoundsFrom` |
| PizzaMap.Map.PairCell | Pizza/main.rs:456-464 | one cell of `try_to_find_pairs` in place gives exactly `PairTrial` |
| PizzaMap.Map.TryToFindPairs | Pizza/main.rs:453-467 | `try_to_find_pairs` in place gives exactly `PairsFrom` |
| PizzaMap.Map.SingleCell | Pizza/main.rs:440-447 | one single-cell trial in place gives exactly `SingleTrial` |
| PizzaMap.Map.SinglesRow | Pizza/main.rs:439-448 | one row of the single-cell pass keeps the map valid and advances `SinglesFrom` by one row |
| PizzaMap.Map.SinglesPass | Pizza/main.rs:438-449 | the single-cell pass in place gives exactly `SinglesFrom` |
| PizzaMap.Map.FillRound | Pizza/main.rs:434-449 | one pass of the `fill_map` loop in place gives exactly `Round` |
| PizzaMap.Map.FillMap | Pizza/main.rs:431-451 | `fill_map` terminates and in place gives exactly `FillFrom` |
| RGBGame.Nbrs | RGBGame/main.rs:49-84 | the search's neighbours are exactly the 4-neighbours on the board |
| RGBGame.NbrDirections | RGBGame/main.rs:49-84 | the four guarded checks (`pos.0 != 0`, `!= 9`, `pos.1 != 0`, `!= 14`) visit exactly those neighbours |
| RGBGame.NoLabels | RGBGame/main.rs:103 | a fresh cluster map labels no cell |
| RGBGame.Chain | RGBGame/main.rs:37-87 | following the search's links from a labelled cell leads back to the start through 4-neighbouring cells, each the start or a labelled cell |
| RGBGame.MovePossible | RGBGame/main.rs:43-84 | a search that labelled some cells exhibits two neighbouring balls of one colour |
| RGBGame.SearchDone | RGBGame/main.rs:43-86 | when the queue runs dry every dequeued cell has all its same-coloured neighbours labelled; nothing is labelled exactly when the start is isolated; otherwise the start is among at least two labelled balls |
| RGBGame.SettledAfterSearch | RGBGame/main.rs:107-116 | after a search from the scan position, every scanned or labelled ball shares its label with its same-coloured neighbours |
| RGBGame.LabelsAfterSearch | RGBGame/main.rs:109-114 | label k is carried by exactly the cells of the k-th search |
| RGBGame.BestAfterSearch | RGBGame/main.rs:111-113 | the choice keeps the largest group, the first found among equals |
| RGBGame.EndOfScan | RGBGame/main.rs:102-119 | at the end of the scan, `(-1, -1, ' ')` is returned exactly when no two neighbouring balls share a colour |
| RGBGame.GroupJoined | RGBGame/main.rs:102-119 | every cell of a group is joined to the group's start by a walk between 4-neighbours that never leaves the group, and all its cells have the start's colour |
| RGBGame.SettleFacts | RGBGame/main.rs:140-152 | a settled column keeps its balls in order, with no blank below a ball |
| RGBGame.FallenIsSettled | RGBGame/main.rs:140-152 | a column with no blank below a ball is its own settled form |
| RGBGame.Settle | RGBGame/main.rs:140-152 | the settled column keeps the column's length; RGBGame.SettleFacts and RGBGame.FallenIsSettled state what it is |
| RGBGame.FallStepPass | RGBGame/main.rs:145-150 | the inner gravity loop computes one pass, one cell at a time |
| RGBGame.Pass | RGBGame/main.rs:145-150 | one gravity pass keeps the column's length; RGBGame.PassProgress states that it keeps the balls in order and fills exactly one hole |
| RGBGame.PassProgress | RGBGame/main.rs:145-150 | one gravity pass keeps the balls in order and fills exactly one hole, if there is one |
| RGBGame.PassesSettle | RGBGame/main.rs:140-152 | ten passes over a column of ten cells (`Passes`, the ten-round loop of `gravity`) settle it |
| RGBGame.SettleAll | RGBGame/main.rs:140-152 | every column settled, each in its own place |
| RGBGame.NonEmpty | RGBGame/main.rs:134-136 | the columns that still hold a ball, in order |
| RGBGame.Compact | RGBGame/main.rs:154-171 | packing keeps the number of columns |
| RGBGame.MoveKeepsNonEmpty | RGBGame/main.rs:163-168 | moving the next non-empty column into an empty one keeps the non-empty columns and their order |
| RGBGame.PackedIsCompact | RGBGame/main.rs:154-171 | a list with no empty column left of a non-empty one is already packed |
| RGBGame.CompactFacts | RGBGame/main.rs:154-171 | packing keeps the non-empty columns in order and leaves no empty column left of a non-empty one |
| RGBGame.NonEmptySettled | RGBGame/main.rs:140-171 | settling and selecting the non-empty columns commute |
| RGBGame.AfterRemoval | RGBGame/main.rs:121-174 | after a removal, the k-th non-empty column settled becomes column k and the rest are empty; every column is fallen and the board is packed |
| RGBGame.Removed | RGBGame/main.rs:125-132 | exactly the cells carrying the label become blank |
| RGBGame.PointsGrow | RGBGame/main.rs:185 | `(n - 2)^2` rewards a larger cluster strictly more |
| RGBGame.Points | RGBGame/main.rs:185 | the points for a cluster of n balls, `(n - 2)^2`; RGBGame.PointsGrow states that a larger cluster scores strictly more |
| RGBGame.EmptyBoard | RGBGame/main.rs:24 | every cell of a new board is blank |
| RGBGame.NoBallsLeft | RGBGame/main.rs:216-222 | the ball count is zero exactly when every cell is blank |
| RGBGame.BlankRow | RGBGame/main.rs:200-205 | blanking a row counts exactly its balls |
| RGBGame.Game.constructor | RGBGame/main.rs:22-35 | a blank board, no labels, no column shifts, move counter 1, score 0 |
| RGBGame.Game.StartGame | RGBGame/main.rs:89-100 | the ten lines are stored upside down: row 0 is the last line read |
| RGBGame.Game.Visit | RGBGame/main.rs:49-84 | one of the four neighbour checks labels and queues a same-coloured unlabelled neighbour; afterwards that neighbour carries a label |
| RGBGame.Game.Label | RGBGame/main.rs:54-56 | labelling a neighbour keeps the search invariant and lowers the count of unlabelled cells by one |
| RGBGame.Game.Expand | RGBGame/main.rs:43-84 | a dequeued cell is skipped when blank, otherwise all four neighbours are checked; the search invariant advances by one cell |
| RGBGame.Game.SearchingClusters | RGBGame/main.rs:37-87 | returns (num, cells labelled, start colour); it labels exactly a distinct connected same-coloured set and stops only when nothing more is reachable; an isolated start yields 0 |
| RGBGame.Game.ScanCell | RGBGame/main.rs:108-115 | one step of the scan keeps the clustering invariant |
| RGBGame.Game.Clustering | RGBGame/main.rs:102-119 | returns `(-1, -1, ' ')` exactly when no move is left; otherwise returns a largest cluster (the first found among equals), with label k on exactly the k-th group; every group is one colour and grown from its start by neighbour links (RGBGame.GroupJoined), and every labelled cell is settled, so each group is a whole 4-connected region of one colour |
| RGBGame.Game.RemoveCell | RGBGame/main.rs:127-136 | one cell of the removal scan blanks a labelled cell, records the first one, and marks the column non-empty when it holds a ball |
| RGBGame.Game.RemoveCluster | RGBGame/main.rs:125-138 | the board becomes `Removed`; pos is the first removed cell (1-based) or (0, 0); a column is marked non-empty exactly when a ball is left in it |
| RGBGame.Game.FallCell | RGBGame/main.rs:146-149 | one fall step changes exactly one column, as `FallStep` |
| RGBGame.Game.FallColumn | RGBGame/main.rs:145-150 | one pass over a column changes exactly that column, as `Pass` |
| RGBGame.Game.GravityPass | RGBGame/main.rs:141-151 | one round advances every marked column by one pass and leaves the others |
| RGBGame.Game.Gravity | RGBGame/main.rs:140-152 | the ten rounds settle every column |
| RGBGame.Game.MoveColumn | RGBGame/main.rs:164-167 | moves a column into the empty one and blanks its old place |
| RGBGame.Game.PackColumn | RGBGame/main.rs:155-170 | one step of packing keeps the non-empty columns in order and extends the packed prefix by one column |
| RGBGame.Game.CompactColumns | RGBGame/main.rs:154-171 | the columns become exactly `Compact` of the old ones |
| RGBGame.Game.DeleteCluster | RGBGame/main.rs:121-174 | the board becomes the removed board settled and packed; pos is the first removed cell |
| RGBGame.Game.MakeMove | RGBGame/main.rs:184-193 | the score grows by `(n - 2)^2` and the move counter by one |
| RGBGame.Game.ClearRow | RGBGame/main.rs:200-205 | a row is blanked and its balls counted |
| RGBGame.Game.Clear | RGBGame/main.rs:195-213 | counts exactly the balls left and resets board, labels, shifts, counter and score |
| RGBGame.Game.EndGame | RGBGame/main.rs:216-229 | final score = score + 1000 exactly when no ball is left; the ball count and the reset are as in `clear` |
| DigitalLab.MapSize | DigitalLab/main.rs:57-63 | the availability map has one entry per window position that fits, and is (0, 0) when the pattern does not fit |
| DigitalLab.PicksSound | DigitalLab/main.rs:137-157 | the windows the greedy scan takes match the pattern and never overlap |
| DigitalLab.PicksMaximal | DigitalLab/main.rs:137-157 | a window is taken exactly when it matches and overlaps none taken before it |
| DigitalLab.Picks | DigitalLab/main.rs:137-157 | the greedy selection takes only candidates, at most as many as there are; DigitalLab.PicksSound and DigitalLab.PicksMaximal state which ones |
| DigitalLab.Mark | DigitalLab/main.rs:76-80 | a rewritten cell becomes '2' exactly when it was '1', and never '1' |
| DigitalLab.DisabledIsOverlap | DigitalLab/main.rs:104-121 | the region `succses_pattern` disables covers exactly the later windows that overlap the match |
| DigitalLab.MatrixMap.constructor | DigitalLab/main.rs:64-70 | every window position starts available |
| DigitalLab.MatrixMap.SuccessPattern | DigitalLab/main.rs:103-122 | exactly the disabled region becomes unavailable; nothing else changes |
| DigitalLab.Matrix.CreateMap | DigitalLab/main.rs:56-71 | a fresh map of `MapSize`, all available |
| DigitalLab.Matrix.WindowMatches | DigitalLab/main.rs:141-151 | true exactly when the window equals the pattern cell for cell |
| DigitalLab.Matrix.ChangeMatrix | DigitalLab/main.rs:73-84 | exactly the window's cells are rewritten; the overlapping later windows are disabled |
| DigitalLab.ScanCorner | DigitalLab/main.rs:139-155 | one corner keeps the scan invariant: rewritten windows = greedy picks so far |
| DigitalLab.ScanRow | DigitalLab/main.rs:138-156 | one row of corners keeps the scan invariant |
| DigitalLab.ErasePatterns | DigitalLab/main.rs:135-157 | the rewritten windows are exactly the greedy selection on the original matrix; they never overlap; exactly their cells change |
| Railroads.Range | Railroads/main.rs:79 | `(a..i)` lists a, a+1, ..., i-1 |
| Railroads.Top | Railroads/main.rs:81 | the top of the siding, 0 when it is empty: a train on the siding, and the largest one when the siding is increasing |
| Railroads.Step | Railroads/main.rs:77-87 | a train still at A pushes its predecessors and leaves; otherwise it must be on top of the siding; otherwise the loop stops; the siding stays increasing and below `a`, and each step sends exactly one train to B (a 0 read against an empty siding sends none) |
| Railroads.StepKeepsPartition | Railroads/main.rs:76-88 | every train that left A is on the siding or already gone, never both |
| Railroads.Check | Railroads/main.rs:70-101 | "Yes" exactly when A is empty and so is the siding; for an order of n trains an early exit means "No"; for a permutation of 1..n, "Yes" exactly when no step got stuck |

## Left out

- Input and output: file reading, `read_line`, `collect_matrix`,
  `read_count_of_games`, every `writeln!`, `print`, the `Display` impl and
  each program's `main` driver. Boards, matrices and orders are
  parameters instead.
- RGBGame's main loop (`RGBGame/main.rs:242-248`): the chaining of
  clustering, removal and scoring until no move is left is not modelled.
  Each of those operations is.
- Integer widths: scores are `u32`, counters `i32`, points `usize`. They
  are unbounded here, and no overflow or wrap-around is modelled.
- `SizeP::from_tuple`, `new`, `to_tuple` and `PartialEq` are the plain
  datatype constructor and equality.
- RGBGame.Game.StartGame: assumes ten well-formed lines of 15 characters
  each. The source does not check the input line shape.
- RGBGame.Game.SearchingClusters: requires a non-negative label and an
  unlabelled start, as `clustering` always supplies.
- DigitalLab.ErasePatterns: requires a pattern with at least one column.
  With zero columns the source's `pattern.size.1 - 1` underflows and
  panics. DigitalLab.MatrixMap.SuccessPattern and
  DigitalLab.Matrix.ChangeMatrix require the same.
- PizzaState.Commit: is the identity when the source number is not on
  the cell's row or column. The source would walk off the grid there. A
  valid map never does this (PizzaValid.CandidateCommits).
- PizzaFill.Obvious: adds a guard that `fill_obvious_blocks` does not
  test: the single candidate must name a source on the cell's row or
  column. The guard keeps `Commit` defined on every map. On a valid map
  it always holds, so `Obvious` is then exactly the source's test
  (PizzaValid.ObviousIsSourceTest).
- PizzaState.Unlist: skips points off the grid.
- PizzaFill.CheckFrom: fails for a source off the grid.
- PizzaMap.Map.CommitRun: requires that the number names a pizzeria on
  the cell's row or column, which holds for every call on a valid map.
- PizzaMap.Map.Place and PizzaMap.Map.TryToFill: require a valid map and
  numbers that name sources on each cell's row or column, which holds for
  every call `fill_map` makes.
- PizzaValid.AddValid: assumes each pizzeria is added with the next
  number and on a cell that is not already a pizzeria. The main
  routine numbers the pizzerias 0, 1, ... in input order. Two pizzerias on one cell are not modelled.
- The free counter: it is not proved equal to the number of free cells
  after a pair trial. A pair's second run may start on a cell the first
  run has already occupied. PizzaState.CommitCount shows that the counter
  then drops by one more than the number of free cells. The termination
  of `fill_map` is therefore measured by the number of free cells, not by
  the counter.
- PizzaValid.FillFrom: proves termination and what holds at the end. It
  does not prove that the grid ends up completely filled, which the
  source does not guarantee either.
- PizzaMap.Map.FillMap and the other filling methods require a valid
  map: one built by `Map::new` and `add_pizzeria` (PizzaValid.NewValid,
  PizzaValid.AddValid).
- Treasure Hunt is not part of this model.
