# Sudoku constraint solver: a Dafny model

This project models the Sudoku solver of `solution.py` together with the
helpers duplicated in `utils.py`. The solver works on a map from the 81 box
labels 'A1'..'I9' to candidate strings of digit characters. It has four
parts:

- Propagation rules, which shrink the map: elimination, only-choice and
  naked twins.
- A fixpoint driver, `reduce_puzzle`, which repeats the rules.
- A final `search`.
- `solve`, which chains the three.

The map is a `seq<string>` indexed by box number, 0..80, in the row-major
order of the labels. This is the insertion order `grid_values` gives the
Python dict, and in-place updates and `copy()` keep it.

The topology is built once and parameterised by the unit list:

- `Topology.SolutionUnits` holds the 29 units of `solution.py`: rows,
  columns, squares and the two diagonals.
- `Topology.UtilsUnits` holds the 27 classic units of `utils.py`.

Each rule is a fold over the box list that the source takes once on entry.
Boxes can therefore shrink, or be emptied, while a pass runs. `only_choice`
and `naked_twins` update one box at a time through `Propagation.AssignValue`,
like the source's `assign_value`. One step of `eliminate` is a single
simultaneous update of all peers of a solved box (see "Left out").

Module layout:

- `Candidates`: candidate strings; `str.replace`; the "only characters
  deleted" relation `Sub`/`Shrinks`; the termination measure `Total`.
- `Topology`: labels, units and peers.
- `PeerCount`: the classic layout's unit and peer counts.
- `Grid`: string conversion and box selections.
- `Propagation`: `assign_value`, `eliminate` and `only_choice`.
- `Twins`: `naked_twins`.
- `Solutions`: what a Sudoku solution is, and why no rule loses one.
- `Solver`: `reduce_puzzle`, `search` and `solve`.

Every rule is given two partners:

- Structural: the rule only deletes characters (`Shrinks`), and each
  deletion is justified by a solved peer, a confined digit or a pair of
  naked twins.
- Semantic: every Sudoku solution that the map admits is still admitted
  afterwards. Hence `reduce_puzzle` never reports failure on a puzzle that
  has a solution.

`search`, as written, does not propagate and does not check units. The model
proves what it does instead: it gives every open box its first candidate
(`Solver.SearchFillsFirstCandidates`). So it can give two boxes of one unit
the same digit (`Solver.SearchRepeatsFirstCandidates`). That is how
tests/test_solution.py:17-20 comes to expect a grid whose row A repeats '2'.

Two docstrings of `solution.py` are worth comparing with the code:

- `reduce_puzzle`'s docstring (solution.py:249) says that if at some point
  a box has no values left, the result is `False`. The code keeps that
  promise; only the moment of the check differs. It looks for empty boxes
  only at the end of a round that did not solve the puzzle
  (solution.py:287-288), so a box emptied by elimination is first passed to
  only-choice and naked twins as it is. Boxes only lose candidates, and a
  map with an empty box is never solved, so the turn still ends with
  `False` (`Solver.EmptyAnywhereFails`).
- `search`'s docstring (solution.py:294) speaks of depth-first search and
  propagation, which promises more than the code does. The code propagates
  nothing after a guess, and since its recursive call never fails, it never
  backtracks. The model follows the code.

After naked twins, the source first compares the solved lists and then
checks for empty boxes, and both checks run in the same turn. A stalled
round with an empty box therefore returns `False`. The model checks for an
empty box first, which gives the same result.

## Model

| member | source | states |
|---|---|---|
| Topology.CrossLength | solution.py:30-32 | `cross` yields one label per pair, len(rows)·len(cols) in all |
| Topology.CrossAt | utils.py:27-29 | label `i*len(cs)+j` of `cross` is row character `i` followed by column character `j` (row-major order) |
| Topology.BoxesShape | solution.py:35 | `boxes` holds 81 pairwise distinct labels, label `9r+c` being row letter `r` and column digit `c` |
| Topology.BoxLabel | utils.py:32 | box number `b` carries the label of row `b/9` and column `b%9`, tying box numbers to the source's labels |
| Topology.UnitsShape | solution.py:64 | the solver's list has 29 units and the helpers' 27; every unit has 9 distinct boxes, all in range |
| Topology.RowUnitLabels | solution.py:40 | row unit `r` lists exactly the labels of `cross(rows[r], cols)`, in order |
| Topology.ColumnUnitLabels | solution.py:46 | column unit `c` lists exactly the labels of `cross(rows, cols[c])`, in order |
| Topology.SquareUnitLabels | solution.py:52 | square unit `s` lists the labels of `cross` over row band `s/3` and column band `s%3`, in order |
| Topology.DiagonalLabels | solution.py:58-61 | the two diagonal units are the labels zipped from 'ABCDEFGHI' with '123456789' and with '987654321' |
| Topology.Without | solution.py:69 | a unit with one box left out holds exactly the other members, one fewer when the box was in the unit |
| Topology.UnitPeers | utils.py:67 | a box's peer groups are exactly the units holding it, each with the box removed, and there are no more groups than units |
| Topology.HoldingFrom | solution.py:69 | the indices of the units that hold a box, exactly, in increasing order |
| Topology.UnitPeersInUnitOrder | solution.py:69 | there is one peer group per unit holding the box, in unit order: group `i` is the `i`-th such unit with the box left out |
| Topology.Flatten | solution.py:78 | concatenating the groups keeps exactly the boxes of some group |
| Topology.AllPeers | solution.py:78 | a box's peers are exactly the other boxes that share some unit with it |
| Topology.UnitPeerGroups | solution.py:69-75 | in either unit list each peer group has 8 members and never contains the box itself |
| Topology.PeersIrreflexive | utils.py:76 | no box is its own peer |
| Topology.PeersSymmetric | utils.py:76-81 | `a` is a peer of `b` exactly when `b` is a peer of `a` |
| PeerCount.ThreeUnitsPerBox | utils.py:62-64 | every box lies in exactly three of the 27 units: its row, its column and its square |
| PeerCount.PeersBySharing | utils.py:8-12 | in the classic layout two boxes are peers exactly when they are distinct and share a row, column or square |
| PeerCount.TwentyPeers | utils.py:11-13 | in the classic layout every box has exactly 20 peers, an explicitly listed set |
| Grid.GridValues | utils.py:84-94 | the map has 81 boxes; a box is all nine digits exactly when its character is '.', and otherwise it is that character alone |
| Grid.ValuesGrid | solution.py:99-100 | the rendered puzzle has 81 characters |
| Grid.ValuesGridOfGridValues | utils.py:94-98 | rendering the parsed puzzle gives back the puzzle string, for every 81-character string |
| Grid.GridValuesOfValuesGrid | solution.py:96-100 | parsing the rendering gives back the map when every box holds one character other than '.' |
| Grid.BoxesWithValueLen | utils.py:116-118 | the boxes whose string has the given length, exactly and in increasing box order |
| Grid.SolvedBoxes | utils.py:121-123 | the boxes of length 1, exactly and in increasing order |
| Grid.UnsolvedBoxes | solution.py:128-130 | the boxes of length more than 1, exactly and in increasing order |
| Grid.InvalidBoxes | utils.py:131-136 | the empty boxes, exactly; when the list is empty no box is empty |
| Grid.InvalidBoxesEmpty | utils.py:131-136 | the list of empty boxes is empty exactly when no box is empty |
| Grid.BoxesPartition | utils.py:116-136 | every box is in exactly one of the solved, unsolved and invalid lists |
| Grid.SolvedCount | utils.py:139-141 | the number of solved boxes is at most 81, and is 81 only when every box is a singleton |
| Grid.IsSolvedMeaning | utils.py:144-145 | `solved` holds exactly when all 81 boxes are singletons |
| Candidates.Remove | solution.py:207 | `str.replace(d, '')` deletes characters only, keeps every copy of each character other than `d` and no copy of `d` (as multisets), and leaves a string without `d` unchanged |
| Candidates.Replace | solution.py:219 | replacing a one-character pattern keeps every copy of each other character and none of the pattern (as multisets), deleting characters only; the empty pattern changes nothing |
| Candidates.SubLength | solution.py:178-244 | a string with characters deleted is no longer, and is equal when it is as long |
| Candidates.SubMem | solution.py:178-244 | deleting characters never adds a candidate |
| Candidates.SubTrans | solution.py:260-288 | deletions compose across successive rules and rounds |
| Candidates.ShrinksTotal | solution.py:260-288 | when a map only lost characters, its total candidate count did not grow, and stayed equal only if nothing changed |
| Propagation.AssignValue | solution.py:164-175 | the box gets the new string, every other box is unchanged, and assigning the current string changes nothing |
| Propagation.EliminateAt | solution.py:218-219 | one solved box's step deletes its string from each of its peers, as they are at that moment, and from no other box |
| Propagation.EliminateFrom | solution.py:217-219 | the loop over the entry list of solved boxes only deletes characters |
| Propagation.EliminateFromClears | solution.py:217-219 | a listed box that still holds one digit at the end has that digit in none of its peers |
| Propagation.EliminateFromJustified | solution.py:217-219 | a digit that left a box was the whole entry string of a listed peer |
| Propagation.SolvedPassClears | solution.py:217-219 | after the pass over the boxes solved on entry, a solved box that kept its digit has it in none of its peers |
| Propagation.SolvedPassJustified | solution.py:217-219 | every digit the pass deletes belongs to a peer solved to exactly that digit on entry |
| Propagation.Eliminate | solution.py:215-220 | only deletions; a box solved on entry that keeps its digit has it in no peer; every deleted digit was the entry value of a solved peer |
| Propagation.EliminateEmptiesClash | solution.py:215-220 | two peers solved with the same digit on entry leave one of them empty |
| Propagation.Joined | solution.py:235 | joining a group's strings holds exactly the characters found in some box of the group |
| Propagation.FirstAbsent | solution.py:236-241 | the position of the first candidate missing from the other boxes: every earlier one occurs there, and the one found does not |
| Propagation.OnlyChoiceIn | solution.py:234-243 | scanning the peer groups in order, the box is left alone or becomes one candidate from its own string that no box of some group holds; no other box changes |
| Propagation.GroupConfines | solution.py:234-241 | a candidate missing from one of a box's peer groups is confined to that box within the group's unit |
| Propagation.OnlyChoiceInPicks | solution.py:234-243 | when group `i` is the first group lacking some candidate and `k` the first candidate it lacks, the box becomes exactly that candidate and nothing else changes |
| Propagation.OnlyChoiceInKeeps | solution.py:234-243 | when every group holds every candidate, nothing changes |
| Propagation.OnlyChoiceInFixes | solution.py:234-243 | when some group lacks some candidate, the box ends with exactly one candidate, taken from its string |
| Propagation.OnlyChoiceAt | solution.py:231-243 | one box's step only deletes; when it changes the box, the box becomes one of its candidates that no other box of some unit holds |
| Propagation.OnlyChoiceAtPicks | solution.py:231-243 | one box's step sets it to the first candidate lacking from the first of its peer groups, in unit order, that lacks any |
| Propagation.OnlyChoiceAtKeeps | solution.py:231-243 | one box's step changes nothing when each peer group holds all its candidates |
| Propagation.OnlyChoiceAtFixes | solution.py:231-243 | a candidate lacking from one peer group forces the box to a single candidate |
| Propagation.OnlyChoiceFrom | solution.py:230-244 | the loop over the entry list of unsolved boxes only deletes characters |
| Propagation.OnlyChoiceFromChanges | solution.py:230-244 | a box the loop changed was on the entry list and ends as one of its entry candidates, confined to it in some unit |
| Propagation.OnlyPlaceShrinks | solution.py:230-244 | a digit confined to one box of a unit stays confined after later deletions |
| Propagation.OnlyChoiceFromFixes | solution.py:230-244 | a box of the increasing entry list with a candidate lacking from one of its peer groups on entry ends with a single candidate |
| Propagation.OnlyChoiceFixes | solution.py:223-244 | the docstring's promise: a box unsolved on entry with a value that fits in no other box of one of its units ends with a single candidate |
| Propagation.OnlyChoice | solution.py:223-244 | only deletions; each changed box had more than one candidate, and ends with one of them, confined to it in some unit of the result |
| Twins.TwinReachTrans | solution.py:189-209 | chains of justified twin deletions compose |
| Twins.TwinReachShrinks | solution.py:189-209 | justified twin deletions only ever delete characters |
| Twins.StripOne | solution.py:207-209 | deleting one twin candidate from a box through `assign_value` is one justified step, or no change |
| Twins.StripChars | solution.py:200-209 | stripping one non-twin box leaves it without any twin candidate, touches no other box, and is reached by justified deletions |
| Twins.StripGroup | solution.py:197-209 | stripping a group leaves every box but the twin `y` without the twins' candidates, keeps both twins' strings, and is reached by justified deletions |
| Twins.TwinsInGroup | solution.py:194-209 | the loop over a group's possible twins keeps the box's own string and is reached by justified deletions |
| Twins.TwinsInGroupClears | solution.py:194-209 | when a group holds a twin, every box of the group but the first twin found ends without the twins' candidates |
| Twins.TwinsInGroupKeeps | solution.py:194-196 | a group with no box holding the same string as the box is left alone |
| Twins.TwinsInGroups | solution.py:193-209 | the loop over the box's peer groups keeps the box's own string and is reached by justified deletions |
| Twins.TwinsAt | solution.py:190-209 | one box's step (skipped beyond two candidates) keeps its string and is reached by justified deletions |
| Twins.TwinsFrom | solution.py:189-209 | the loop over the entry list of unsolved boxes is reached by justified deletions |
| Twins.NakedTwins | solution.py:178-212 | the result is reached by single deletions of `d` from `c`, each made when two other boxes of a unit holding `c` had the same string of at most two candidates containing `d`; hence only deletions |
| Solutions.GridValuesDigits | utils.py:84-94 | a puzzle over '.' and digits parses to a map whose candidates are all digits |
| Solutions.EmptyBoxNoSolution | solution.py:287-288 | a map with an empty box admits no solution |
| Solutions.SolvedMapIsItsSolution | solution.py:146-147 | a map of 81 singletons admits at most its own digits as a solution |
| Solutions.PeersDiffer | solution.py:78 | any valid fill gives two peers different digits |
| Solutions.JustifiedRemovalsKeep | solution.py:215-220 | deletions each justified by a solved peer keep every admitted valid fill |
| Solutions.EliminateKeepsSolutions | solution.py:215-220 | after `eliminate`, every valid fill the map admitted is still admitted |
| Solutions.TwinDigitNotSolution | solution.py:197-209 | a digit deleted because of naked twins is never the box's digit in an admitted valid fill, since the twins take both digits of their string |
| Solutions.TwinStepKeepsSolutions | solution.py:197-209 | one justified twin deletion keeps every admitted valid fill |
| Solutions.NakedTwinsKeepsSolutions | solution.py:178-212 | after `naked_twins`, every valid fill the map admitted is still admitted |
| Solutions.OnlyPlaceIsSolution | solution.py:236-241 | a digit confined to one box of a unit is that box's digit in every admitted solution |
| Solutions.OnlyChoiceKeepsSolutions | solution.py:223-244 | after `only_choice`, every solution the map admitted is still admitted |
| Solver.Round | solution.py:262-275 | one round of the three rules only deletes characters |
| Solver.SolvedChangeLowersTotal | solution.py:276-286 | a round that changes the solved list lowers the total candidate count, so the driver's loop ends |
| Solver.RoundEnd | solution.py:274-288 | after the three rules: a solved round's map is returned; the turn fails exactly when the unsolved round left a box empty, and stalls exactly when it left none and solved no new box; a stalled or continuing turn hands on the round's map, and a continuing one has fewer candidates |
| Solver.ReduceTurn | solution.py:262-288 | a turn returns the map of `eliminate` as soon as it is solved, then that of `only_choice`, and otherwise ends as the whole round does; a solved map it returns only lost characters |
| Solver.ReducePuzzle | solution.py:247-290 | only deletions; a result is solved or has no empty box |
| Solver.OnRunShrinks | solution.py:260-288 | every state the loop starts a turn from is the input with characters deleted |
| Solver.ReducePuzzleAlongRun | solution.py:260-288 | the driver's answer is the same from every state its loop passes through |
| Solver.RunTurnDecides | solution.py:276-288 | a turn on the run that ends unsolved with an empty box makes the driver return `False`; one that ends unsolved, with no empty box and no new solved box, makes it return that round's map |
| Solver.SolvedMapFixed | solution.py:189-244 | on a solved map, `only_choice` and `naked_twins` change nothing, since their loops run over the unsolved boxes |
| Solver.EmptyTurnFails | solution.py:262-288 | a box left empty after `eliminate`, after `only_choice` or after the whole round makes the turn fail: no early exit is taken, and the round ends with an empty box |
| Solver.EmptyAnywhereFails | solution.py:247-290 | the docstring's promise: an empty box at any stage of any turn on the run makes `reduce_puzzle` return `False` |
| Solver.ReducePuzzleOutcome | solution.py:247-290 | `False` comes only from a turn on the run that ended unsolved with an empty box; an unsolved result is the map of a turn on the run that left no box empty and solved no new box |
| Solver.RoundEndKeepsSolutions | solution.py:274-288 | when the round's map still admits a solution, the turn does not fail and hands on a map that admits it |
| Solver.TurnKeepsSolutions | solution.py:262-288 | a turn from a map of digits that admits a solution does not fail, and the map it ends with still admits the solution |
| Solver.ReducePuzzleKeepsSolutions | solution.py:247-290 | on a map of digits that admits a solution, the driver never fails and still admits that solution |
| Solver.ShortestFrom | solution.py:300-301 | the position found holds a box of least length in the rest of the list, and every earlier position a strictly longer one |
| Solver.FirstShortest | solution.py:300-301 | the box picked is open and of least length, and earlier boxes are strictly longer (stable sort, first entry) |
| Solver.PickNode | solution.py:296-301 | the node has more than one candidate and none shorter among the open boxes, the first such in box order |
| Solver.Guess | solution.py:304-305 | fixing an open box to one of its candidates only deletes, lowers the total and empties no box |
| Solver.TryChoices | solution.py:302-310 | trying the candidates in order only deletes, leaves no box longer than one, and fills every non-empty box |
| Solver.Search | solution.py:293-310 | a result only deletes, has no box longer than one, and fills every box that was not empty |
| Solver.SearchFillsFirstCandidates | solution.py:293-310 | `search` never fails, and gives every open box its first candidate and leaves the other boxes alone, whichever box it branches on |
| Solver.SearchRepeatsFirstCandidates | tests/test_solution.py:17-20 | two open boxes whose strings start with the same character both get that character, whether or not they share a unit |
| Solver.ReduceGrid | solution.py:323-324 | parsing and reducing with the 29 units only deletes characters from the parsed map |
| Solver.Solve | solution.py:313-330 | a result only deletes from the parsed puzzle, has 81 single characters, and keeps every given |
| Solver.GivensKept | solution.py:323-330 | a map of singletons reached by deletions from the parsed puzzle keeps every given character |
| Solver.SolveFailsOnlyInReduce | solution.py:325-329 | `solve` fails exactly when `reduce_puzzle` does; `search` never adds a failure |
| Solver.SolveKeepsSolutions | solution.py:313-330 | a puzzle over '.' and digits that has a solution is never reported unsolvable; when reducing alone finishes it, the answer is that solution |

## Left out

- Logging and the global `assignments` trace that `assign_value` appends to are left out. They only feed the console and the visualiser.
- `display` is left out: console printing.
- `solve_status` is left out: percentage formatting for log messages.
- The `__main__` blocks and the `visualize`/pygame import are left out: I/O.
- `search`'s `mystr` argument is left out: it only feeds a debug log.
- Inputs whose length is not 81 are excluded by a precondition. For them, `zip` in `grid_values` silently truncates.
- Python's `False` result is modelled as `None` of an `Option`.
- The end-to-end run of the diagonal test puzzle at tests/test_solution.py:8-12 is not evaluated. It needs the whole solver run on concrete data.
- The "20 peers" count is proved for the 27 classic units only (`PeerCount.TwentyPeers`). With the diagonals, boxes on a diagonal have more peers.
- `eliminate` iterates over a Python set, whose order is unspecified. It is modelled as one simultaneous step per solved box. During that step the solved box's own string does not change, because a box is not its own peer, so the order does not matter.
- Solver.ReducePuzzle: its own contract states only deletions and "solved or no empty box". When it returns `False` or an unsolved map is stated by `Solver.ReducePuzzleOutcome` and `Solver.RunTurnDecides`, over the states of its run (`OnRun`). Together they say the driver fails exactly when a turn of its run fails. The number of rounds is not exposed.
- Solver.SolveKeepsSolutions: the answer is claimed to be the solution only when `reduce_puzzle` alone finishes the puzzle. After that, `search` fills boxes by first candidate, which need not respect the units.
- Propagation.OnlyChoiceFixes: promises a single candidate only for boxes whose peer group lacks the candidate on entry to the pass. A group that comes to lack a candidate only later in the pass, after the box's turn, need not have it fixed. This is what the source does: one pass over a list taken on entry.
- Twins.NakedTwins: completeness is stated per group (`Twins.TwinsInGroupClears`), not for the final map. The box list is taken on entry (solution.py:189), and twins are compared against the current map. A box's string can therefore change, or a twin be stripped by an earlier twin, before its turn, so the source makes no promise that the final map has no naked twins left.
- Solutions.OnlyChoiceKeepsSolutions: needs a full solution, one that also covers every digit in every unit. The other rules need only a fill that is distinct within each unit.
