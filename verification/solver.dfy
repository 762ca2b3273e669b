/** The driver: `reduce_puzzle` repeats elimination, only-choice and naked
    twins until the puzzle is solved, stalls or shows an empty box; `search`
    fills the boxes that are still open; `solve` runs both on a puzzle string
    with the 29 units of the diagonal variant. */
module Solver {
  import opened Wrappers
  import opened Candidates
  import opened Topology
  import opened Grid
  import opened Propagation
  import opened Twins
  import opened Solutions

  /** One pass of the three rules, in the order `reduce_puzzle` runs them. */
  function Round(units: seq<Unit>, v: Values): (r: Values)
    requires WellFormed(units, v)
    ensures Shrinks(v, r)
  {
    var e := Eliminate(units, v);
    var o := OnlyChoice(units, e);
    var t := NakedTwins(units, o);
    ShrinksTrans(v, e, o);
    ShrinksTrans(v, o, t);
    t
  }

  /** A round that shrinks the map and changes the list of solved boxes
      removes at least one candidate: the measure the loop runs down. */
  lemma SolvedChangeLowersTotal(v: Values, t: Values)
    requires |v| == NumBoxes
    requires Shrinks(v, t)
    requires SolvedBoxes(v) != SolvedBoxes(t)
    ensures Total(t) < Total(v)
  {
    ShrinksTotal(v, t);
  }

  /** How one turn of the `reduce_puzzle` loop ends: with a solved map,
      with an empty box, with no new solved box, or with a map to run the
      next turn on. */
  datatype Turn = Solved(s: Values) | Failed | Stalled(t: Values) | Progress(t: Values)

  /** A turn from `u` fails: none of the three rules solved the puzzle, and
      the round left a box empty. */
  ghost predicate TurnFails(units: seq<Unit>, u: Values)
    requires WellFormed(units, u)
  {
    !IsSolved(Eliminate(units, u)) && !IsSolved(OnlyChoice(units, Eliminate(units, u))) &&
    !IsSolved(Round(units, u)) && InvalidBoxes(Round(units, u)) != []
  }

  /** A turn from `u` stalls: none of the three rules solved the puzzle, the
      round left no box empty, and it solved no new box. */
  ghost predicate TurnStalls(units: seq<Unit>, u: Values)
    requires WellFormed(units, u)
  {
    !IsSolved(Eliminate(units, u)) && !IsSolved(OnlyChoice(units, Eliminate(units, u))) &&
    !IsSolved(Round(units, u)) && InvalidBoxes(Round(units, u)) == [] &&
    SolvedBoxes(u) == SolvedBoxes(Round(units, u))
  }

  /** How a turn ends once all three rules have run: the round's result is
      solved, has an empty box, solved no new box, or goes on. */
  function RoundEnd(units: seq<Unit>, v: Values): (r: Turn)
    requires WellFormed(units, v)
    ensures r.Solved? <==> IsSolved(Round(units, v))
    ensures r.Failed? <==> !IsSolved(Round(units, v)) && InvalidBoxes(Round(units, v)) != []
    ensures r.Stalled? <==> !IsSolved(Round(units, v)) && InvalidBoxes(Round(units, v)) == [] &&
                            SolvedBoxes(v) == SolvedBoxes(Round(units, v))
    ensures r.Solved? ==> r.s == Round(units, v)
    ensures r.Stalled? || r.Progress? ==> r.t == Round(units, v)
    ensures r.Solved? ==> |r.s| == NumBoxes && Shrinks(v, r.s) && IsSolved(r.s)
    ensures r.Stalled? || r.Progress? ==> |r.t| == NumBoxes && Shrinks(v, r.t)
    ensures r.Stalled? ==> forall b :: 0 <= b < NumBoxes ==> r.t[b] != []
    ensures r.Progress? ==> Total(r.t) < Total(v)
  {
    var t := Round(units, v);
    if IsSolved(t) then Solved(t)
    else if InvalidBoxes(t) != [] then Failed
    else if SolvedBoxes(v) == SolvedBoxes(t) then Stalled(t)
    else
      SolvedChangeLowersTotal(v, t);
      Progress(t)
  }

  /** One turn of the `reduce_puzzle` loop from `v`, which checks for a
      solved map after each rule. A turn that goes on has removed a
      candidate, so the loop ends. */
  function ReduceTurn(units: seq<Unit>, v: Values): (r: Turn)
    requires WellFormed(units, v)
    ensures IsSolved(Eliminate(units, v)) ==> r == Solved(Eliminate(units, v))
    ensures !IsSolved(Eliminate(units, v)) && IsSolved(OnlyChoice(units, Eliminate(units, v))) ==>
              r == Solved(OnlyChoice(units, Eliminate(units, v)))
    ensures !IsSolved(Eliminate(units, v)) && !IsSolved(OnlyChoice(units, Eliminate(units, v))) ==>
              r == RoundEnd(units, v)
    ensures r.Solved? ==> |r.s| == NumBoxes && Shrinks(v, r.s) && IsSolved(r.s)
  {
    var e := Eliminate(units, v);
    if IsSolved(e) then Solved(e)
    else
      var o := OnlyChoice(units, e);
      ShrinksTrans(v, e, o);
      if IsSolved(o) then Solved(o)
      else RoundEnd(units, v)
  }

  /** `reduce_puzzle`. The loop keeps the solved-box list of the state each
      round starts from; here that state is the argument of the recursive
      call. `None` is the source's `False`. */
  function ReducePuzzle(units: seq<Unit>, v: Values): (r: Option<Values>)
    requires WellFormed(units, v)
    ensures r.Some? ==> |r.value| == NumBoxes && Shrinks(v, r.value)
    ensures r.Some? ==> IsSolved(r.value) || forall b :: 0 <= b < NumBoxes ==> r.value[b] != []
    decreases Total(v)
  {
    match ReduceTurn(units, v)
    case Solved(s) => Some(s)
    case Failed => None
    case Stalled(t) => Some(t)
    case Progress(t) =>
      var r := ReducePuzzle(units, t);
      if r.Some? then ShrinksTrans(v, t, r.value); r else r
  }

  /** `u` is a state the `reduce_puzzle` loop on `v` starts a turn from:
      `v` itself, or a state reached through turns that went on. */
  ghost predicate OnRun(units: seq<Unit>, v: Values, u: Values)
    requires WellFormed(units, v)
    decreases Total(v)
  {
    u == v ||
    (ReduceTurn(units, v).Progress? && OnRun(units, ReduceTurn(units, v).t, u))
  }

  /** Every state on the run is the input with characters deleted. */
  lemma {:induction false} OnRunShrinks(units: seq<Unit>, v: Values, u: Values)
    requires WellFormed(units, v) && OnRun(units, v, u)
    ensures WellFormed(units, u) && Shrinks(v, u)
    decreases Total(v)
  {
    if u == v {
      ShrinksRefl(v);
    } else {
      var t := ReduceTurn(units, v).t;
      OnRunShrinks(units, t, u);
      ShrinksTrans(v, t, u);
    }
  }

  /** The driver gives the same answer from every state on its run. */
  lemma {:induction false} ReducePuzzleAlongRun(units: seq<Unit>, v: Values, u: Values)
    requires WellFormed(units, v) && OnRun(units, v, u)
    ensures WellFormed(units, u)
    ensures ReducePuzzle(units, v) == ReducePuzzle(units, u)
    decreases Total(v)
  {
    if u != v {
      var t := ReduceTurn(units, v).t;
      assert ReducePuzzle(units, v) == ReducePuzzle(units, t);
      ReducePuzzleAlongRun(units, t, u);
    }
  }

  /** A failing turn anywhere on the run makes `reduce_puzzle` return
      `False`; a stalling one makes it return that round's map. */
  lemma RunTurnDecides(units: seq<Unit>, v: Values, u: Values)
    requires WellFormed(units, v) && OnRun(units, v, u)
    ensures WellFormed(units, u)
    ensures TurnFails(units, u) ==> ReducePuzzle(units, v) == None
    ensures TurnStalls(units, u) ==> ReducePuzzle(units, v) == Some(Round(units, u))
  {
    ReducePuzzleAlongRun(units, v, u);
  }

  /** A turn from `u` in which a box is left with no values at any stage,
      after `eliminate`, after `only_choice` or after the whole round, fails:
      boxes only lose candidates, so the box is still empty when the round
      ends, and a map with an empty box is not solved. */
  lemma EmptyTurnFails(units: seq<Unit>, u: Values, b: int)
    requires WellFormed(units, u) && 0 <= b < NumBoxes
    requires Eliminate(units, u)[b] == [] || OnlyChoice(units, Eliminate(units, u))[b] == [] ||
             Round(units, u)[b] == []
    ensures TurnFails(units, u)
  {
    var e := Eliminate(units, u);
    var o := OnlyChoice(units, e);
    var t := Round(units, u);
    assert t == NakedTwins(units, o);
    ShrinksBoxes(e, o);
    ShrinksBoxes(o, t);
    assert |t[b]| == 0;
    assert b in InvalidBoxes(t);
    IsSolvedMeaning(t);
    assert !IsSolved(t);
    SolvedMapFixed(units, o);
    assert !IsSolved(o);
    SolvedMapFixed(units, e);
    assert !IsSolved(e);
  }

  /** On a solved map no box is unsolved, so `only_choice` and
      `naked_twins`, whose loops run over the unsolved boxes, change
      nothing. */
  lemma SolvedMapFixed(units: seq<Unit>, v: Values)
    requires WellFormed(units, v)
    ensures IsSolved(v) ==> OnlyChoice(units, v) == v && NakedTwins(units, v) == v
  {
    if IsSolved(v) {
      IsSolvedMeaning(v);
      BoxesWhereNone(v, CountAbove(1), NumBoxes);
      assert UnsolvedBoxes(v) == [];
    }
  }

  /** The promise of `reduce_puzzle`'s docstring: a box left with no values
      at any stage of a turn on the run makes the driver return `False`. */
  lemma EmptyAnywhereFails(units: seq<Unit>, v: Values, u: Values, b: int)
    requires WellFormed(units, v) && OnRun(units, v, u) && WellFormed(units, u) && 0 <= b < NumBoxes
    requires Eliminate(units, u)[b] == [] || OnlyChoice(units, Eliminate(units, u))[b] == [] ||
             Round(units, u)[b] == []
    ensures ReducePuzzle(units, v) == None
  {
    EmptyTurnFails(units, u, b);
    RunTurnDecides(units, v, u);
  }

  /** Why `reduce_puzzle` stops short of a solved map: `False` comes from a
      turn on its run that failed, and an unsolved result is the round of a
      turn on its run that stalled. With `RunTurnDecides`, the driver fails
      exactly when some turn of its run fails. */
  lemma {:induction false} ReducePuzzleOutcome(units: seq<Unit>, v: Values)
    requires WellFormed(units, v)
    ensures ReducePuzzle(units, v).None? ==>
              exists u :: OnRun(units, v, u) && WellFormed(units, u) && TurnFails(units, u)
    ensures ReducePuzzle(units, v).Some? && !IsSolved(ReducePuzzle(units, v).value) ==>
              exists u :: OnRun(units, v, u) && WellFormed(units, u) && TurnStalls(units, u) &&
                ReducePuzzle(units, v).value == Round(units, u)
    decreases Total(v)
  {
    assert OnRun(units, v, v);
    match ReduceTurn(units, v)
    case Solved(s) =>
      assert ReducePuzzle(units, v) == Some(s);
    case Failed =>
      assert ReducePuzzle(units, v) == None;
      assert TurnFails(units, v);
    case Stalled(t) =>
      assert ReducePuzzle(units, v) == Some(t);
      assert TurnStalls(units, v);
    case Progress(t) =>
      assert ReducePuzzle(units, v) == ReducePuzzle(units, t);
      ReducePuzzleOutcome(units, t);
      assert forall u :: OnRun(units, t, u) ==> OnRun(units, v, u);
  }

  /** No rule loses a solution, so no stage of a round does; and every
      stage still holds only digits. */
  lemma RoundKeepsSolutions(units: seq<Unit>, v: Values, sol: string)
    requires WellFormed(units, v)
    requires IsSolution(units, sol) && Admits(v, sol) && AllCandidatesDigits(v)
    ensures Admits(Eliminate(units, v), sol)
    ensures Admits(OnlyChoice(units, Eliminate(units, v)), sol)
    ensures Admits(Round(units, v), sol) && AllCandidatesDigits(Round(units, v))
  {
    var e := Eliminate(units, v);
    EliminateKeepsSolutions(units, v, sol);
    DigitsShrink(v, e);
    var o := OnlyChoice(units, e);
    OnlyChoiceKeepsSolutions(units, e, sol);
    NakedTwinsKeepsSolutions(units, o, sol);
    DigitsShrink(v, Round(units, v));
  }

  /** A map that admits a solution has no empty box. */
  lemma AdmitsNoEmpty(v: Values, sol: string)
    requires |v| == NumBoxes && Admits(v, sol)
    ensures InvalidBoxes(v) == []
  {
    assert forall b :: 0 <= b < NumBoxes ==> sol[b] in v[b];
    InvalidBoxesEmpty(v);
  }

  /** When the round's result still admits a solution, the end of the turn
      is not a failure and its map admits the solution. */
  lemma RoundEndKeepsSolutions(units: seq<Unit>, v: Values, sol: string)
    requires WellFormed(units, v)
    requires Admits(Round(units, v), sol) && AllCandidatesDigits(Round(units, v))
    ensures !RoundEnd(units, v).Failed?
    ensures RoundEnd(units, v).Solved? ==> Admits(RoundEnd(units, v).s, sol)
    ensures RoundEnd(units, v).Stalled? || RoundEnd(units, v).Progress? ==>
              Admits(RoundEnd(units, v).t, sol) && AllCandidatesDigits(RoundEnd(units, v).t)
  {
    AdmitsNoEmpty(Round(units, v), sol);
  }

  /** A turn from a map that admits a solution does not fail, and the map it
      ends with still admits the solution and holds only digits. */
  lemma TurnKeepsSolutions(units: seq<Unit>, v: Values, sol: string)
    requires WellFormed(units, v)
    requires IsSolution(units, sol) && Admits(v, sol) && AllCandidatesDigits(v)
    ensures !ReduceTurn(units, v).Failed?
    ensures ReduceTurn(units, v).Solved? ==> Admits(ReduceTurn(units, v).s, sol)
    ensures ReduceTurn(units, v).Progress? ==>
              Admits(ReduceTurn(units, v).t, sol) && AllCandidatesDigits(ReduceTurn(units, v).t)
    ensures ReduceTurn(units, v).Stalled? ==> Admits(ReduceTurn(units, v).t, sol)
  {
    RoundKeepsSolutions(units, v, sol);
    var e := Eliminate(units, v);
    var o := OnlyChoice(units, e);
    if IsSolved(e) {
      assert ReduceTurn(units, v) == Solved(e);
    } else if IsSolved(o) {
      assert ReduceTurn(units, v) == Solved(o);
    } else {
      assert ReduceTurn(units, v) == RoundEnd(units, v);
      RoundEndKeepsSolutions(units, v, sol);
    }
  }

  /** `reduce_puzzle` never reports failure for a map that admits a
      solution, and the map it returns still admits that solution. So
      `False` means the map had no solution at all. */
  lemma {:induction false} ReducePuzzleKeepsSolutions(units: seq<Unit>, v: Values, sol: string)
    requires WellFormed(units, v)
    requires IsSolution(units, sol) && Admits(v, sol) && AllCandidatesDigits(v)
    ensures ReducePuzzle(units, v).Some?
    ensures Admits(ReducePuzzle(units, v).value, sol)
    decreases Total(v)
  {
    TurnKeepsSolutions(units, v, sol);
    match ReduceTurn(units, v)
    case Solved(s) =>
    case Stalled(t) =>
    case Progress(t) =>
      ReducePuzzleKeepsSolutions(units, t, sol);
  }

  /** Position of the first shortest box among `open[i..]`. */
  function ShortestFrom(v: Values, open: seq<int>, i: nat): (k: nat)
    requires i < |open|
    requires forall j :: 0 <= j < |open| ==> 0 <= open[j] < |v|
    ensures i <= k < |open|
    ensures forall j :: i <= j < |open| ==> |v[open[k]]| <= |v[open[j]]|
    ensures forall j :: i <= j < k ==> |v[open[k]]| < |v[open[j]]|
    decreases |open| - i
  {
    if i + 1 == |open| then i
    else
      var k := ShortestFrom(v, open, i + 1);
      if |v[open[i]]| <= |v[open[k]]| then i else k
  }

  /** The first box of least length among the boxes of the increasing list
      `open`: the head of the list after a stable sort by length. */
  function FirstShortest(v: Values, open: seq<int>): (node: int)
    requires open != []
    requires forall b :: b in open ==> 0 <= b < |v|
    requires forall i, j :: 0 <= i < j < |open| ==> open[i] < open[j]
    ensures node in open
    ensures forall b :: b in open ==> |v[node]| <= |v[b]|
    ensures forall b :: b in open && b < node ==> |v[node]| < |v[b]|
  {
    assert forall j :: 0 <= j < |open| ==> open[j] in open;
    var k := ShortestFrom(v, open, 0);
    assert forall b :: b in open ==> exists j :: 0 <= j < |open| && open[j] == b;
    open[k]
  }

  /** The box `search` branches on: among the boxes with more than one
      candidate, the first in box order with the fewest candidates. */
  function PickNode(v: Values): (node: int)
    requires |v| == NumBoxes
    requires UnsolvedBoxes(v) != []
    ensures 0 <= node < NumBoxes && |v[node]| > 1
    ensures forall b :: 0 <= b < NumBoxes && |v[b]| > 1 ==> |v[node]| <= |v[b]|
    ensures forall b :: 0 <= b < node && |v[b]| > 1 ==> |v[node]| < |v[b]|
  {
    FirstShortest(v, UnsolvedBoxes(v))
  }

  /** `search`: no propagation and no consistency check. The source's
      `mystr` trace argument only feeds the log and is left out. */
  function Search(v: Values): (r: Option<Values>)
    requires |v| == NumBoxes
    ensures r.Some? ==> Shrinks(v, r.value)
    ensures r.Some? ==> forall b :: 0 <= b < NumBoxes ==> |r.value[b]| <= 1
    ensures r.Some? ==> forall b :: 0 <= b < NumBoxes && v[b] != [] ==> |r.value[b]| == 1
    decreases Total(v), 1
  {
    if UnsolvedBoxes(v) == [] then
      assert forall b :: 0 <= b < NumBoxes && |v[b]| > 1 ==> b in UnsolvedBoxes(v);
      ShrinksRefl(v);
      Some(v)
    else
      var node := PickNode(v);
      TryChoices(v, node, v[node])
  }

  /** Fixing an open box to one of its candidates shrinks the map, removes
      at least one candidate and empties no box. */
  lemma Guess(v: Values, node: int, c: char)
    requires |v| == NumBoxes && 0 <= node < NumBoxes && |v[node]| > 1
    requires c in v[node]
    ensures Shrinks(v, v[node := [c]])
    ensures Total(v[node := [c]]) < Total(v)
    ensures forall b :: 0 <= b < NumBoxes && v[b] != [] ==> v[node := [c]][b] != []
  {
    ShrinksRefl(v);
    SubSingle(v[node], c);
    TotalUpdate(v, node, [c]);
  }

  /** The loop of `search` over the candidates `cs` of `node`: try each in
      turn and return the first result that is not a failure. */
  function TryChoices(v: Values, node: int, cs: string): (r: Option<Values>)
    requires |v| == NumBoxes && 0 <= node < NumBoxes && |v[node]| > 1
    requires forall c :: c in cs ==> c in v[node]
    ensures r.Some? ==> Shrinks(v, r.value)
    ensures r.Some? ==> forall b :: 0 <= b < NumBoxes ==> |r.value[b]| <= 1
    ensures r.Some? ==> forall b :: 0 <= b < NumBoxes && v[b] != [] ==> |r.value[b]| == 1
    decreases Total(v), 0, |cs|
  {
    if cs == [] then None
    else
      var t := v[node := [cs[0]]];
      assert cs[0] in cs;
      Guess(v, node, cs[0]);
      var found := Search(t);
      if found.Some? then
        ShrinksTrans(v, t, found.value);
        found
      else
        assert forall c :: c in cs[1..] ==> c in cs;
        TryChoices(v, node, cs[1..])
  }

  /** Every box with more than one candidate replaced by its first one. */
  function FirstCandidates(v: Values): (r: Values)
    ensures |r| == |v|
  {
    seq(|v|, i requires 0 <= i < |v| => if |v[i]| > 1 then [v[i][0]] else v[i])
  }

  /** Fixing an open box to its first candidate does not change the
      first-candidate filling. */
  lemma FirstGuessFillsSame(v: Values, node: int)
    requires 0 <= node < |v| && |v[node]| > 1
    ensures FirstCandidates(v[node := [v[node][0]]]) == FirstCandidates(v)
  {
    var t := v[node := [v[node][0]]];
    forall i | 0 <= i < |v|
      ensures FirstCandidates(t)[i] == FirstCandidates(v)[i]
    {
      if i == node {
        assert t[i] == [v[node][0]];
      } else {
        assert t[i] == v[i];
      }
    }
  }

  /** `search` never fails: whatever box it branches on, its first guess
      succeeds, and the result gives every open box its first candidate and
      leaves every other box alone. */
  lemma {:induction false} SearchFillsFirstCandidates(v: Values)
    requires |v| == NumBoxes
    ensures Search(v) == Some(FirstCandidates(v))
    decreases Total(v)
  {
    if UnsolvedBoxes(v) == [] {
      forall i | 0 <= i < NumBoxes
        ensures FirstCandidates(v)[i] == v[i]
      {
        assert i !in UnsolvedBoxes(v);
      }
      assert FirstCandidates(v) == v;
    } else {
      var node := PickNode(v);
      var c := v[node][0];
      var t := v[node := [c]];
      Guess(v, node, c);
      SearchFillsFirstCandidates(t);
      FirstGuessFillsSame(v, node);
      assert TryChoices(v, node, v[node]) == Search(t);
    }
  }

  /** Hence `search` may give two open boxes of one unit the same digit: it
      happens whenever their candidate strings start with the same character,
      as with the repeated '2' of row A in the diagonal puzzle's expected
      answer. */
  lemma SearchRepeatsFirstCandidates(v: Values, a: int, b: int)
    requires |v| == NumBoxes && 0 <= a < NumBoxes && 0 <= b < NumBoxes
    requires |v[a]| > 1 && |v[b]| > 1 && v[a][0] == v[b][0]
    ensures Search(v).Some?
    ensures Search(v).value[a] == Search(v).value[b] == [v[a][0]]
  {
    SearchFillsFirstCandidates(v);
  }

  /** The first two steps of `solve`: parse the puzzle and reduce it with
      the 29 units. */
  function ReduceGrid(grid: string): (r: Option<Values>)
    requires |grid| == NumBoxes
    ensures r.Some? ==> Shrinks(GridValues(grid), r.value)
  {
    UnitsShape(true);
    ReducePuzzle(SolutionUnits, GridValues(grid))
  }

  /** `solve`: parse, reduce with the 29 units, and search when reducing
      did not finish the puzzle. */
  function Solve(grid: string): (r: Option<Values>)
    requires |grid| == NumBoxes
    ensures r.Some? ==> Shrinks(GridValues(grid), r.value)
    ensures r.Some? ==> forall b :: 0 <= b < NumBoxes ==> |r.value[b]| == 1
    ensures r.Some? ==> forall b :: 0 <= b < NumBoxes && grid[b] != '.' ==> r.value[b] == [grid[b]]
  {
    UnitsShape(true);
    var values := GridValues(grid);
    var reduced := ReduceGrid(grid);
    if reduced.None? then None
    else if IsSolved(reduced.value) then
      GivensKept(grid, reduced.value);
      reduced
    else
      var r := Search(reduced.value);
      if r.Some? then
        ShrinksTrans(values, reduced.value, r.value);
        GivensKept(grid, r.value);
        r
      else
        r
  }

  /** A map the puzzle shrank to still holds each given in its box. */
  lemma GivensKept(grid: string, w: Values)
    requires |grid| == NumBoxes
    requires Shrinks(GridValues(grid), w)
    requires forall b :: 0 <= b < NumBoxes ==> |w[b]| == 1
    ensures forall b :: 0 <= b < NumBoxes && grid[b] != '.' ==> w[b] == [grid[b]]
  {
    forall b | 0 <= b < NumBoxes && grid[b] != '.'
      ensures w[b] == [grid[b]]
    {
      SubOfShort(w[b], GridValues(grid)[b]);
    }
  }

  /** `solve` fails exactly when `reduce_puzzle` does: the search that
      follows never fails. */
  lemma SolveFailsOnlyInReduce(grid: string)
    requires |grid| == NumBoxes
    ensures Solve(grid).None? <==> ReduceGrid(grid).None?
  {
    var reduced := ReduceGrid(grid);
    if reduced.Some? {
      SearchFillsFirstCandidates(reduced.value);
    }
  }

  /** A puzzle over '.' and the digits that has a solution is never reported
      unsolvable; when reducing alone finishes it, the answer is that
      solution. */
  lemma SolveKeepsSolutions(grid: string, sol: string)
    requires |grid| == NumBoxes
    requires forall b :: 0 <= b < NumBoxes ==> grid[b] == '.' || IsDigit(grid[b])
    requires IsSolution(SolutionUnits, sol) && Admits(GridValues(grid), sol)
    ensures Solve(grid).Some?
    ensures IsSolved(ReduceGrid(grid).value) ==>
              forall b :: 0 <= b < NumBoxes ==> Solve(grid).value[b] == [sol[b]]
  {
    UnitsShape(true);
    var values := GridValues(grid);
    GridValuesDigits(grid);
    ReducePuzzleKeepsSolutions(SolutionUnits, values, sol);
    SolveFailsOnlyInReduce(grid);
    var reduced := ReduceGrid(grid).value;
    if IsSolved(reduced) {
      SolvedMapIsItsSolution(SolutionUnits, reduced, sol);
    }
  }
}
