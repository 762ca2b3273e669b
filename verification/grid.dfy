/** The candidate map and the helpers shared by the solver and the utilities:
    conversion between the 81-character puzzle string and the map, and the
    selections of solved, unsolved and invalid boxes.

    The Python dictionary from labels to candidate strings is a sequence of 81
    strings indexed by box number. The dictionary is built in `boxes` order and
    only ever updated in place or copied, so iterating over it visits the boxes
    in increasing number: the selections below are increasing lists. */
module Grid {
  import opened Topology

  type Values = seq<string>

  const AllDigits: string := "123456789"

  /** `grid_values`: '.' becomes every digit, any other character is a given. */
  function GridValues(grid: string): (v: Values)
    requires |grid| == NumBoxes
    ensures |v| == NumBoxes
    ensures forall i :: 0 <= i < NumBoxes ==> (grid[i] == '.' <==> v[i] == AllDigits)
    ensures forall i :: 0 <= i < NumBoxes && grid[i] != '.' ==> v[i] == [grid[i]]
  {
    seq(NumBoxes, i requires 0 <= i < NumBoxes => if grid[i] == '.' then AllDigits else [grid[i]])
  }

  /** `values_grid`: a solved box shows its digit, any other box shows '.'. */
  function ValuesGrid(v: Values): (grid: string)
    requires |v| == NumBoxes
    ensures |grid| == NumBoxes
  {
    seq(NumBoxes, i requires 0 <= i < NumBoxes => if |v[i]| == 1 then v[i][0] else '.')
  }

  /** Rendering a parsed puzzle gives back the puzzle string, for every
      81-character string. */
  lemma ValuesGridOfGridValues(grid: string)
    requires |grid| == NumBoxes
    ensures ValuesGrid(GridValues(grid)) == grid
  {
  }

  /** Parsing a rendered map gives back the map when every box holds exactly
      one character and none of them is '.'. */
  lemma GridValuesOfValuesGrid(v: Values)
    requires |v| == NumBoxes
    requires forall i :: 0 <= i < NumBoxes ==> |v[i]| == 1 && v[i][0] != '.'
    ensures GridValues(ValuesGrid(v)) == v
  {
    var g := ValuesGrid(v);
    forall i | 0 <= i < NumBoxes
      ensures GridValues(g)[i] == v[i]
    {
      assert v[i] == [v[i][0]];
    }
  }

  /** The tests on a box's candidate count that the selections use. */
  datatype CountTest = CountIs(len: nat) | CountAbove(len: nat)

  predicate Passes(keep: CountTest, l: nat)
  {
    match keep
    case CountIs(len) => l == len
    case CountAbove(len) => l > len
  }

  /** The boxes `b` below `n`, in increasing order, whose candidate count
      passes `keep`. */
  function BoxesWhere(v: Values, keep: CountTest, n: nat): (r: seq<int>)
    requires n <= |v|
    ensures |r| <= n
    ensures forall b {:trigger b in r} :: b in r <==> 0 <= b < n && Passes(keep, |v[b]|)
    ensures forall i, j :: 0 <= i < j < |r| ==> r[i] < r[j]
    ensures |r| == n ==> forall b :: 0 <= b < n ==> Passes(keep, |v[b]|)
    decreases n
  {
    if n == 0 then []
    else
      var r := BoxesWhere(v, keep, n - 1);
      assert forall i :: 0 <= i < |r| ==> r[i] in r;
      if Passes(keep, |v[n - 1]|) then r + [n - 1] else r
  }

  /** When every box below `n` passes the test, all of them are selected. */
  lemma {:induction false} BoxesWhereAll(v: Values, keep: CountTest, n: nat)
    requires n <= |v|
    requires forall b :: 0 <= b < n ==> Passes(keep, |v[b]|)
    ensures |BoxesWhere(v, keep, n)| == n
    decreases n
  {
    if n > 0 {
      BoxesWhereAll(v, keep, n - 1);
    }
  }

  /** When no box below `n` passes the test, none is selected. */
  lemma {:induction false} BoxesWhereNone(v: Values, keep: CountTest, n: nat)
    requires n <= |v|
    requires forall b :: 0 <= b < n ==> !Passes(keep, |v[b]|)
    ensures BoxesWhere(v, keep, n) == []
    decreases n
  {
    if n > 0 {
      BoxesWhereNone(v, keep, n - 1);
    }
  }

  /** `boxes_with_value_len(values, value_len)`. */
  function BoxesWithValueLen(v: Values, len: nat): (r: seq<int>)
    requires |v| == NumBoxes
    ensures forall b {:trigger b in r} :: b in r <==> 0 <= b < NumBoxes && |v[b]| == len
    ensures forall i, j :: 0 <= i < j < |r| ==> r[i] < r[j]
  {
    BoxesWhere(v, CountIs(len), NumBoxes)
  }

  /** `solved_boxes`: the boxes holding exactly one candidate. */
  function SolvedBoxes(v: Values): (r: seq<int>)
    requires |v| == NumBoxes
    ensures forall b {:trigger b in r} :: b in r <==> 0 <= b < NumBoxes && |v[b]| == 1
    ensures forall i, j :: 0 <= i < j < |r| ==> r[i] < r[j]
  {
    BoxesWhere(v, CountIs(1), NumBoxes)
  }

  /** `unsolved_boxes`: the boxes holding more than one candidate. */
  function UnsolvedBoxes(v: Values): (r: seq<int>)
    requires |v| == NumBoxes
    ensures forall b {:trigger b in r} :: b in r <==> 0 <= b < NumBoxes && |v[b]| > 1
    ensures forall i, j :: 0 <= i < j < |r| ==> r[i] < r[j]
  {
    BoxesWhere(v, CountAbove(1), NumBoxes)
  }

  /** `invalid_boxes`: the boxes with no candidate left. */
  function InvalidBoxes(v: Values): (r: seq<int>)
    requires |v| == NumBoxes
    ensures forall b {:trigger b in r} :: b in r <==> 0 <= b < NumBoxes && v[b] == []
    ensures r == [] ==> forall b :: 0 <= b < NumBoxes ==> v[b] != []
  {
    var r := BoxesWithValueLen(v, 0);
    assert forall b :: 0 <= b < NumBoxes && v[b] == [] ==> b in r;
    r
  }

  /** `invalid_boxes` is empty exactly when no box is empty. */
  lemma InvalidBoxesEmpty(v: Values)
    requires |v| == NumBoxes
    ensures InvalidBoxes(v) == [] <==> forall b :: 0 <= b < NumBoxes ==> v[b] != []
  {
    var r := InvalidBoxes(v);
    if r != [] {
      assert r[0] in r;
    }
  }

  /** Every box is in exactly one of the solved, unsolved and invalid lists. */
  lemma BoxesPartition(v: Values, b: int)
    requires |v| == NumBoxes
    requires 0 <= b < NumBoxes
    ensures b in SolvedBoxes(v) || b in UnsolvedBoxes(v) || b in InvalidBoxes(v)
    ensures !(b in SolvedBoxes(v) && b in UnsolvedBoxes(v))
    ensures !(b in SolvedBoxes(v) && b in InvalidBoxes(v))
    ensures !(b in UnsolvedBoxes(v) && b in InvalidBoxes(v))
  {
  }

  /** `solved_count`: how many boxes hold exactly one candidate. */
  function SolvedCount(v: Values): (n: nat)
    requires |v| == NumBoxes
    ensures n <= NumBoxes
    ensures n == NumBoxes ==> forall b :: 0 <= b < NumBoxes ==> |v[b]| == 1
  {
    |SolvedBoxes(v)|
  }

  /** `solved`: all 81 boxes hold exactly one candidate. */
  predicate IsSolved(v: Values)
    requires |v| == NumBoxes
  {
    SolvedCount(v) == NumBoxes
  }

  /** `solved(values)` holds exactly when every box is a single character. */
  lemma IsSolvedMeaning(v: Values)
    requires |v| == NumBoxes
    ensures IsSolved(v) <==> forall b :: 0 <= b < NumBoxes ==> |v[b]| == 1
  {
    if forall b :: 0 <= b < NumBoxes ==> |v[b]| == 1 {
      BoxesWhereAll(v, CountIs(1), NumBoxes);
    }
  }
}
