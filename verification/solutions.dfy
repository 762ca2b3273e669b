/** What the propagation rules preserve: every Sudoku solution that the
    candidate map admits. A solution assigns each box one digit so that the
    boxes of each unit carry distinct digits and every digit occurs in every
    unit. The map admits it when each box's digit is still among that box's
    candidates. None of the rules can lose such a solution, so a box emptied by
    them proves that the map had none. */
module Solutions {
  import opened Candidates
  import opened Topology
  import opened Grid
  import opened Propagation
  import opened Twins

  /** One of the characters '1' to '9', the characters of `AllDigits`. */
  predicate IsDigit(c: char)
  {
    '1' <= c <= '9'
  }

  /** The boxes of unit `u` carry pairwise different digits in `sol`. */
  ghost predicate DistinctIn(u: Unit, sol: string)
  {
    forall a, b :: 0 <= a < |u| && 0 <= b < |u| && u[a] != u[b] && 0 <= u[a] < |sol| && 0 <= u[b] < |sol|
      ==> sol[u[a]] != sol[u[b]]
  }

  /** Every digit occurs on some box of unit `u` in `sol`. */
  ghost predicate CoveredIn(u: Unit, sol: string)
  {
    forall d :: IsDigit(d) ==> exists k :: 0 <= k < |u| && 0 <= u[k] < |sol| && sol[u[k]] == d
  }

  /** `sol` fills the 81 boxes with digits, distinct within every unit. */
  ghost predicate ValidFill(units: seq<Unit>, sol: string)
  {
    |sol| == NumBoxes &&
    (forall i :: 0 <= i < NumBoxes ==> IsDigit(sol[i])) &&
    (forall j :: 0 <= j < |units| ==> DistinctIn(units[j], sol))
  }

  /** A solution of the puzzle: a valid fill in which, moreover, every digit
      occurs in every unit. */
  ghost predicate IsSolution(units: seq<Unit>, sol: string)
  {
    ValidFill(units, sol) && forall j :: 0 <= j < |units| ==> CoveredIn(units[j], sol)
  }

  /** The map `v` still allows the fill `sol`: each box's digit is among its
      candidates. */
  ghost predicate Admits(v: Values, sol: string)
  {
    |v| == |sol| && forall i :: 0 <= i < |v| ==> sol[i] in v[i]
  }

  /** Every candidate of every box is a digit, as in every map built from a
      puzzle over '.' and the digits. */
  ghost predicate AllCandidatesDigits(v: Values)
  {
    forall i, c :: 0 <= i < |v| && c in v[i] ==> IsDigit(c)
  }

  lemma DigitsShrink(v: Values, w: Values)
    requires AllCandidatesDigits(v)
    requires Shrinks(v, w)
    ensures AllCandidatesDigits(w)
  {
    ShrinksBoxes(v, w);
  }

  /** A puzzle of '.' and digits gives a map of digits. */
  lemma GridValuesDigits(grid: string)
    requires |grid| == NumBoxes
    requires forall i :: 0 <= i < NumBoxes ==> grid[i] == '.' || IsDigit(grid[i])
    ensures AllCandidatesDigits(GridValues(grid))
  {
  }

  /** A map with an empty box admits no solution. */
  lemma EmptyBoxNoSolution(v: Values, b: int, sol: string)
    requires 0 <= b < |v| == NumBoxes && v[b] == []
    ensures !Admits(v, sol)
  {
  }

  /** A fully solved map admits at most one solution: its own digits. */
  lemma SolvedMapIsItsSolution(units: seq<Unit>, v: Values, sol: string)
    requires ValidFill(units, sol) && Admits(v, sol)
    requires forall b :: 0 <= b < NumBoxes ==> |v[b]| == 1
    ensures forall b :: 0 <= b < NumBoxes ==> v[b] == [sol[b]]
  {
    forall b | 0 <= b < NumBoxes
      ensures v[b] == [sol[b]]
    {
      assert v[b] == [v[b][0]];
    }
  }

  /** Two boxes that are peers carry different digits in any solution. */
  lemma PeersDiffer(units: seq<Unit>, sol: string, s: int, p: int)
    requires ValidFill(units, sol)
    requires 0 <= s < NumBoxes && 0 <= p < NumBoxes && p in AllPeers(units, s)
    ensures sol[s] != sol[p]
  {
    var j :| 0 <= j < |units| && s in units[j] && p in units[j];
    assert DistinctIn(units[j], sol);
    var a :| 0 <= a < |units[j]| && units[j][a] == s;
    var b :| 0 <= b < |units[j]| && units[j][b] == p;
  }

  /** A box keeps its solution digit when every digit it lost was the digit
      of a solved peer. */
  lemma JustifiedRemovalKeepsBox(units: seq<Unit>, v: Values, r: Values, sol: string, i: int)
    requires |v| == NumBoxes == |r| && EliminationJustified(units, v, r)
    requires ValidFill(units, sol) && Admits(v, sol)
    requires 0 <= i < NumBoxes
    ensures sol[i] in r[i]
  {
    assert sol[i] in v[i];
    forall s | 0 <= s < NumBoxes && i in AllPeers(units, s)
      ensures v[s] != [sol[i]]
    {
      PeersDiffer(units, sol, s, i);
      assert sol[s] in v[s];
    }
  }

  /** Removals justified by solved peers keep every solution. */
  lemma JustifiedRemovalsKeep(units: seq<Unit>, v: Values, r: Values, sol: string)
    requires |v| == NumBoxes == |r| && EliminationJustified(units, v, r)
    requires ValidFill(units, sol) && Admits(v, sol)
    ensures Admits(r, sol)
  {
    forall i | 0 <= i < NumBoxes
      ensures sol[i] in r[i]
    {
      JustifiedRemovalKeepsBox(units, v, r, sol, i);
    }
  }

  lemma EliminateKeepsSolutions(units: seq<Unit>, v: Values, sol: string)
    requires WellFormed(units, v)
    requires ValidFill(units, sol) && Admits(v, sol)
    ensures Admits(Eliminate(units, v), sol)
  {
    JustifiedRemovalsKeep(units, v, Eliminate(units, v), sol);
  }

  /** A string of at most two characters holds at most two distinct ones. */
  lemma NoThreeInTwo(s: string, a: char, b: char, c: char)
    requires |s| <= 2
    requires a in s && b in s && c in s
    ensures a == b || a == c || b == c
  {
    assert forall z :: z in s ==> z == s[0] || z == s[|s| - 1];
  }

  /** A digit deleted because of naked twins is not the box's digit in any
      valid fill the map admits: the twins take the two digits of their
      string. */
  lemma TwinDigitNotSolution(units: seq<Unit>, v: Values, c: int, d: char, sol: string)
    requires TwinJustified(units, v, c, d)
    requires ValidFill(units, sol) && Admits(v, sol)
    ensures sol[c] != d
  {
    var x, y :| 0 <= x < |v| && 0 <= y < |v| && Trio(units, x, y, c) &&
      v[x] == v[y] && |v[x]| <= 2 && d in v[x];
    var j :| 0 <= j < |units| && x in units[j] && y in units[j] && c in units[j];
    if sol[c] == d {
      assert DistinctIn(units[j], sol);
      assert sol[x] in v[x] && sol[y] in v[x];
      NoThreeInTwo(v[x], sol[x], sol[y], d);
      assert false;
    }
  }

  lemma TwinStepKeepsSolutions(units: seq<Unit>, v: Values, w: Values, sol: string)
    requires TwinStep(units, v, w)
    requires ValidFill(units, sol) && Admits(v, sol)
    ensures Admits(w, sol)
  {
    var c, d :| TwinJustified(units, v, c, d) && w == v[c := Remove(v[c], d)];
    TwinDigitNotSolution(units, v, c, d, sol);
    assert sol[c] in w[c];
  }

  lemma {:induction false} ChainKeepsSolutions(units: seq<Unit>, chain: seq<Values>, k: nat, sol: string)
    requires TwinChain(units, chain)
    requires k < |chain|
    requires ValidFill(units, sol) && Admits(chain[0], sol)
    ensures Admits(chain[k], sol)
    decreases k
  {
    if k > 0 {
      ChainKeepsSolutions(units, chain, k - 1, sol);
      assert TwinStep(units, chain[k - 1], chain[k]);
      TwinStepKeepsSolutions(units, chain[k - 1], chain[k], sol);
    }
  }

  lemma NakedTwinsKeepsSolutions(units: seq<Unit>, v: Values, sol: string)
    requires WellFormed(units, v)
    requires ValidFill(units, sol) && Admits(v, sol)
    ensures Admits(NakedTwins(units, v), sol)
  {
    var w := NakedTwins(units, v);
    var chain :| |chain| > 0 && chain[0] == v && chain[|chain| - 1] == w && TwinChain(units, chain);
    ChainKeepsSolutions(units, chain, |chain| - 1, sol);
  }

  /** A digit confined to one box of a unit is that box's digit in every
      solution the map admits. */
  lemma OnlyPlaceIsSolution(units: seq<Unit>, v: Values, b: int, d: char, sol: string)
    requires IsSolution(units, sol) && Admits(v, sol)
    requires 0 <= b < NumBoxes && OnlyPlace(units, v, b, d) && IsDigit(d)
    ensures sol[b] == d
  {
    var j :| 0 <= j < |units| && b in units[j] &&
      forall p :: p in units[j] && p != b && 0 <= p < |v| ==> d !in v[p];
    var p :| 0 <= p < NumBoxes && p in units[j] && sol[p] == d;
    assert d in v[p];
  }

  lemma OnlyChoiceAtKeepsSolutions(units: seq<Unit>, v: Values, b: int, sol: string)
    requires WellFormed(units, v) && 0 <= b < NumBoxes
    requires AllCandidatesDigits(v)
    requires IsSolution(units, sol) && Admits(v, sol)
    ensures Admits(OnlyChoiceAt(units, v, b), sol)
  {
    var r := OnlyChoiceAt(units, v, b);
    if r[b] != v[b] {
      OnlyPlaceIsSolution(units, v, b, r[b][0], sol);
      assert sol[b] in r[b];
    }
  }

  lemma {:induction false} OnlyChoiceFromKeepsSolutions(units: seq<Unit>, v: Values, todo: seq<int>, sol: string)
    requires WellFormed(units, v)
    requires forall t :: t in todo ==> 0 <= t < NumBoxes
    requires AllCandidatesDigits(v)
    requires IsSolution(units, sol) && Admits(v, sol)
    ensures Admits(OnlyChoiceFrom(units, v, todo), sol)
    decreases |todo|
  {
    if todo != [] {
      assert todo[0] in todo;
      assert forall t :: t in todo[1..] ==> t in todo;
      var w := OnlyChoiceAt(units, v, todo[0]);
      OnlyChoiceAtKeepsSolutions(units, v, todo[0], sol);
      DigitsShrink(v, w);
      OnlyChoiceFromKeepsSolutions(units, w, todo[1..], sol);
    }
  }

  lemma OnlyChoiceKeepsSolutions(units: seq<Unit>, v: Values, sol: string)
    requires WellFormed(units, v)
    requires AllCandidatesDigits(v)
    requires IsSolution(units, sol) && Admits(v, sol)
    ensures Admits(OnlyChoice(units, v), sol)
  {
    OnlyChoiceFromKeepsSolutions(units, v, UnsolvedBoxes(v), sol);
  }
}
