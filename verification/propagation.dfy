/** The in-place update of one box and two of the three propagation rules:
    elimination and only-choice. Each rule walks a list of boxes taken once on
    entry and reads the current map at every step, exactly as the source's
    loops do; here every loop is a fold over that list. */
module Propagation {
  import opened Candidates
  import opened Topology
  import opened Grid

  /** A unit list naming real boxes, and a map with all 81 boxes. */
  predicate WellFormed(units: seq<Unit>, v: Values)
  {
    ValidUnits(units) && |v| == NumBoxes
  }

  /** `assign_value` without its log: box `b` now holds `x` and nothing else
      changes; assigning the value a box already holds changes nothing. */
  function AssignValue(v: Values, b: int, x: string): (r: Values)
    requires 0 <= b < |v|
    ensures |r| == |v| && r[b] == x
    ensures forall i :: 0 <= i < |v| && i != b ==> r[i] == v[i]
    ensures v[b] == x ==> r == v
  {
    if v[b] == x then v else v[b := x]
  }

  // ---------------------------------------------------------------------------
  // eliminate

  /** The inner loop of `eliminate` for box `s`: its current value is deleted
      from every peer. The source iterates over a Python set, whose order is
      unspecified; the order is irrelevant because `s` is not its own peer, so
      the deleted value stays the same throughout, and each peer is visited
      once. */
  function EliminateAt(units: seq<Unit>, v: Values, s: int): (r: Values)
    requires WellFormed(units, v)
    requires 0 <= s < NumBoxes && |v[s]| <= 1
    ensures Shrinks(v, r)
    ensures forall p :: 0 <= p < NumBoxes ==> r[p] == if p in AllPeers(units, s) then Replace(v[p], v[s]) else v[p]
  {
    ShrinksRefl(v);
    seq(NumBoxes, p requires 0 <= p < NumBoxes => if p in AllPeers(units, s) then Replace(v[p], v[s]) else v[p])
  }

  /** The outer loop of `eliminate` over the list `todo` of boxes that were
      solved on entry. Such a box can only have shrunk since, so it holds at
      most one character whenever its turn comes. */
  function EliminateFrom(units: seq<Unit>, v: Values, todo: seq<int>): (r: Values)
    requires WellFormed(units, v)
    requires forall s :: s in todo ==> 0 <= s < NumBoxes && |v[s]| <= 1
    ensures Shrinks(v, r)
    decreases |todo|
  {
    if todo == [] then
      ShrinksRefl(v);
      v
    else
      assert todo[0] in todo;
      assert forall t :: t in todo[1..] ==> t in todo;
      var w := EliminateAt(units, v, todo[0]);
      ShrinksBoxes(v, w);
      var r := EliminateFrom(units, w, todo[1..]);
      ShrinksTrans(v, w, r);
      r
  }

  /** A box of `todo` that ends with one digit has cleared that digit from
      all its peers. */
  lemma {:induction false} EliminateFromClears(units: seq<Unit>, v: Values, todo: seq<int>, s: int, p: int)
    requires WellFormed(units, v)
    requires forall t :: t in todo ==> 0 <= t < NumBoxes && |v[t]| <= 1
    requires s in todo
    requires 0 <= p < NumBoxes && p in AllPeers(units, s)
    requires |EliminateFrom(units, v, todo)[s]| == 1
    ensures EliminateFrom(units, v, todo)[s][0] !in EliminateFrom(units, v, todo)[p]
    decreases |todo|
  {
    assert todo[0] in todo;
    assert forall t :: t in todo[1..] ==> t in todo;
    var w := EliminateAt(units, v, todo[0]);
    ShrinksBoxes(v, w);
    var r := EliminateFrom(units, w, todo[1..]);
    assert r == EliminateFrom(units, v, todo);
    if s in todo[1..] {
      EliminateFromClears(units, w, todo[1..], s, p);
    } else {
      assert s == todo[0];
      SubOfShort(r[s], w[s]);
      assert r[s] == w[s] == v[s];
      var d := v[s][0];
      assert d !in w[p];
      if d in r[p] {
        SubMem(r[p], w[p], d);
      }
    }
  }

  /** A digit that one step deletes from box `p` was the whole value of the
      step's box `s`, a peer of `p`. */
  lemma EliminateAtJustified(units: seq<Unit>, v: Values, s: int, p: int, d: char)
    requires WellFormed(units, v)
    requires 0 <= s < NumBoxes && |v[s]| <= 1
    requires 0 <= p < NumBoxes && d in v[p] && d !in EliminateAt(units, v, s)[p]
    ensures p in AllPeers(units, s) && v[s] == [d]
  {
    var r := EliminateAt(units, v, s);
    assert r[p] != v[p];
    assert d in v[s];
    assert |v[s]| == 1 && v[s][0] == d;
  }

  /** Every digit the pass deletes from a box is the digit of a peer that
      held exactly that digit when the pass started. */
  lemma {:induction false} EliminateFromJustified(units: seq<Unit>, v: Values, todo: seq<int>, p: int, d: char)
    requires WellFormed(units, v)
    requires forall t :: t in todo ==> 0 <= t < NumBoxes && |v[t]| <= 1
    requires 0 <= p < NumBoxes && d in v[p] && d !in EliminateFrom(units, v, todo)[p]
    ensures exists s :: s in todo && p in AllPeers(units, s) && v[s] == [d]
    decreases |todo|
  {
    assert todo[0] in todo;
    assert forall t :: t in todo[1..] ==> t in todo;
    var w := EliminateAt(units, v, todo[0]);
    ShrinksBoxes(v, w);
    var r := EliminateFrom(units, w, todo[1..]);
    assert r == EliminateFrom(units, v, todo);
    if d !in w[p] {
      EliminateAtJustified(units, v, todo[0], p, d);
    } else {
      EliminateFromJustified(units, w, todo[1..], p, d);
      var s :| s in todo[1..] && p in AllPeers(units, s) && w[s] == [d];
      SubOfShort(w[s], v[s]);
      assert s in todo && v[s] == [d];
    }
  }

  /** Every digit that `w` lacks but `v` had in some box is the digit of a
      peer of that box that held exactly that digit in `v`. */
  ghost predicate EliminationJustified(units: seq<Unit>, v: Values, w: Values)
    requires |v| == |w| == NumBoxes
  {
    forall p, d ::
      0 <= p < NumBoxes && d in v[p] && d !in w[p] ==> DeletionJustified(units, v, p, d)
  }

  /** Deleting `d` from box `p` is justified in `v`: a peer of `p` holds
      exactly `d`. */
  ghost predicate DeletionJustified(units: seq<Unit>, v: Values, p: int, d: char)
    requires |v| == NumBoxes
  {
    exists s :: 0 <= s < NumBoxes && p in AllPeers(units, s) && v[s] == [d]
  }

  /** The pass over the boxes solved on entry clears every solved box's digit
      from its peers, for each solved box the pass did not empty. */
  lemma SolvedPassClears(units: seq<Unit>, v: Values)
    requires WellFormed(units, v)
    ensures forall s, p ::
              0 <= s < NumBoxes && |v[s]| == 1 && EliminateFrom(units, v, SolvedBoxes(v))[s] == v[s] &&
              0 <= p < NumBoxes && p in AllPeers(units, s)
              ==> v[s][0] !in EliminateFrom(units, v, SolvedBoxes(v))[p]
  {
    var todo := SolvedBoxes(v);
    var r := EliminateFrom(units, v, todo);
    forall s, p | 0 <= s < NumBoxes && |v[s]| == 1 && r[s] == v[s] && 0 <= p < NumBoxes && p in AllPeers(units, s)
      ensures v[s][0] !in r[p]
    {
      EliminateFromClears(units, v, todo, s, p);
    }
  }

  /** Every deletion of the pass over the boxes solved on entry is justified
      by a solved peer. */
  lemma SolvedPassJustified(units: seq<Unit>, v: Values)
    requires WellFormed(units, v)
    ensures EliminationJustified(units, v, EliminateFrom(units, v, SolvedBoxes(v)))
  {
    var r := EliminateFrom(units, v, SolvedBoxes(v));
    forall p, d | 0 <= p < NumBoxes && d in v[p] && d !in r[p]
      ensures DeletionJustified(units, v, p, d)
    {
      SolvedPassJustifiedAt(units, v, p, d);
    }
  }

  /** One deletion of the pass over the boxes solved on entry, and the
      solved peer that justifies it. */
  lemma SolvedPassJustifiedAt(units: seq<Unit>, v: Values, p: int, d: char)
    requires WellFormed(units, v)
    requires 0 <= p < NumBoxes && d in v[p] && d !in EliminateFrom(units, v, SolvedBoxes(v))[p]
    ensures DeletionJustified(units, v, p, d)
  {
    var todo := SolvedBoxes(v);
    EliminateFromJustified(units, v, todo, p, d);
    var s :| s in todo && p in AllPeers(units, s) && v[s] == [d];
    assert 0 <= s < NumBoxes;
  }

  /** `eliminate`: for every box solved on entry, delete its digit from all its
      peers. */
  function Eliminate(units: seq<Unit>, v: Values): (r: Values)
    requires WellFormed(units, v)
    ensures Shrinks(v, r)
    ensures forall s, p ::
              0 <= s < NumBoxes && |v[s]| == 1 && r[s] == v[s] && 0 <= p < NumBoxes && p in AllPeers(units, s)
              ==> v[s][0] !in r[p]
    ensures EliminationJustified(units, v, r)
  {
    SolvedPassClears(units, v);
    SolvedPassJustified(units, v);
    EliminateFrom(units, v, SolvedBoxes(v))
  }

  /** Two peers solved to the same digit on entry cannot both keep it: one of
      them is emptied. A box solved on entry can therefore end up empty. */
  lemma EliminateEmptiesClash(units: seq<Unit>, v: Values, a: int, b: int)
    requires WellFormed(units, v)
    requires 0 <= a < NumBoxes && 0 <= b < NumBoxes && b in AllPeers(units, a)
    requires |v[a]| == 1 && v[b] == v[a]
    ensures Eliminate(units, v)[a] == [] || Eliminate(units, v)[b] == []
  {
    var r := Eliminate(units, v);
    SubOfShort(r[a], v[a]);
    SubOfShort(r[b], v[b]);
    PeersSymmetric(units, a, b);
  }

  // ---------------------------------------------------------------------------
  // only_choice

  /** `''.join([values[peer] for peer in unit])`. */
  function Joined(v: Values, group: seq<int>): (r: string)
    requires forall p :: p in group ==> 0 <= p < |v|
    ensures forall d :: d in r <==> exists p :: p in group && d in v[p]
    decreases |group|
  {
    if group == [] then []
    else
      assert group[0] in group;
      assert forall p :: p in group[1..] ==> p in group;
      var rest := Joined(v, group[1..]);
      assert forall p :: p in group ==> p == group[0] || p in group[1..];
      v[group[0]] + rest
  }

  /** Position of the first character of `choices` that does not occur in
      `others`, or `|choices|` when there is none. */
  function FirstAbsent(choices: string, others: string): (k: nat)
    ensures k <= |choices|
    ensures forall i :: 0 <= i < k ==> choices[i] in others
    ensures k < |choices| ==> choices[k] !in others
    decreases |choices|
  {
    if choices == [] then 0
    else if choices[0] !in others then 0
    else 1 + FirstAbsent(choices[1..], others)
  }

  /** Digit `d` appears in no other box of some unit holding `b`. */
  ghost predicate OnlyPlace(units: seq<Unit>, v: Values, b: int, d: char)
  {
    exists j :: 0 <= j < |units| && b in units[j] &&
      forall p :: p in units[j] && p != b && 0 <= p < |v| ==> d !in v[p]
  }

  /** Shrinking the map keeps a digit confined to its only place. */
  lemma OnlyPlaceShrinks(units: seq<Unit>, v: Values, w: Values, b: int, d: char)
    requires OnlyPlace(units, v, b, d)
    requires Shrinks(v, w)
    ensures OnlyPlace(units, w, b, d)
  {
    ShrinksBoxes(v, w);
    var j :| 0 <= j < |units| && b in units[j] &&
      forall p :: p in units[j] && p != b && 0 <= p < |v| ==> d !in v[p];
    assert forall p :: p in units[j] && p != b && 0 <= p < |w| ==> d !in w[p];
  }

  /** No box of group `g` holds candidate `d`. */
  ghost predicate Lacks(v: Values, g: Unit, d: char)
  {
    forall p :: p in g && 0 <= p < |v| ==> d !in v[p]
  }

  /** The unit loop of `only_choice` for box `b`: in the first unit group
      where some candidate of `b` occurs in no other box, `b` becomes the
      first such candidate, and the loop stops. */
  function OnlyChoiceIn(v: Values, b: int, choices: string, groups: seq<Unit>): (r: Values)
    requires |v| == NumBoxes && 0 <= b < NumBoxes
    requires forall g, p :: g in groups && p in g ==> 0 <= p < NumBoxes
    ensures |r| == NumBoxes
    ensures forall i :: 0 <= i < NumBoxes && i != b ==> r[i] == v[i]
    ensures r[b] == v[b] || (|r[b]| == 1 && r[b][0] in choices &&
      exists g :: g in groups && forall p :: p in g ==> r[b][0] !in v[p])
    decreases |groups|
  {
    if groups == [] then v
    else
      assert groups[0] in groups;
      var k := FirstAbsent(choices, Joined(v, groups[0]));
      if k < |choices| then
        var r := AssignValue(v, b, [choices[k]]);
        assert forall p :: p in groups[0] ==> r[b][0] !in v[p];
        r
      else
        assert forall g :: g in groups[1..] ==> g in groups;
        OnlyChoiceIn(v, b, choices, groups[1..])
  }

  /** When group `i` is the first group lacking some candidate, and `k` the
      position of the first candidate it lacks, the unit loop fixes `b` to
      that candidate and changes nothing else. */
  lemma {:induction false} OnlyChoiceInPicks(v: Values, b: int, choices: string, groups: seq<Unit>, i: int, k: int)
    requires |v| == NumBoxes && 0 <= b < NumBoxes
    requires forall g, p :: g in groups && p in g ==> 0 <= p < NumBoxes
    requires 0 <= i < |groups| && 0 <= k < |choices|
    requires forall i', d :: 0 <= i' < i && d in choices ==> !Lacks(v, groups[i'], d)
    requires Lacks(v, groups[i], choices[k])
    requires forall k' :: 0 <= k' < k ==> !Lacks(v, groups[i], choices[k'])
    ensures OnlyChoiceIn(v, b, choices, groups) == v[b := [choices[k]]]
    decreases i
  {
    assert groups[0] in groups;
    var others := Joined(v, groups[0]);
    var f := FirstAbsent(choices, others);
    if i == 0 {
      assert choices[k] !in others;
      assert forall k' :: 0 <= k' < k ==> choices[k'] in others;
      assert f == k;
    } else {
      assert forall k' :: 0 <= k' < |choices| ==> choices[k'] in others by {
        forall k' | 0 <= k' < |choices|
          ensures choices[k'] in others
        {
          assert choices[k'] in choices;
          assert !Lacks(v, groups[0], choices[k']);
        }
      }
      assert f == |choices|;
      assert forall g :: g in groups[1..] ==> g in groups;
      OnlyChoiceInPicks(v, b, choices, groups[1..], i - 1, k);
    }
  }

  /** When no group lacks any of the candidates, the unit loop changes
      nothing. */
  lemma {:induction false} OnlyChoiceInKeeps(v: Values, b: int, choices: string, groups: seq<Unit>)
    requires |v| == NumBoxes && 0 <= b < NumBoxes
    requires forall g, p :: g in groups && p in g ==> 0 <= p < NumBoxes
    requires forall i, d :: 0 <= i < |groups| && d in choices ==> !Lacks(v, groups[i], d)
    ensures OnlyChoiceIn(v, b, choices, groups) == v
    decreases |groups|
  {
    if groups != [] {
      assert groups[0] in groups;
      var others := Joined(v, groups[0]);
      assert forall k' :: 0 <= k' < |choices| ==> choices[k'] in others by {
        forall k' | 0 <= k' < |choices|
          ensures choices[k'] in others
        {
          assert choices[k'] in choices;
          assert !Lacks(v, groups[0], choices[k']);
        }
      }
      assert FirstAbsent(choices, others) == |choices|;
      assert forall g :: g in groups[1..] ==> g in groups;
      OnlyChoiceInKeeps(v, b, choices, groups[1..]);
    }
  }

  /** When some group lacks some candidate, the unit loop fixes `b` to a
      single candidate. */
  lemma {:induction false} OnlyChoiceInFixes(v: Values, b: int, choices: string, groups: seq<Unit>, g: Unit, d: char)
    requires |v| == NumBoxes && 0 <= b < NumBoxes
    requires forall g, p :: g in groups && p in g ==> 0 <= p < NumBoxes
    requires g in groups && d in choices && Lacks(v, g, d)
    ensures |OnlyChoiceIn(v, b, choices, groups)[b]| == 1
    ensures OnlyChoiceIn(v, b, choices, groups)[b][0] in choices
    decreases |groups|
  {
    assert groups[0] in groups;
    var others := Joined(v, groups[0]);
    if FirstAbsent(choices, others) == |choices| {
      assert d in others;
      assert !Lacks(v, groups[0], d);
      assert g in groups[1..];
      assert forall g :: g in groups[1..] ==> g in groups;
      OnlyChoiceInFixes(v, b, choices, groups[1..], g, d);
    }
  }

  /** A candidate absent from one of `b`'s peer groups is confined to `b`
      within the unit that group came from. */
  lemma GroupConfines(units: seq<Unit>, v: Values, b: int, d: char)
    requires WellFormed(units, v) && 0 <= b < NumBoxes
    requires exists g :: g in UnitPeers(units, b) && forall p :: p in g ==> d !in v[p]
    ensures OnlyPlace(units, v, b, d)
  {
    var g :| g in UnitPeers(units, b) && forall p :: p in g ==> d !in v[p];
    var j :| 0 <= j < |units| && b in units[j] && g == Without(units[j], b);
    assert forall p :: p in units[j] && p != b && 0 <= p < |v| ==> d !in v[p];
  }

  /** One turn of the outer loop of `only_choice`, for box `b`. */
  function OnlyChoiceAt(units: seq<Unit>, v: Values, b: int): (r: Values)
    requires WellFormed(units, v) && 0 <= b < NumBoxes
    ensures Shrinks(v, r)
    ensures forall i :: 0 <= i < NumBoxes && i != b ==> r[i] == v[i]
    ensures r[b] == v[b] || (|r[b]| == 1 && r[b][0] in v[b] && OnlyPlace(units, v, b, r[b][0]))
  {
    var r := OnlyChoiceIn(v, b, v[b], UnitPeers(units, b));
    if r[b] != v[b] then
      GroupConfines(units, v, b, r[b][0]);
      SubSingle(v[b], r[b][0]);
      assert r[b] == [r[b][0]];
      ShrinksAt(v, b, r);
      r
    else
      SubRefl(v[b]);
      ShrinksAt(v, b, r);
      r
  }

  /** Box `b`'s turn picks the first candidate lacking from the first of
      its peer groups, taken in unit order, that lacks any. */
  lemma OnlyChoiceAtPicks(units: seq<Unit>, v: Values, b: int, i: int, k: int)
    requires WellFormed(units, v) && 0 <= b < NumBoxes
    requires 0 <= i < |UnitPeers(units, b)| && 0 <= k < |v[b]|
    requires forall i', d :: 0 <= i' < i && d in v[b] ==> !Lacks(v, UnitPeers(units, b)[i'], d)
    requires Lacks(v, UnitPeers(units, b)[i], v[b][k])
    requires forall k' :: 0 <= k' < k ==> !Lacks(v, UnitPeers(units, b)[i], v[b][k'])
    ensures OnlyChoiceAt(units, v, b) == v[b := [v[b][k]]]
  {
    OnlyChoiceInPicks(v, b, v[b], UnitPeers(units, b), i, k);
  }

  /** Box `b`'s turn changes nothing when each of its peer groups holds all
      of its candidates. */
  lemma OnlyChoiceAtKeeps(units: seq<Unit>, v: Values, b: int)
    requires WellFormed(units, v) && 0 <= b < NumBoxes
    requires forall i, d :: 0 <= i < |UnitPeers(units, b)| && d in v[b] ==> !Lacks(v, UnitPeers(units, b)[i], d)
    ensures OnlyChoiceAt(units, v, b) == v
  {
    OnlyChoiceInKeeps(v, b, v[b], UnitPeers(units, b));
  }

  /** A candidate of `b` that one of its peer groups lacks forces `b` to a
      single candidate on its turn. */
  lemma OnlyChoiceAtFixes(units: seq<Unit>, v: Values, b: int, g: Unit, d: char)
    requires WellFormed(units, v) && 0 <= b < NumBoxes
    requires g in UnitPeers(units, b) && d in v[b] && Lacks(v, g, d)
    ensures |OnlyChoiceAt(units, v, b)[b]| == 1
  {
    OnlyChoiceInFixes(v, b, v[b], UnitPeers(units, b), g, d);
  }

  /** The outer loop of `only_choice` over the list `todo`. */
  function OnlyChoiceFrom(units: seq<Unit>, v: Values, todo: seq<int>): (r: Values)
    requires WellFormed(units, v)
    requires forall b :: b in todo ==> 0 <= b < NumBoxes
    ensures Shrinks(v, r)
    decreases |todo|
  {
    if todo == [] then
      ShrinksRefl(v);
      v
    else
      assert todo[0] in todo;
      assert forall t :: t in todo[1..] ==> t in todo;
      var w := OnlyChoiceAt(units, v, todo[0]);
      var r := OnlyChoiceFrom(units, w, todo[1..]);
      ShrinksTrans(v, w, r);
      r
  }

  /** Only boxes of `todo` change; each changed box ends with a single
      candidate it held before, which no other box of one of its units still
      holds at the end. */
  lemma {:induction false} OnlyChoiceFromChanges(units: seq<Unit>, v: Values, todo: seq<int>, b: int)
    requires WellFormed(units, v)
    requires forall t :: t in todo ==> 0 <= t < NumBoxes
    requires 0 <= b < NumBoxes
    requires OnlyChoiceFrom(units, v, todo)[b] != v[b]
    ensures b in todo
    ensures |OnlyChoiceFrom(units, v, todo)[b]| == 1
    ensures OnlyChoiceFrom(units, v, todo)[b][0] in v[b]
    ensures OnlyPlace(units, OnlyChoiceFrom(units, v, todo), b, OnlyChoiceFrom(units, v, todo)[b][0])
    decreases |todo|
  {
    assert todo[0] in todo;
    assert forall t :: t in todo[1..] ==> t in todo;
    var w := OnlyChoiceAt(units, v, todo[0]);
    var r := OnlyChoiceFrom(units, w, todo[1..]);
    assert r == OnlyChoiceFrom(units, v, todo);
    if w[b] != v[b] {
      if r[b] != w[b] {
        OnlyChoiceFromChanges(units, w, todo[1..], b);
        SubOfShort(r[b], w[b]);
        assert false;
      }
      OnlyPlaceShrinks(units, v, r, b, w[b][0]) by {
        ShrinksTrans(v, w, r);
        ShrinksBoxes(w, r);
        ShrinksBoxes(v, w);
      }
    } else {
      OnlyChoiceFromChanges(units, w, todo[1..], b);
    }
  }

  /** `only_choice`: for every box unsolved on entry, in order, fix it to the
      first candidate that no other box of one of its units holds. */
  function OnlyChoice(units: seq<Unit>, v: Values): (r: Values)
    requires WellFormed(units, v)
    ensures Shrinks(v, r)
    ensures forall b :: 0 <= b < NumBoxes && r[b] != v[b] ==>
      |v[b]| > 1 && |r[b]| == 1 && r[b][0] in v[b] && OnlyPlace(units, r, b, r[b][0])
  {
    var todo := UnsolvedBoxes(v);
    var r := OnlyChoiceFrom(units, v, todo);
    forall b | 0 <= b < NumBoxes && r[b] != v[b]
      ensures |v[b]| > 1 && |r[b]| == 1 && r[b][0] in v[b] && OnlyPlace(units, r, b, r[b][0])
    {
      OnlyChoiceFromChanges(units, v, todo, b);
    }
    r
  }

  /** A box of the increasing list `todo` with a candidate that one of its
      peer groups lacks on entry ends with a single candidate: earlier turns
      only delete, so the group still lacks it on the box's turn, and later
      turns leave the box alone. */
  lemma {:induction false} OnlyChoiceFromFixes(units: seq<Unit>, v: Values, todo: seq<int>, b: int, g: Unit, d: char)
    requires WellFormed(units, v)
    requires forall t :: t in todo ==> 0 <= t < NumBoxes
    requires forall i, j :: 0 <= i < j < |todo| ==> todo[i] < todo[j]
    requires b in todo
    requires g in UnitPeers(units, b) && d in v[b] && Lacks(v, g, d)
    ensures |OnlyChoiceFrom(units, v, todo)[b]| == 1
    decreases |todo|
  {
    assert todo[0] in todo;
    assert forall t :: t in todo[1..] ==> t in todo;
    var w := OnlyChoiceAt(units, v, todo[0]);
    var r := OnlyChoiceFrom(units, w, todo[1..]);
    assert r == OnlyChoiceFrom(units, v, todo);
    if todo[0] == b {
      OnlyChoiceAtFixes(units, v, b, g, d);
      assert b !in todo[1..];
      if r[b] != w[b] {
        OnlyChoiceFromChanges(units, w, todo[1..], b);
      }
    } else {
      assert b in todo[1..];
      assert w[b] == v[b];
      ShrinksBoxes(v, w);
      assert Lacks(w, g, d);
      OnlyChoiceFromFixes(units, w, todo[1..], b, g, d);
    }
  }

  /** What `only_choice` promises: every box unsolved on entry with a
      candidate that one of its peer groups lacks ends with a single
      candidate. */
  lemma OnlyChoiceFixes(units: seq<Unit>, v: Values, b: int, g: Unit, d: char)
    requires WellFormed(units, v) && 0 <= b < NumBoxes && |v[b]| > 1
    requires g in UnitPeers(units, b) && d in v[b] && Lacks(v, g, d)
    ensures |OnlyChoice(units, v)[b]| == 1
  {
    OnlyChoiceFromFixes(units, v, UnsolvedBoxes(v), b, g, d);
  }
}
