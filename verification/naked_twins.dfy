/** The naked-twins rule. When two boxes of a unit hold the same string of at
    most two candidates, those candidates are deleted from the other boxes of
    that unit. The source checks "the same string" against the map as it is at
    that moment, so each deletion is justified in the state where it happens,
    not necessarily in the state the pass started from. The contract says
    exactly that: the result is reachable from the input by single deletions,
    each justified when it is made. */
module Twins {
  import opened Candidates
  import opened Topology
  import opened Grid
  import opened Propagation

  /** Three pairwise distinct boxes that share one unit. */
  ghost predicate Trio(units: seq<Unit>, x: int, y: int, c: int)
  {
    x != y && x != c && y != c &&
    exists j :: 0 <= j < |units| && x in units[j] && y in units[j] && c in units[j]
  }

  /** Deleting `d` from box `c` is justified in `v`: two other boxes `x`, `y`
      of a unit holding `c` hold the same string of at most two candidates,
      and that string contains `d`. */
  ghost predicate TwinJustified(units: seq<Unit>, v: Values, c: int, d: char)
  {
    0 <= c < |v| &&
    exists x, y :: 0 <= x < |v| && 0 <= y < |v| && Trio(units, x, y, c) &&
      v[x] == v[y] && |v[x]| <= 2 && d in v[x]
  }

  /** One justified deletion. */
  ghost predicate TwinStep(units: seq<Unit>, v: Values, w: Values)
  {
    exists c, d :: TwinJustified(units, v, c, d) && w == v[c := Remove(v[c], d)]
  }

  /** Each state of `chain` is reached from the one before by one justified
      deletion. */
  ghost predicate TwinChain(units: seq<Unit>, chain: seq<Values>)
  {
    forall i, j :: 0 <= i && j == i + 1 && j < |chain| ==> TwinStep(units, chain[i], chain[j])
  }

  /** `w` is reached from `v` by justified deletions, one at a time. */
  ghost predicate TwinReach(units: seq<Unit>, v: Values, w: Values)
  {
    exists chain :: |chain| > 0 && chain[0] == v && chain[|chain| - 1] == w && TwinChain(units, chain)
  }

  lemma TwinReachRefl(units: seq<Unit>, v: Values)
    ensures TwinReach(units, v, v)
  {
    var chain := [v];
    assert TwinChain(units, chain);
  }

  /** Chains that meet compose. */
  lemma ChainJoin(units: seq<Unit>, c1: seq<Values>, c2: seq<Values>)
    requires |c1| > 0 && |c2| > 0 && c1[|c1| - 1] == c2[0]
    requires TwinChain(units, c1) && TwinChain(units, c2)
    ensures TwinChain(units, c1 + c2[1..])
  {
    var c := c1 + c2[1..];
    forall i, j | 0 <= i && j == i + 1 && j < |c|
      ensures TwinStep(units, c[i], c[j])
    {
      if j < |c1| {
        assert c[i] == c1[i] && c[j] == c1[j];
      } else {
        assert c[i] == c2[i - |c1| + 1] && c[j] == c2[j - |c1| + 1];
      }
    }
  }

  lemma TwinReachTrans(units: seq<Unit>, u: Values, v: Values, w: Values)
    requires TwinReach(units, u, v)
    requires TwinReach(units, v, w)
    ensures TwinReach(units, u, w)
  {
    var c1 :| |c1| > 0 && c1[0] == u && c1[|c1| - 1] == v && TwinChain(units, c1);
    var c2 :| |c2| > 0 && c2[0] == v && c2[|c2| - 1] == w && TwinChain(units, c2);
    ChainJoin(units, c1, c2);
    var c := c1 + c2[1..];
    assert c[0] == u;
    assert c[|c| - 1] == w by {
      if |c2| == 1 {
        assert c == c1;
      } else {
        assert c[|c| - 1] == c2[|c2| - 1];
      }
    }
  }

  /** Justified deletions only ever shrink boxes. */
  lemma {:induction false} ChainShrinks(units: seq<Unit>, chain: seq<Values>, k: nat)
    requires TwinChain(units, chain)
    requires k < |chain|
    ensures Shrinks(chain[0], chain[k])
    decreases k
  {
    if k == 0 {
      ShrinksRefl(chain[0]);
    } else {
      ChainShrinks(units, chain, k - 1);
      var v := chain[k - 1];
      assert TwinStep(units, v, chain[k]);
      var c, d :| TwinJustified(units, v, c, d) && chain[k] == v[c := Remove(v[c], d)];
      assert Shrinks(v, chain[k]) by {
        ShrinksRefl(v);
      }
      ShrinksTrans(chain[0], v, chain[k]);
    }
  }

  lemma TwinReachShrinks(units: seq<Unit>, v: Values, w: Values)
    requires TwinReach(units, v, w)
    ensures Shrinks(v, w)
  {
    var chain :| |chain| > 0 && chain[0] == v && chain[|chain| - 1] == w && TwinChain(units, chain);
    ChainShrinks(units, chain, |chain| - 1);
  }

  /** Deleting a character through `assign_value` is one justified step (or
      changes nothing, when the character is absent). */
  lemma StripOne(units: seq<Unit>, v: Values, c: int, d: char)
    requires TwinJustified(units, v, c, d)
    ensures TwinReach(units, v, AssignValue(v, c, Remove(v[c], d)))
  {
    var w := v[c := Remove(v[c], d)];
    assert TwinStep(units, v, w);
    var chain := [v, w];
    assert TwinChain(units, chain);
    if v[c] == Remove(v[c], d) {
      assert w == v;
    }
  }

  /** The innermost loop: for each character of the string `s` (the value of
      box `c` when the loop began) that is one of the twins' candidates,
      delete it from the current value of `c`. Every twin candidate that box
      `c` holds also occurs in `s` (the caller passes the box's own value), so
      the box ends free of the twins' candidates. */
  function StripChars(units: seq<Unit>, v: Values, x: int, y: int, c: int, choices: string, s: string): (r: Values)
    requires 0 <= x < |v| && 0 <= y < |v| && 0 <= c < |v| && Trio(units, x, y, c)
    requires v[x] == choices && v[y] == choices && |choices| <= 2
    requires forall ch :: ch in v[c] ==> ch in s || ch !in choices
    ensures |r| == |v|
    ensures forall i :: 0 <= i < |v| && i != c ==> r[i] == v[i]
    ensures forall ch :: ch in r[c] ==> ch !in choices
    ensures TwinReach(units, v, r)
    decreases |s|
  {
    if s == [] then
      TwinReachRefl(units, v);
      v
    else if s[0] in choices then
      StripOne(units, v, c, s[0]);
      var w := AssignValue(v, c, Remove(v[c], s[0]));
      var r := StripChars(units, w, x, y, c, choices, s[1..]);
      TwinReachTrans(units, v, w, r);
      r
    else
      StripChars(units, v, x, y, c, choices, s[1..])
  }

  /** The loop over the non-twin peers of one unit: every box of `rest`
      except the twin `y` is stripped of the twins' candidates, and the
      later boxes' deletions never give them back. */
  function StripGroup(units: seq<Unit>, v: Values, x: int, y: int, choices: string, rest: seq<int>): (r: Values)
    requires 0 <= x < |v| && 0 <= y < |v|
    requires forall c :: c in rest ==> 0 <= c < |v| && (c != y ==> Trio(units, x, y, c))
    requires v[x] == choices && v[y] == choices && |choices| <= 2
    ensures |r| == |v| && r[x] == v[x] && r[y] == v[y]
    ensures forall c :: c in rest && c != y ==> forall ch :: ch in r[c] ==> ch !in choices
    ensures TwinReach(units, v, r)
    decreases |rest|
  {
    if rest == [] then
      TwinReachRefl(units, v);
      v
    else
      assert rest[0] in rest;
      assert forall c :: c in rest[1..] ==> c in rest;
      var c := rest[0];
      if c == y then StripGroup(units, v, x, y, choices, rest[1..])
      else
        var w := StripChars(units, v, x, y, c, choices, v[c]);
        var r := StripGroup(units, w, x, y, choices, rest[1..]);
        TwinReachTrans(units, v, w, r);
        TwinReachShrinks(units, w, r);
        ShrinksBoxes(w, r);
        r
  }

  /** `g` is the unit peer group of `x` coming from one unit holding `x`. */
  ghost predicate GroupOf(units: seq<Unit>, x: int, g: Unit)
  {
    exists j :: 0 <= j < |units| && x in units[j] && g == Without(units[j], x)
  }

  /** The loop over the boxes `peers` of one unit group of `x`: each box that
      currently holds the same string as `x` is a twin, and the whole group is
      stripped for it. */
  function TwinsInGroup(units: seq<Unit>, v: Values, x: int, choices: string, group: Unit, peers: seq<int>): (r: Values)
    requires WellFormed(units, v) && 0 <= x < NumBoxes
    requires GroupOf(units, x, group)
    requires forall p :: p in peers ==> p in group
    requires v[x] == choices && |choices| <= 2
    ensures |r| == |v| && r[x] == v[x]
    ensures TwinReach(units, v, r)
    decreases |peers|
  {
    if peers == [] then
      TwinReachRefl(units, v);
      v
    else
      assert peers[0] in peers;
      assert forall p :: p in peers[1..] ==> p in peers;
      var y := peers[0];
      var j :| 0 <= j < |units| && x in units[j] && group == Without(units[j], x);
      assert forall c :: c in group ==> 0 <= c < NumBoxes && c in units[j] && c != x;
      if v[y] != choices then TwinsInGroup(units, v, x, choices, group, peers[1..])
      else
        var w := StripGroup(units, v, x, y, choices, group);
        var r := TwinsInGroup(units, w, x, choices, group, peers[1..]);
        TwinReachTrans(units, v, w, r);
        r
  }

  /** When `peers[i]` is the first of the peers holding the same string as
      `x`, the group ends with every box but that twin free of the twins'
      candidates. */
  lemma {:induction false} TwinsInGroupClears(units: seq<Unit>, v: Values, x: int, choices: string, group: Unit, peers: seq<int>, i: int)
    requires WellFormed(units, v) && 0 <= x < NumBoxes
    requires GroupOf(units, x, group)
    requires forall p :: p in peers ==> p in group
    requires forall k :: 0 <= k < |peers| ==> 0 <= peers[k] < NumBoxes
    requires v[x] == choices && |choices| <= 2
    requires 0 <= i < |peers| && v[peers[i]] == choices
    requires forall i' :: 0 <= i' < i ==> v[peers[i']] != choices
    ensures forall c :: c in group && c != peers[i] ==>
      forall ch :: ch in TwinsInGroup(units, v, x, choices, group, peers)[c] ==> ch !in choices
    decreases i
  {
    assert peers[0] in peers;
    assert forall p :: p in peers[1..] ==> p in peers;
    if i == 0 {
      FirstTwinClears(units, v, x, choices, group, peers);
    } else {
      var tail := peers[1..];
      assert forall k :: 0 <= k < |tail| ==> tail[k] == peers[k + 1];
      assert v[peers[0]] != choices;
      assert TwinsInGroup(units, v, x, choices, group, peers) == TwinsInGroup(units, v, x, choices, group, tail);
      TwinsInGroupClears(units, v, x, choices, group, tail, i - 1);
    }
  }

  /** The base case: the first peer is a twin. */
  lemma FirstTwinClears(units: seq<Unit>, v: Values, x: int, choices: string, group: Unit, peers: seq<int>)
    requires WellFormed(units, v) && 0 <= x < NumBoxes
    requires GroupOf(units, x, group)
    requires forall p :: p in peers ==> p in group
    requires peers != [] && 0 <= peers[0] < NumBoxes && v[peers[0]] == choices
    requires v[x] == choices && |choices| <= 2
    ensures forall c :: c in group && c != peers[0] ==>
      forall ch :: ch in TwinsInGroup(units, v, x, choices, group, peers)[c] ==> ch !in choices
  {
    assert peers[0] in peers;
    assert forall p :: p in peers[1..] ==> p in peers;
    var y := peers[0];
    var j :| 0 <= j < |units| && x in units[j] && group == Without(units[j], x);
    assert forall c :: c in group ==> 0 <= c < NumBoxes && c in units[j] && c != x;
    var w := StripGroup(units, v, x, y, choices, group);
    var r := TwinsInGroup(units, w, x, choices, group, peers[1..]);
    assert r == TwinsInGroup(units, v, x, choices, group, peers);
    TwinReachShrinks(units, w, r);
    ShrinksBoxes(w, r);
  }

  /** A group with no box holding the same string as `x` is left alone. */
  lemma {:induction false} TwinsInGroupKeeps(units: seq<Unit>, v: Values, x: int, choices: string, group: Unit, peers: seq<int>)
    requires WellFormed(units, v) && 0 <= x < NumBoxes
    requires GroupOf(units, x, group)
    requires forall p :: p in peers ==> p in group
    requires v[x] == choices && |choices| <= 2
    requires forall p :: p in peers ==> v[p] != choices
    ensures TwinsInGroup(units, v, x, choices, group, peers) == v
    decreases |peers|
  {
    if peers != [] {
      assert peers[0] in peers;
      assert forall p :: p in peers[1..] ==> p in peers;
      TwinsInGroupKeeps(units, v, x, choices, group, peers[1..]);
    }
  }

  /** The loop over the unit groups of `x`. */
  function TwinsInGroups(units: seq<Unit>, v: Values, x: int, choices: string, groups: seq<Unit>): (r: Values)
    requires WellFormed(units, v) && 0 <= x < NumBoxes
    requires forall g :: g in groups ==> GroupOf(units, x, g)
    requires v[x] == choices && |choices| <= 2
    ensures |r| == |v| && r[x] == v[x]
    ensures TwinReach(units, v, r)
    decreases |groups|
  {
    if groups == [] then
      TwinReachRefl(units, v);
      v
    else
      assert groups[0] in groups;
      assert forall g :: g in groups[1..] ==> g in groups;
      var w := TwinsInGroup(units, v, x, choices, groups[0], groups[0]);
      var r := TwinsInGroups(units, w, x, choices, groups[1..]);
      TwinReachTrans(units, v, w, r);
      r
  }

  /** One turn of the outer loop, for box `x`: skipped when `x` currently
      holds more than two candidates. */
  function TwinsAt(units: seq<Unit>, v: Values, x: int): (r: Values)
    requires WellFormed(units, v) && 0 <= x < NumBoxes
    ensures |r| == |v| && r[x] == v[x]
    ensures TwinReach(units, v, r)
  {
    var choices := v[x];
    if |choices| > 2 then
      TwinReachRefl(units, v);
      v
    else
      var groups := UnitPeers(units, x);
      TwinsInGroups(units, v, x, choices, groups)
  }

  /** The outer loop over the list `todo` of boxes unsolved on entry. */
  function TwinsFrom(units: seq<Unit>, v: Values, todo: seq<int>): (r: Values)
    requires WellFormed(units, v)
    requires forall b :: b in todo ==> 0 <= b < NumBoxes
    ensures |r| == |v|
    ensures TwinReach(units, v, r)
    decreases |todo|
  {
    if todo == [] then
      TwinReachRefl(units, v);
      v
    else
      assert todo[0] in todo;
      assert forall t :: t in todo[1..] ==> t in todo;
      var w := TwinsAt(units, v, todo[0]);
      var r := TwinsFrom(units, w, todo[1..]);
      TwinReachTrans(units, v, w, r);
      r
  }

  /** `naked_twins`: the result is reached by justified deletions, and in
      particular every box only lost candidates. */
  function NakedTwins(units: seq<Unit>, v: Values): (r: Values)
    requires WellFormed(units, v)
    ensures TwinReach(units, v, r)
    ensures Shrinks(v, r)
  {
    var r := TwinsFrom(units, v, UnsolvedBoxes(v));
    TwinReachShrinks(units, v, r);
    r
  }
}
