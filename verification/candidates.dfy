/** Candidate strings: the digits still possible for one box, kept as a
    string of digit characters, and the ways the solver shrinks them. */
module Candidates {

  /** `a` is `b` with zero or more characters deleted (a subsequence of `b`).
      This is the only way any propagation rule ever changes a box. */
  predicate Sub(a: string, b: string)
    decreases |b|
  {
    if b == [] then a == []
    else (a != [] && a[0] == b[0] && Sub(a[1..], b[1..])) || Sub(a, b[1..])
  }

  lemma {:induction false} SubRefl(a: string)
    ensures Sub(a, a)
    decreases |a|
  {
    if a != [] {
      SubRefl(a[1..]);
    }
  }

  lemma {:induction false} SubEmpty(b: string)
    ensures Sub([], b)
    decreases |b|
  {
    if b != [] {
      SubEmpty(b[1..]);
    }
  }

  /** Deleting characters never lengthens a string, and deleting none is the
      only way to keep its length. */
  lemma {:induction false} SubLength(a: string, b: string)
    requires Sub(a, b)
    ensures |a| <= |b|
    ensures |a| == |b| ==> a == b
    decreases |b|
  {
    if b == [] {
    } else if a != [] && a[0] == b[0] && Sub(a[1..], b[1..]) {
      SubLength(a[1..], b[1..]);
      if |a| == |b| {
        assert a == [a[0]] + a[1..];
        assert b == [b[0]] + b[1..];
      }
    } else {
      SubLength(a, b[1..]);
    }
  }

  /** Deleting characters never adds a candidate. */
  lemma {:induction false} SubMem(a: string, b: string, x: char)
    requires Sub(a, b)
    requires x in a
    ensures x in b
    decreases |b|
  {
    if b == [] {
    } else if a != [] && a[0] == b[0] && Sub(a[1..], b[1..]) {
      if x != a[0] {
        assert x in a[1..];
        SubMem(a[1..], b[1..], x);
      }
    } else {
      SubMem(a, b[1..], x);
    }
  }

  lemma {:induction false} SubTrans(a: string, b: string, c: string)
    requires Sub(a, b)
    requires Sub(b, c)
    ensures Sub(a, c)
    decreases |c|
  {
    if c == [] {
    } else if Sub(b, c[1..]) {
      SubTrans(a, b, c[1..]);
    } else if a != [] && a[0] == b[0] && Sub(a[1..], b[1..]) {
      SubTrans(a[1..], b[1..], c[1..]);
    } else {
      SubTrans(a, b[1..], c[1..]);
    }
  }

  /** A string of at most one character has only itself and the empty string
      as subsequences. */
  lemma SubOfShort(a: string, b: string)
    requires Sub(a, b)
    requires |b| <= 1
    ensures a == [] || a == b
  {
    SubLength(a, b);
  }

  /** One candidate alone is a subsequence of the candidates. */
  lemma {:induction false} SubSingle(s: string, c: char)
    requires c in s
    ensures Sub([c], s)
    decreases |s|
  {
    if s[0] == c {
      SubEmpty(s[1..]);
      assert [c][1..] == [];
    } else {
      SubSingle(s[1..], c);
    }
  }

  /** All occurrences of `d` deleted from `s` (Python `s.replace(d, '')`). */
  function Remove(s: string, d: char): (r: string)
    ensures Sub(r, s)
    ensures forall x :: x in r <==> x in s && x != d
    ensures multiset(r) == multiset(s)[d := 0]
    ensures d !in s ==> r == s
    decreases |s|
  {
    if s == [] then []
    else if s[0] == d then
      assert s == [s[0]] + s[1..];
      Remove(s[1..], d)
    else
      assert s == [s[0]] + s[1..];
      var rest := Remove(s[1..], d);
      assert ([s[0]] + rest)[1..] == rest;
      [s[0]] + rest
  }

  /** Python `s.replace(x, '')` for a pattern `x` of at most one character.
      With the empty pattern Python returns `s` itself: this is what happens to
      the peers of a box that was solved when a pass started but has been
      emptied since. */
  function Replace(s: string, x: string): (r: string)
    requires |x| <= 1
    ensures Sub(r, s)
    ensures forall c :: c in r <==> c in s && c !in x
    ensures x != [] ==> multiset(r) == multiset(s)[x[0] := 0]
    ensures x == [] ==> r == s
  {
    if x == [] then (SubRefl(s); s) else Remove(s, x[0])
  }

  /** Every box of `w` is the same box of `v` with characters deleted; no box
      is added or dropped. */
  ghost predicate Shrinks(v: seq<string>, w: seq<string>)
  {
    |w| == |v| && forall i :: 0 <= i < |v| ==> Sub(w[i], v[i])
  }

  lemma ShrinksRefl(v: seq<string>)
    ensures Shrinks(v, v)
  {
    forall i | 0 <= i < |v|
      ensures Sub(v[i], v[i])
    {
      SubRefl(v[i]);
    }
  }

  lemma ShrinksTrans(u: seq<string>, v: seq<string>, w: seq<string>)
    requires Shrinks(u, v)
    requires Shrinks(v, w)
    ensures Shrinks(u, w)
  {
    forall i | 0 <= i < |u|
      ensures Sub(w[i], u[i])
    {
      SubTrans(w[i], v[i], u[i]);
    }
  }

  /** Deleting characters from one box alone shrinks the map. */
  lemma ShrinksAt(v: seq<string>, b: int, w: seq<string>)
    requires |w| == |v| && 0 <= b < |v| && Sub(w[b], v[b])
    requires forall i :: 0 <= i < |v| && i != b ==> w[i] == v[i]
    ensures Shrinks(v, w)
  {
    forall i | 0 <= i < |v| && i != b
      ensures Sub(w[i], v[i])
    {
      SubRefl(v[i]);
    }
  }

  /** What shrinking promises box by box: no box grows and no box gains a
      candidate. */
  lemma ShrinksBoxes(v: seq<string>, w: seq<string>)
    requires Shrinks(v, w)
    ensures forall i :: 0 <= i < |v| ==> |w[i]| <= |v[i]|
    ensures forall i, c :: 0 <= i < |v| && c in w[i] ==> c in v[i]
  {
    forall i | 0 <= i < |v|
      ensures |w[i]| <= |v[i]|
      ensures forall c :: c in w[i] ==> c in v[i]
    {
      SubLength(w[i], v[i]);
      forall c | c in w[i]
        ensures c in v[i]
      {
        SubMem(w[i], v[i], c);
      }
    }
  }

  /** Total number of candidate characters over all boxes: the measure that
      every propagation round can only lower. */
  function Total(v: seq<string>): nat
    decreases |v|
  {
    if v == [] then 0 else |v[0]| + Total(v[1..])
  }

  lemma {:induction false} TotalUpdate(v: seq<string>, i: nat, x: string)
    requires i < |v|
    ensures Total(v[i := x]) == Total(v) - |v[i]| + |x|
    decreases |v|
  {
    if i > 0 {
      assert v[i := x][1..] == v[1..][i - 1 := x];
      TotalUpdate(v[1..], i - 1, x);
    } else {
      assert v[i := x][1..] == v[1..];
    }
  }

  /** Shrinking lowers the total, and leaves it equal only when nothing
      changed at all. */
  lemma {:induction false} ShrinksTotal(v: seq<string>, w: seq<string>)
    requires Shrinks(v, w)
    ensures Total(w) <= Total(v)
    ensures Total(w) == Total(v) ==> w == v
    decreases |v|
  {
    if v != [] {
      assert Shrinks(v[1..], w[1..]) by {
        forall i | 0 <= i < |v[1..]|
          ensures Sub(w[1..][i], v[1..][i])
        {
          assert w[1..][i] == w[i + 1] && v[1..][i] == v[i + 1];
        }
      }
      ShrinksTotal(v[1..], w[1..]);
      SubLength(w[0], v[0]);
      if Total(w) == Total(v) {
        assert w == [w[0]] + w[1..];
        assert v == [v[0]] + v[1..];
      }
    }
  }
}
