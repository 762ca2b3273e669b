/** The fixed shape of the puzzle: the 81 box labels, the units (rows,
    columns, 3x3 squares and, in the diagonal variant, the two diagonals) and
    the peer relation derived from them. Boxes are numbered 0..80 in the
    row-major order of their labels 'A1'..'I9'. */
module Topology {

  const Rows: string := "ABCDEFGHI"
  const Cols: string := "123456789"
  const NumBoxes: nat := 81

  /** Every label `r + c`, rows outermost (Python `[r + c for r in rs for c in cs]`). */
  function Cross(rs: string, cs: string): seq<string>
    decreases |rs|
  {
    if rs == [] then []
    else seq(|cs|, j requires 0 <= j < |cs| => [rs[0], cs[j]]) + Cross(rs[1..], cs)
  }

  lemma {:induction false} CrossLength(rs: string, cs: string)
    ensures |Cross(rs, cs)| == |rs| * |cs|
    decreases |rs|
  {
    if rs != [] {
      CrossLength(rs[1..], cs);
      assert |rs| * |cs| == |cs| + (|rs| - 1) * |cs|;
    }
  }

  /** The products the label arithmetic of `cross` needs. */
  lemma MulFacts(i: int, m: int, n: int)
    requires 0 <= i < m && 0 <= n
    ensures i * n == (i - 1) * n + n
    ensures i * n + n <= m * n
  {
    assert (m - i - 1) * n >= 0;
    assert m * n == i * n + n + (m - i - 1) * n;
  }

  /** `cross` yields |rs|*|cs| labels in row-major order: label `i * |cs| + j`
      is row character `i` followed by column character `j`. */
  lemma {:induction false} CrossAt(rs: string, cs: string, i: int, j: int)
    requires 0 <= i < |rs| && 0 <= j < |cs|
    ensures |Cross(rs, cs)| == |rs| * |cs|
    ensures 0 <= i * |cs| + j < |Cross(rs, cs)|
    ensures Cross(rs, cs)[i * |cs| + j] == [rs[i], cs[j]]
    decreases i
  {
    CrossLength(rs, cs);
    MulFacts(i, |rs|, |cs|);
    assert 0 <= i * |cs|;
    if i > 0 {
      CrossAt(rs[1..], cs, i - 1, j);
      assert i * |cs| + j == |cs| + ((i - 1) * |cs| + j);
      assert rs[1..][i - 1] == rs[i];
    }
  }

  const Boxes: seq<string> := Cross(Rows, Cols)

  function Row(b: int): int { b / 9 }
  function Col(b: int): int { b % 9 }
  function Square(b: int): int { 3 * (b / 27) + (b % 9) / 3 }

  lemma RowsDistinct(i: int, j: int)
    requires 0 <= i < 9 && 0 <= j < 9
    ensures Rows[i] == Rows[j] <==> i == j
  {
    assert Rows[i] as int == 65 + i by {
      if i == 0 {} else if i == 1 {} else if i == 2 {} else if i == 3 {} else if i == 4 {}
      else if i == 5 {} else if i == 6 {} else if i == 7 {} else {}
    }
    assert Rows[j] as int == 65 + j by {
      if j == 0 {} else if j == 1 {} else if j == 2 {} else if j == 3 {} else if j == 4 {}
      else if j == 5 {} else if j == 6 {} else if j == 7 {} else {}
    }
  }

  lemma ColsDistinct(i: int, j: int)
    requires 0 <= i < 9 && 0 <= j < 9
    ensures Cols[i] == Cols[j] <==> i == j
  {
    assert Cols[i] as int == 49 + i by {
      if i == 0 {} else if i == 1 {} else if i == 2 {} else if i == 3 {} else if i == 4 {}
      else if i == 5 {} else if i == 6 {} else if i == 7 {} else {}
    }
    assert Cols[j] as int == 49 + j by {
      if j == 0 {} else if j == 1 {} else if j == 2 {} else if j == 3 {} else if j == 4 {}
      else if j == 5 {} else if j == 6 {} else if j == 7 {} else {}
    }
  }

  /** Box `b` is labelled with row letter `Row(b)` and column digit `Col(b)`. */
  lemma BoxLabel(b: int)
    requires 0 <= b < NumBoxes
    ensures |Boxes| == NumBoxes
    ensures Boxes[b] == [Rows[Row(b)], Cols[Col(b)]]
  {
    CrossAt(Rows, Cols, Row(b), Col(b));
  }

  /** `boxes` holds 81 distinct labels in row-major order. */
  lemma BoxesShape()
    ensures |Boxes| == NumBoxes
    ensures forall r, c :: 0 <= r < 9 && 0 <= c < 9 ==> Boxes[9 * r + c] == [Rows[r], Cols[c]]
    ensures forall a, b :: 0 <= a < b < NumBoxes ==> Boxes[a] != Boxes[b]
  {
    BoxLabel(0);
    forall r, c | 0 <= r < 9 && 0 <= c < 9
      ensures Boxes[9 * r + c] == [Rows[r], Cols[c]]
    {
      LabelOf(9 * r + c, r, c);
    }
    forall a, b | 0 <= a < b < NumBoxes
      ensures Boxes[a] != Boxes[b]
    {
      BoxLabel(a);
      BoxLabel(b);
      RowsDistinct(Row(a), Row(b));
      ColsDistinct(Col(a), Col(b));
      assert a == 9 * Row(a) + Col(a) && b == 9 * Row(b) + Col(b);
    }
  }

  type Unit = seq<int>

  function RowUnit(r: int): Unit { seq(9, k => 9 * r + k) }
  function ColumnUnit(c: int): Unit { seq(9, k => 9 * k + c) }
  function SquareUnit(s: int): Unit { seq(9, k => 27 * (s / 3) + 9 * (k / 3) + 3 * (s % 3) + k % 3) }
  function Diagonal(): Unit { seq(9, k => 10 * k) }
  function AntiDiagonal(): Unit { seq(9, k => 8 * k + 8) }

  /** Rows, then columns, then squares: the 27 units of classic Sudoku. */
  function StandardUnits(): seq<Unit>
  {
    seq(9, r => RowUnit(r)) + seq(9, c => ColumnUnit(c)) + seq(9, s => SquareUnit(s))
  }

  /** The unit list, with the two diagonals appended in the diagonal variant. */
  function Units(diagonal: bool): seq<Unit>
  {
    StandardUnits() + (if diagonal then [Diagonal(), AntiDiagonal()] else [])
  }

  /** The unit list of the solver (rows, columns, squares and diagonals). */
  const SolutionUnits: seq<Unit> := Units(true)

  /** The unit list of the shared helpers (diagonals commented out). */
  const UtilsUnits: seq<Unit> := Units(false)

  predicate Distinct(u: seq<int>)
  {
    forall i, j :: 0 <= i < j < |u| ==> u[i] != u[j]
  }

  /** Every unit names boxes that exist. */
  predicate ValidUnits(units: seq<Unit>)
  {
    forall j, k :: 0 <= j < |units| && 0 <= k < |units[j]| ==> 0 <= units[j][k] < NumBoxes
  }

  /** Nine distinct boxes, all in range. */
  predicate NineBoxes(u: Unit)
  {
    |u| == 9 && Distinct(u) && forall k :: 0 <= k < |u| ==> 0 <= u[k] < NumBoxes
  }

  lemma SquareUnitShape(s: int)
    requires 0 <= s < 9
    ensures NineBoxes(SquareUnit(s))
  {
    var u := SquareUnit(s);
    assert 0 <= s / 3 < 3 && 0 <= s % 3 < 3;
    forall k | 0 <= k < 9
      ensures 0 <= u[k] < NumBoxes
    {
      assert 0 <= k / 3 < 3 && 0 <= k % 3 < 3;
    }
    forall k1, k2 | 0 <= k1 < k2 < 9
      ensures u[k1] != u[k2]
    {
      assert k1 / 3 != k2 / 3 || k1 % 3 != k2 % 3;
      assert u[k1] == 27 * (s / 3) + 9 * (k1 / 3) + 3 * (s % 3) + k1 % 3;
      assert u[k2] == 27 * (s / 3) + 9 * (k2 / 3) + 3 * (s % 3) + k2 % 3;
    }
  }

  /** Each unit of either list is one of rows, columns, squares or the
      diagonals, and so holds nine distinct boxes. */
  lemma UnitShape(diagonal: bool, j: int)
    requires 0 <= j < |Units(diagonal)|
    ensures NineBoxes(Units(diagonal)[j])
  {
    var us := Units(diagonal);
    if j < 9 {
      assert us[j] == RowUnit(j);
    } else if j < 18 {
      assert us[j] == ColumnUnit(j - 9);
    } else if j < 27 {
      assert us[j] == SquareUnit(j - 18);
      SquareUnitShape(j - 18);
    } else if j == 27 {
      assert us[j] == Diagonal();
    } else {
      assert us[j] == AntiDiagonal();
    }
  }

  /** `units` holds 29 (or 27) lists of 9 distinct boxes each. */
  lemma UnitsShape(diagonal: bool)
    ensures |Units(diagonal)| == if diagonal then 29 else 27
    ensures ValidUnits(Units(diagonal))
    ensures forall j :: 0 <= j < |Units(diagonal)| ==> |Units(diagonal)[j]| == 9 && Distinct(Units(diagonal)[j])
  {
    var us := Units(diagonal);
    forall j | 0 <= j < |us|
      ensures NineBoxes(us[j])
    {
      UnitShape(diagonal, j);
    }
  }

  /** Box `9 * r + c` is labelled with row letter `r` and column digit `c`. */
  lemma LabelOf(b: int, r: int, c: int)
    requires 0 <= r < 9 && 0 <= c < 9 && b == 9 * r + c
    ensures |Boxes| == NumBoxes && Boxes[b] == [Rows[r], Cols[c]]
  {
    RowColOf(r, c);
    assert Row(b) == r && Col(b) == c;
    BoxLabel(b);
  }

  /** Row `r` of the labels, as the source builds it with `cross`. */
  lemma RowCross(r: int, k: int)
    requires 0 <= r < 9 && 0 <= k < 9
    ensures |Cross([Rows[r]], Cols)| == 9 && Cross([Rows[r]], Cols)[k] == [Rows[r], Cols[k]]
  {
    var rs := [Rows[r]];
    CrossAt(rs, Cols, 0, k);
    assert 0 * |Cols| + k == k;
  }

  /** Column `c` of the labels, as the source builds it with `cross`. */
  lemma ColumnCross(c: int, k: int)
    requires 0 <= c < 9 && 0 <= k < 9
    ensures |Cross(Rows, [Cols[c]])| == 9 && Cross(Rows, [Cols[c]])[k] == [Rows[k], Cols[c]]
  {
    var cs := [Cols[c]];
    CrossAt(Rows, cs, k, 0);
    assert k * |cs| + 0 == k;
  }

  /** Row unit `r` is the source's `cross(rows[r], cols)`. */
  lemma RowUnitLabels(r: int, k: int)
    requires 0 <= r < 9 && 0 <= k < 9
    ensures |Boxes| == NumBoxes
    ensures Boxes[RowUnit(r)[k]] == Cross([Rows[r]], Cols)[k]
  {
    LabelOf(RowUnit(r)[k], r, k);
    RowCross(r, k);
  }

  /** Column unit `c` is the source's `cross(rows, cols[c])`. */
  lemma ColumnUnitLabels(c: int, k: int)
    requires 0 <= c < 9 && 0 <= k < 9
    ensures |Boxes| == NumBoxes
    ensures Boxes[ColumnUnit(c)[k]] == Cross(Rows, [Cols[c]])[k]
  {
    LabelOf(ColumnUnit(c)[k], k, c);
    ColumnCross(c, k);
  }

  lemma RowColOf(x: int, y: int)
    requires 0 <= y < 9
    ensures Row(9 * x + y) == x && Col(9 * x + y) == y
  {
  }

  /** The three row letters of band `s / 3`, as the source spells them ('ABC', 'DEF', 'GHI'). */
  function RowBand(s: int): string
    requires 0 <= s < 9
  {
    Rows[3 * (s / 3)..3 * (s / 3) + 3]
  }

  /** The three column digits of band `s % 3` ('123', '456', '789'). */
  function ColBand(s: int): string
    requires 0 <= s < 9
  {
    Cols[3 * (s % 3)..3 * (s % 3) + 3]
  }

  /** Square `s` of the labels, as the source builds it with `cross`. */
  lemma SquareCross(s: int, k: int)
    requires 0 <= s < 9 && 0 <= k < 9
    ensures |Cross(RowBand(s), ColBand(s))| == 9
    ensures Cross(RowBand(s), ColBand(s))[k] == [Rows[3 * (s / 3) + k / 3], Cols[3 * (s % 3) + k % 3]]
  {
    var rb, cb := RowBand(s), ColBand(s);
    var i, j := k / 3, k % 3;
    assert |rb| == 3 && |cb| == 3;
    CrossAt(rb, cb, i, j);
    assert i * |cb| + j == k;
  }

  /** Box `k` of square unit `s` sits in row `3 * (s / 3) + k / 3` and column
      `3 * (s % 3) + k % 3`. */
  lemma SquareAt(s: int, k: int)
    requires 0 <= s < 9 && 0 <= k < 9
    ensures 0 <= 3 * (s / 3) + k / 3 < 9 && 0 <= 3 * (s % 3) + k % 3 < 9
    ensures SquareUnit(s)[k] == 9 * (3 * (s / 3) + k / 3) + (3 * (s % 3) + k % 3)
    ensures 0 <= SquareUnit(s)[k] < NumBoxes
  {
    assert 0 <= s / 3 < 3 && 0 <= k / 3 < 3 && 0 <= s % 3 < 3 && 0 <= k % 3 < 3;
  }

  /** Square unit `s` is the source's `cross(rs, cs)` for row band `s / 3` and
      column band `s % 3`. */
  lemma SquareUnitLabels(s: int, k: int)
    requires 0 <= s < 9 && 0 <= k < 9
    ensures |Boxes| == NumBoxes && 0 <= SquareUnit(s)[k] < NumBoxes
    ensures |Cross(RowBand(s), ColBand(s))| == 9
    ensures Boxes[SquareUnit(s)[k]] == Cross(RowBand(s), ColBand(s))[k]
  {
    SquareAt(s, k);
    LabelOf(SquareUnit(s)[k], 3 * (s / 3) + k / 3, 3 * (s % 3) + k % 3);
    SquareCross(s, k);
  }

  /** The diagonals are the source's `zip('ABCDEFGHI', '123456789')` and
      `zip('ABCDEFGHI', '987654321')`. */
  lemma DiagonalLabels(k: int)
    requires 0 <= k < 9
    ensures |Boxes| == NumBoxes
    ensures Boxes[Diagonal()[k]] == [Rows[k], "123456789"[k]]
    ensures Boxes[AntiDiagonal()[k]] == [Rows[k], "987654321"[k]]
  {
    assert Diagonal()[k] == 9 * k + k;
    LabelOf(Diagonal()[k], k, k);
    assert AntiDiagonal()[k] == 9 * k + (8 - k);
    LabelOf(AntiDiagonal()[k], k, 8 - k);
    ReversedCols(k);
  }

  /** The column digits read backwards, as `cols[::-1]` gives them. */
  lemma ReversedCols(k: int)
    requires 0 <= k < 9
    ensures Cols[8 - k] == "987654321"[k]
  {
    if k == 0 {} else if k == 1 {} else if k == 2 {} else if k == 3 {} else if k == 4 {}
    else if k == 5 {} else if k == 6 {} else if k == 7 {} else {}
  }

  /** `[p for p in u if b != p]`: unit `u` with box `b` left out. */
  function Without(u: Unit, b: int): (r: Unit)
    ensures forall p :: p in r <==> p in u && p != b
    ensures b !in u ==> r == u
    ensures Distinct(u) && b in u ==> |r| == |u| - 1
    decreases |u|
  {
    if u == [] then []
    else if u[0] == b then
      assert Distinct(u) ==> b !in u[1..];
      Without(u[1..], b)
    else
      var rest := Without(u[1..], b);
      assert u == [u[0]] + u[1..];
      [u[0]] + rest
  }

  /** `box_to_unit_peers[b]`: for every unit holding `b`, in unit order, that
      unit's other members. */
  function UnitPeers(units: seq<Unit>, b: int): (r: seq<Unit>)
    ensures |r| <= |units|
    ensures forall g :: g in r <==> exists j :: 0 <= j < |units| && b in units[j] && g == Without(units[j], b)
    decreases |units|
  {
    if units == [] then []
    else
      var rest := UnitPeers(units[1..], b);
      assert forall j :: 0 <= j < |units[1..]| ==> units[1..][j] == units[j + 1];
      assert forall j :: 1 <= j < |units| ==> units[j] == units[1..][j - 1];
      if b in units[0] then [Without(units[0], b)] + rest else rest
  }

  /** The indices, from `k` on and in increasing order, of the units that
      hold box `b`. */
  function HoldingFrom(units: seq<Unit>, b: int, k: nat): (r: seq<int>)
    requires k <= |units|
    ensures forall j {:trigger j in r} :: j in r <==> k <= j < |units| && b in units[j]
    ensures forall i :: 0 <= i < |r| ==> k <= r[i] < |units| && b in units[r[i]]
    ensures forall i, i' :: 0 <= i < i' < |r| ==> r[i] < r[i']
    decreases |units| - k
  {
    if k == |units| then []
    else
      var rest := HoldingFrom(units, b, k + 1);
      assert forall i :: 0 <= i < |rest| ==> rest[i] in rest;
      if b in units[k] then [k] + rest else rest
  }

  lemma {:induction false} UnitPeersFrom(units: seq<Unit>, b: int, k: nat)
    requires k <= |units|
    ensures |UnitPeers(units[k..], b)| == |HoldingFrom(units, b, k)|
    ensures forall i :: 0 <= i < |HoldingFrom(units, b, k)| ==>
              UnitPeers(units[k..], b)[i] == Without(units[HoldingFrom(units, b, k)[i]], b)
    decreases |units| - k
  {
    if k < |units| {
      UnitPeersFrom(units, b, k + 1);
      assert units[k..][1..] == units[k + 1..];
      assert units[k..][0] == units[k];
      var rest, h := UnitPeers(units[k + 1..], b), HoldingFrom(units, b, k + 1);
      if b in units[k] {
        assert UnitPeers(units[k..], b) == [Without(units[k], b)] + rest;
        assert HoldingFrom(units, b, k) == [k] + h;
      } else {
        assert UnitPeers(units[k..], b) == rest;
        assert HoldingFrom(units, b, k) == h;
      }
    } else {
      assert units[k..] == [];
    }
  }

  /** The groups of `box_to_unit_peers[b]` are one per unit holding `b`, in
      unit order: group `i` is the `i`-th such unit with `b` left out. */
  lemma UnitPeersInUnitOrder(units: seq<Unit>, b: int)
    ensures |UnitPeers(units, b)| == |HoldingFrom(units, b, 0)|
    ensures forall i :: 0 <= i < |HoldingFrom(units, b, 0)| ==>
              UnitPeers(units, b)[i] == Without(units[HoldingFrom(units, b, 0)[i]], b)
  {
    UnitPeersFrom(units, b, 0);
    assert units[0..] == units;
  }

  /** `sum(groups, [])`: the groups concatenated. */
  function Flatten(gs: seq<Unit>): (r: seq<int>)
    ensures forall p :: p in r <==> exists g :: g in gs && p in g
    decreases |gs|
  {
    if gs == [] then [] else gs[0] + Flatten(gs[1..])
  }

  /** `box_to_all_peers[b]`: every other box sharing a unit with `b`. */
  function AllPeers(units: seq<Unit>, b: int): (r: set<int>)
    ensures forall p :: p in r <==> p != b && exists j :: 0 <= j < |units| && b in units[j] && p in units[j]
  {
    var r := set p | p in Flatten(UnitPeers(units, b));
    assert forall p :: p in r ==> p != b && exists j :: 0 <= j < |units| && b in units[j] && p in units[j];
    assert forall p, j :: p != b && 0 <= j < |units| && b in units[j] && p in units[j] ==>
      Without(units[j], b) in UnitPeers(units, b) && p in Without(units[j], b);
    r
  }

  /** Each list in `box_to_unit_peers[b]` has 8 members and leaves `b` out. */
  lemma UnitPeerGroups(diagonal: bool, b: int)
    requires 0 <= b < NumBoxes
    ensures forall g :: g in UnitPeers(Units(diagonal), b) ==> |g| == 8 && b !in g
  {
    UnitsShape(diagonal);
  }

  /** No box is its own peer, in any unit list. */
  lemma PeersIrreflexive(units: seq<Unit>, b: int)
    ensures b !in AllPeers(units, b)
  {
  }

  /** Being peers is symmetric, in any unit list. */
  lemma PeersSymmetric(units: seq<Unit>, a: int, b: int)
    ensures a in AllPeers(units, b) <==> b in AllPeers(units, a)
  {
  }
}
