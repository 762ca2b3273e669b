/** Counting facts about the classic 27-unit topology of the shared helpers:
    every box lies in exactly three units (its row, its column and its
    square) and has exactly 20 peers. With the two diagonals added, boxes on
    a diagonal have more peers, so these facts are stated for the 27 units
    only. */
module PeerCount {
  import opened Topology

  /** Box `b` written as row `Row(b)` and column `Col(b)`, and its square as
      the row band and column band it sits in. */
  lemma Coordinates(b: int)
    requires 0 <= b < NumBoxes
    ensures 0 <= Row(b) < 9 && 0 <= Col(b) < 9
    ensures b == 9 * Row(b) + Col(b)
    ensures Square(b) == 3 * (Row(b) / 3) + Col(b) / 3
  {
  }

  /** Row unit `r` holds exactly the boxes of row `r`. */
  lemma InRowUnit(r: int, b: int)
    requires 0 <= r < 9 && 0 <= b < NumBoxes
    ensures b in RowUnit(r) <==> Row(b) == r
  {
    if Row(b) == r {
      assert RowUnit(r)[Col(b)] == b;
    }
    if b in RowUnit(r) {
      var k :| 0 <= k < 9 && RowUnit(r)[k] == b;
      RowColOf(r, k);
    }
  }

  /** Column unit `c` holds exactly the boxes of column `c`. */
  lemma InColumnUnit(c: int, b: int)
    requires 0 <= c < 9 && 0 <= b < NumBoxes
    ensures b in ColumnUnit(c) <==> Col(b) == c
  {
    if Col(b) == c {
      assert ColumnUnit(c)[Row(b)] == b;
    }
    if b in ColumnUnit(c) {
      var k :| 0 <= k < 9 && ColumnUnit(c)[k] == b;
      RowColOf(k, c);
    }
  }

  /** Quotient and remainder by 3 of `3 * q + t`. */
  lemma Split3(q: int, t: int)
    requires 0 <= t < 3
    ensures (3 * q + t) / 3 == q && (3 * q + t) % 3 == t
  {
  }

  /** A box of square `s` sits at position `3 * (row % 3) + col % 3` of the
      square's unit. */
  lemma SquareUnitHolds(s: int, b: int)
    requires 0 <= s < 9 && 0 <= b < NumBoxes && Square(b) == s
    ensures b in SquareUnit(s)
  {
    Coordinates(b);
    var row, col := Row(b), Col(b);
    var k := 3 * (row % 3) + col % 3;
    Split3(row % 3, col % 3);
    Split3(row / 3, col / 3);
    assert s / 3 == row / 3 && s % 3 == col / 3;
    assert SquareUnit(s)[k] == 27 * (row / 3) + 9 * (row % 3) + 3 * (col / 3) + col % 3;
    assert SquareUnit(s)[k] == b;
  }

  /** The `k`-th box of square unit `s` lies in square `s`. */
  lemma SquareUnitEntry(s: int, k: int)
    requires 0 <= s < 9 && 0 <= k < 9
    ensures Square(SquareUnit(s)[k]) == s
  {
    var b := SquareUnit(s)[k];
    var r, c := 3 * (s / 3) + k / 3, 3 * (s % 3) + k % 3;
    Split3(s / 3, k / 3);
    Split3(s % 3, k % 3);
    assert 0 <= c < 9;
    assert b == 9 * r + c;
    RowColOf(r, c);
    Coordinates(b);
    assert Square(b) == 3 * (s / 3) + s % 3;
  }

  /** Square unit `s` holds exactly the boxes of square `s`. */
  lemma InSquareUnit(s: int, b: int)
    requires 0 <= s < 9 && 0 <= b < NumBoxes
    ensures b in SquareUnit(s) <==> Square(b) == s
  {
    if Square(b) == s {
      SquareUnitHolds(s, b);
    }
    if b in SquareUnit(s) {
      var k :| 0 <= k < 9 && SquareUnit(s)[k] == b;
      SquareUnitEntry(s, k);
    }
  }

  /** Unit `j` of the classic list is row `j`, column `j - 9` or square `j - 18`. */
  lemma StandardUnitAt(j: int)
    requires 0 <= j < 27
    ensures |UtilsUnits| == 27
    ensures j < 9 ==> UtilsUnits[j] == RowUnit(j)
    ensures 9 <= j < 18 ==> UtilsUnits[j] == ColumnUnit(j - 9)
    ensures 18 <= j ==> UtilsUnits[j] == SquareUnit(j - 18)
  {
  }

  /** The units holding box `b`: its row, its column and its square. */
  function UnitsOf(b: int): (r: set<int>)
    requires 0 <= b < NumBoxes
    ensures forall j :: j in r <==> 0 <= j < |UtilsUnits| && b in UtilsUnits[j]
  {
    var r := set j | 0 <= j < 27 && b in UtilsUnits[j];
    assert forall j :: 0 <= j < |UtilsUnits| && b in UtilsUnits[j] ==> j in r by {
      StandardUnitAt(0);
    }
    r
  }

  /** Two distinct boxes are peers in the classic layout exactly when they
      share a row, a column or a square. */
  predicate SharesUnit(a: int, b: int)
  {
    Row(a) == Row(b) || Col(a) == Col(b) || Square(a) == Square(b)
  }

  /** Which boxes unit `j` of the classic list holds. */
  lemma UnitMembership(j: int, b: int)
    requires 0 <= j < 27
    ensures |UtilsUnits| == 27
    ensures b in UtilsUnits[j] ==> 0 <= b < NumBoxes
    ensures 0 <= b < NumBoxes ==>
              (b in UtilsUnits[j] <==>
                 if j < 9 then Row(b) == j else if j < 18 then Col(b) == j - 9 else Square(b) == j - 18)
  {
    UnitsShape(false);
    StandardUnitAt(j);
    if b in UtilsUnits[j] {
      var k :| 0 <= k < |UtilsUnits[j]| && UtilsUnits[j][k] == b;
    }
    if 0 <= b < NumBoxes {
      if j < 9 {
        InRowUnit(j, b);
      } else if j < 18 {
        InColumnUnit(j - 9, b);
      } else {
        InSquareUnit(j - 18, b);
      }
    }
  }

  /** Every box lies in exactly three of the 27 units. */
  lemma ThreeUnitsPerBox(b: int)
    requires 0 <= b < NumBoxes
    ensures UnitsOf(b) == {Row(b), 9 + Col(b), 18 + Square(b)}
    ensures |UnitsOf(b)| == 3
  {
    Coordinates(b);
    var three := {Row(b), 9 + Col(b), 18 + Square(b)};
    forall j
      ensures j in UnitsOf(b) <==> j in three
    {
      if 0 <= j < 27 {
        UnitMembership(j, b);
      }
    }
    assert UnitsOf(b) == three;
    assert |{Row(b), 9 + Col(b)}| == 2;
  }

  lemma PeerShares(b: int, p: int)
    requires 0 <= b < NumBoxes
    requires p in AllPeers(UtilsUnits, b)
    ensures 0 <= p < NumBoxes && p != b && SharesUnit(p, b)
  {
    var j :| 0 <= j < |UtilsUnits| && b in UtilsUnits[j] && p in UtilsUnits[j];
    UnitMembership(j, b);
    UnitMembership(j, p);
  }

  /** Two different boxes of unit `j` are peers. */
  lemma SameUnitPeer(j: int, b: int, p: int)
    requires 0 <= j < 27 && p != b
    requires b in UtilsUnits[j] && p in UtilsUnits[j]
    ensures p in AllPeers(UtilsUnits, b)
  {
    UnitsShape(false);
  }

  lemma SharesPeer(b: int, p: int)
    requires 0 <= b < NumBoxes
    requires 0 <= p < NumBoxes && p != b && SharesUnit(p, b)
    ensures p in AllPeers(UtilsUnits, b)
  {
    Coordinates(b);
    var j;
    if Row(p) == Row(b) {
      j := Row(b);
    } else if Col(p) == Col(b) {
      j := 9 + Col(b);
    } else {
      j := 18 + Square(b);
    }
    UnitMembership(j, b);
    UnitMembership(j, p);
    SameUnitPeer(j, b, p);
  }

  lemma PeersBySharing(b: int, p: int)
    requires 0 <= b < NumBoxes
    ensures p in AllPeers(UtilsUnits, b) <==> 0 <= p < NumBoxes && p != b && SharesUnit(p, b)
  {
    if p in AllPeers(UtilsUnits, b) {
      PeerShares(b, p);
    }
    if 0 <= p < NumBoxes && p != b && SharesUnit(p, b) {
      SharesPeer(b, p);
    }
  }

  /** The `k`-th of the values 0..n other than `x`. */
  function Skip(x: int, k: int): int
  {
    if k < x then k else k + 1
  }

  /** The position of `y` among the values other than `x`. */
  function Unskip(x: int, y: int): int
  {
    if y < x then y else y - 1
  }

  /** Row of the `i`-th listed peer of `b`: 8 in its row, then 8 in its
      column, then the 4 of its square that share neither. */
  function PeerRow(b: int, i: int): int
  {
    var r := Row(b);
    if i < 8 then r
    else if i < 16 then Skip(r, i - 8)
    else 3 * (r / 3) + Skip(r % 3, (i - 16) / 2)
  }

  function PeerCol(b: int, i: int): int
  {
    var c := Col(b);
    if i < 8 then Skip(c, i)
    else if i < 16 then c
    else 3 * (c / 3) + Skip(c % 3, (i - 16) % 2)
  }

  /** The 20 peers of `b`, listed. */
  function PeerList(b: int): seq<int>
  {
    seq(20, i => 9 * PeerRow(b, i) + PeerCol(b, i))
  }

  /** The other two rows (or columns) of the band of `x` are in range, in
      the same band, and differ from `x`. */
  lemma BandSkip(x: int, j: int)
    requires 0 <= x < 9 && 0 <= j < 2
    ensures 0 <= 3 * (x / 3) + Skip(x % 3, j) < 9
    ensures 3 * (x / 3) + Skip(x % 3, j) != x
    ensures (3 * (x / 3) + Skip(x % 3, j)) / 3 == x / 3
  {
    Split3(x / 3, Skip(x % 3, j));
  }

  lemma PeerListCoordinates(b: int, i: int)
    requires 0 <= b < NumBoxes && 0 <= i < 20
    ensures 0 <= PeerRow(b, i) < 9 && 0 <= PeerCol(b, i) < 9
    ensures Row(PeerList(b)[i]) == PeerRow(b, i) && Col(PeerList(b)[i]) == PeerCol(b, i)
    ensures i < 8 ==> PeerRow(b, i) == Row(b) && PeerCol(b, i) != Col(b)
    ensures 8 <= i < 16 ==> PeerRow(b, i) != Row(b) && PeerCol(b, i) == Col(b)
    ensures 16 <= i ==> PeerRow(b, i) != Row(b) && PeerCol(b, i) != Col(b)
    ensures 16 <= i ==> PeerRow(b, i) / 3 == Row(b) / 3 && PeerCol(b, i) / 3 == Col(b) / 3
  {
    Coordinates(b);
    if 16 <= i {
      BandSkip(Row(b), (i - 16) / 2);
      BandSkip(Col(b), (i - 16) % 2);
    }
    RowColOf(PeerRow(b, i), PeerCol(b, i));
  }

  lemma PeerListDistinct(b: int)
    requires 0 <= b < NumBoxes
    ensures Distinct(PeerList(b))
  {
    var l := PeerList(b);
    forall i, j | 0 <= i < j < 20
      ensures l[i] != l[j]
    {
      PeerListCoordinates(b, i);
      PeerListCoordinates(b, j);
      if 16 <= i {
        assert (i - 16) / 2 != (j - 16) / 2 || (i - 16) % 2 != (j - 16) % 2;
      }
      assert PeerRow(b, i) != PeerRow(b, j) || PeerCol(b, i) != PeerCol(b, j);
    }
  }

  /** Boxes of one square share their row band and their column band. */
  lemma SquareBands(a: int, b: int)
    requires 0 <= a < NumBoxes && 0 <= b < NumBoxes && Square(a) == Square(b)
    ensures Row(a) / 3 == Row(b) / 3 && Col(a) / 3 == Col(b) / 3
  {
    Coordinates(a);
    Coordinates(b);
    Split3(Row(a) / 3, Col(a) / 3);
    Split3(Row(b) / 3, Col(b) / 3);
  }

  /** Another row (or column) `z` of the band of `x` is reached by skipping
      over `x` within the band. */
  lemma BandUnskip(x: int, z: int)
    requires 0 <= x < 9 && 0 <= z < 9 && z / 3 == x / 3 && z != x
    ensures 0 <= Unskip(x % 3, z % 3) < 2
    ensures 3 * (x / 3) + Skip(x % 3, Unskip(x % 3, z % 3)) == z
  {
  }

  /** Where a box of the same square, but of another row and column, sits
      in the list. */
  lemma SquarePeerListed(b: int, p: int)
    requires 0 <= b < NumBoxes && 0 <= p < NumBoxes
    requires Row(p) != Row(b) && Col(p) != Col(b) && Square(p) == Square(b)
    ensures p in PeerList(b)
  {
    Coordinates(b);
    Coordinates(p);
    SquareBands(b, p);
    var r, c := Row(b), Col(b);
    BandUnskip(r, Row(p));
    BandUnskip(c, Col(p));
    var x, y := Unskip(r % 3, Row(p) % 3), Unskip(c % 3, Col(p) % 3);
    var i := 16 + 2 * x + y;
    assert (i - 16) / 2 == x && (i - 16) % 2 == y;
    assert PeerRow(b, i) == Row(p);
    assert PeerCol(b, i) == Col(p);
    assert PeerList(b)[i] == p;
  }

  /** The `i`-th listed peer of `b` shares a unit with `b`. */
  lemma ListedPeerShares(b: int, i: int)
    requires 0 <= b < NumBoxes && 0 <= i < 20
    ensures 0 <= PeerList(b)[i] < NumBoxes && PeerList(b)[i] != b && SharesUnit(PeerList(b)[i], b)
  {
    Coordinates(b);
    PeerListCoordinates(b, i);
    Coordinates(PeerList(b)[i]);
  }

  /** Every box sharing a unit with `b` is listed. */
  lemma SharingPeerListed(b: int, p: int)
    requires 0 <= b < NumBoxes
    requires 0 <= p < NumBoxes && p != b && SharesUnit(p, b)
    ensures p in PeerList(b)
  {
    Coordinates(b);
    Coordinates(p);
    var l := PeerList(b);
    var r, c := Row(b), Col(b);
    if Row(p) == r {
      assert l[Unskip(c, Col(p))] == p;
    } else if Col(p) == c {
      assert l[8 + Unskip(r, Row(p))] == p;
    } else {
      SquarePeerListed(b, p);
    }
  }

  /** The listed peers are exactly the boxes sharing a unit with `b`. */
  lemma PeerListMembers(b: int, p: int)
    requires 0 <= b < NumBoxes
    ensures p in PeerList(b) <==> 0 <= p < NumBoxes && p != b && SharesUnit(p, b)
  {
    if p in PeerList(b) {
      var i :| 0 <= i < 20 && PeerList(b)[i] == p;
      ListedPeerShares(b, i);
    }
    if 0 <= p < NumBoxes && p != b && SharesUnit(p, b) {
      SharingPeerListed(b, p);
    }
  }

  /** The elements of a list without repeats number as many as its entries. */
  lemma {:induction false} DistinctCard(s: seq<int>)
    requires Distinct(s)
    ensures |set x | x in s| == |s|
    decreases |s|
  {
    if s != [] {
      var rest := s[1..];
      assert Distinct(rest);
      DistinctCard(rest);
      assert (set x | x in s) == {s[0]} + (set x | x in rest);
      assert s[0] !in (set x | x in rest);
    }
  }

  /** In the classic layout every box has exactly 20 peers. */
  lemma TwentyPeers(b: int)
    requires 0 <= b < NumBoxes
    ensures AllPeers(UtilsUnits, b) == set p | p in PeerList(b)
    ensures |AllPeers(UtilsUnits, b)| == 20
  {
    forall p
      ensures p in AllPeers(UtilsUnits, b) <==> p in PeerList(b)
    {
      PeersBySharing(b, p);
      PeerListMembers(b, p);
    }
    PeerListDistinct(b);
    DistinctCard(PeerList(b));
  }
}
