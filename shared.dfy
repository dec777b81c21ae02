/**
 * The strike-zone count matrix of the baseball dashboard (dashboard/shared.py).
 *
 * `CreateCountMatrix` walks the column of Statcast zone codes, skips every code
 * outside 1..9 and adds one to the cell that the code's integer arithmetic
 * selects.  Python's negative list indexing is part of that arithmetic: for
 * zones 1 and 2 the row expression is -1, which addresses the last row.
 *
 * The specification of the method is the function `Counts`; the lemmas below
 * relate `Counts` to an independent tally over the multiset of zones and prove
 * conservation, exclusion of out-of-zone codes, the one-cell increment and
 * order independence.
 */
module Shared {

  /** A count matrix: a list of rows, as `create_count_matrix`'s list of lists. */
  type Grid = seq<seq<int>>

  /** The shape `create_count_matrix` allocates: three rows of three cells. */
  ghost predicate IsGrid(m: Grid) {
    |m| == 3 && forall r :: 0 <= r < 3 ==> |m[r]| == 3
  }

  /** Every cell of a 3x3 grid is a count, never negative. */
  ghost predicate NonNegative(m: Grid)
    requires IsGrid(m)
  {
    forall r, c :: 0 <= r < 3 && 0 <= c < 3 ==> m[r][c] >= 0
  }

  /** The all-zero matrix `create_count_matrix` starts from. */
  function ZeroGrid(): (m: Grid)
    ensures IsGrid(m) && forall r, c :: 0 <= r < 3 && 0 <= c < 3 ==> m[r][c] == 0
  {
    [[0, 0, 0], [0, 0, 0], [0, 0, 0]]
  }

  /** The guard of the loop: only codes 1..9 are counted. */
  predicate InStrikeZone(z: int) {
    1 <= z <= 9
  }

  /** Python's list indexing: a negative index counts from the end. */
  function PyIndex(i: int, n: nat): (k: nat)
    requires -(n as int) <= i < n
    ensures k < n && (k == i || k == i + n)
  {
    if i < 0 then i + n else i
  }

  /**
   * The cell a zone code is counted in, 0-based (row, column).  The row is
   * `z // 3` and the column `(z - 1) % 3 + 1`, each indexed with one subtracted;
   * Dafny's `/` and `%` agree with Python's `//` and `%` on these non-negative
   * operands.
   */
  function ZoneCell(z: int): (cell: (nat, nat))
    requires InStrikeZone(z)
    ensures cell.0 < 3 && cell.1 < 3
  {
    var row := z / 3;
    var col := (z - 1) % 3 + 1;
    (PyIndex(row - 1, 3), PyIndex(col - 1, 3))
  }

  /**
   * The zone code counted in cell (r, c): the inverse of `ZoneCell`.  Column 2
   * holds the multiples of three; in the other columns the row is one past the
   * zone's third, wrapping from the last row to the first.
   */
  function CellZone(r: nat, c: nat): (z: int)
    requires r < 3 && c < 3
    ensures InStrikeZone(z) && ZoneCell(z) == (r, c)
  {
    if c == 2 then 3 * (r + 1) else 3 * ((r + 1) % 3) + c + 1
  }

  /** `ZoneCell` is one-to-one on 1..9, so with `CellZone` it is a bijection onto the nine cells. */
  lemma ZoneCellInjective(z: int)
    requires InStrikeZone(z)
    ensures CellZone(ZoneCell(z).0, ZoneCell(z).1) == z
  {
    assert z in {1, 2, 3, 4, 5, 6, 7, 8, 9};
  }

  /** The cell holding zone z is (r, c) exactly when z is the code `CellZone(r, c)`. */
  lemma ZoneCellIff(z: int, r: nat, c: nat)
    requires r < 3 && c < 3
    ensures (InStrikeZone(z) && ZoneCell(z) == (r, c)) <==> z == CellZone(r, c)
  {
    if InStrikeZone(z) && ZoneCell(z) == (r, c) {
      ZoneCellInjective(z);
    }
  }

  /**
   * The raw indices `create_count_matrix` uses stay within Python's bounds for a list of
   * three: the row index `z // 3 - 1` is -1 only for zones 1 and 2 and never
   * leaves -1..2, and the column index `(z - 1) % 3` lies in 0..2.
   */
  lemma ZoneIndexRange(z: int)
    requires InStrikeZone(z)
    ensures -1 <= z / 3 - 1 <= 2 && (z / 3 - 1 == -1 <==> z < 3)
    ensures 0 <= (z - 1) % 3 + 1 - 1 <= 2
  {
  }

  /** The layout `create_count_matrix`'s arithmetic produces, zone by zone. */
  lemma ZoneCellTable()
    ensures ZoneCell(1) == (2, 0) && ZoneCell(2) == (2, 1) && ZoneCell(3) == (0, 2)
    ensures ZoneCell(4) == (0, 0) && ZoneCell(5) == (0, 1) && ZoneCell(6) == (1, 2)
    ensures ZoneCell(7) == (1, 0) && ZoneCell(8) == (1, 1) && ZoneCell(9) == (2, 2)
  {
  }

  /** One step of the loop on a matrix value: `matrix[row-1][col-1] += 1` for an in-zone code. */
  function Bump(m: Grid, z: int): (m': Grid)
    requires IsGrid(m)
    ensures IsGrid(m')
    ensures forall r, c :: 0 <= r < 3 && 0 <= c < 3 ==>
              m'[r][c] == m[r][c] + (if InStrikeZone(z) && ZoneCell(z) == (r, c) then 1 else 0)
  {
    if InStrikeZone(z) then
      var cell := ZoneCell(z);
      m[cell.0 := m[cell.0][cell.1 := m[cell.0][cell.1] + 1]]
    else
      m
  }

  /** The matrix after the loop has consumed `zones`, in order. */
  function Counts(zones: seq<int>): (m: Grid)
    ensures IsGrid(m) && NonNegative(m)
  {
    if zones == [] then ZeroGrid() else Bump(Counts(zones[..|zones| - 1]), zones[|zones| - 1])
  }

  /** The number of codes in 1..9. */
  function InZoneCount(zones: seq<int>): nat {
    if zones == [] then 0
    else InZoneCount(zones[..|zones| - 1]) + (if InStrikeZone(zones[|zones| - 1]) then 1 else 0)
  }

  /** The sum of all nine cells. */
  function Total(m: Grid): int
    requires IsGrid(m)
  {
    m[0][0] + m[0][1] + m[0][2] + m[1][0] + m[1][1] + m[1][2] + m[2][0] + m[2][1] + m[2][2]
  }

  /** A step adds one to the total exactly when the code is counted. */
  lemma TotalBump(m: Grid, z: int)
    requires IsGrid(m)
    ensures Total(Bump(m, z)) == Total(m) + (if InStrikeZone(z) then 1 else 0)
  {
    if InStrikeZone(z) {
      var cell := ZoneCell(z);
      var m' := Bump(m, z);
      assert m'[cell.0][cell.1] == m[cell.0][cell.1] + 1;
      assert forall r, c :: 0 <= r < 3 && 0 <= c < 3 && (r, c) != cell ==> m'[r][c] == m[r][c];
    }
  }

  /**
   * create_count_matrix: starts from the zero matrix and, for every code in
   * 1..9, adds one to row `z // 3 - 1` (Python indexing) and column `(z - 1) % 3`.
   */
  method CreateCountMatrix(zones: seq<int>) returns (matrix: Grid)
    ensures matrix == Counts(zones)
  {
    matrix := [[0, 0, 0], [0, 0, 0], [0, 0, 0]];
    var i := 0;
    while i < |zones|
      invariant 0 <= i <= |zones|
      invariant matrix == Counts(zones[..i])
    {
      var num := zones[i];
      assert zones[..i + 1][..i] == zones[..i] && zones[..i + 1][i] == num;
      ghost var before := matrix;
      if 1 <= num <= 9 {
        var row := num / 3;
        var col := (num - 1) % 3 + 1;
        var r, c := PyIndex(row - 1, 3), PyIndex(col - 1, 3);
        assert (r, c) == ZoneCell(num);
        matrix := matrix[r := matrix[r][c := matrix[r][c] + 1]];
      }
      assert matrix == Bump(before, num);
      i := i + 1;
    }
    assert zones[..i] == zones;
  }

  /** Two 3x3 grids that agree on every cell are equal. */
  lemma GridExt(a: Grid, b: Grid)
    requires IsGrid(a) && IsGrid(b)
    requires forall r, c :: 0 <= r < 3 && 0 <= c < 3 ==> a[r][c] == b[r][c]
    ensures a == b
  {
    forall r | 0 <= r < 3 ensures a[r] == b[r] {
      assert forall c :: 0 <= c < 3 ==> a[r][c] == b[r][c];
    }
  }

  /**
   * The reference definition: each cell holds the number of occurrences of
   * exactly one zone code, the code `CellZone(r, c)`.
   */
  lemma {:induction false} CountsTally(zones: seq<int>, r: nat, c: nat)
    requires r < 3 && c < 3
    ensures Counts(zones)[r][c] == multiset(zones)[CellZone(r, c)]
  {
    if zones != [] {
      var init, last := zones[..|zones| - 1], zones[|zones| - 1];
      assert zones == init + [last];
      CountsTally(init, r, c);
      ZoneCellIff(last, r, c);
    }
  }

  /** Empty input gives the all-zero matrix. */
  lemma CountsEmpty()
    ensures Counts([]) == [[0, 0, 0], [0, 0, 0], [0, 0, 0]]
  {
  }

  /** Order independence: the matrix depends only on the multiset of codes. */
  lemma CountsPermutation(a: seq<int>, b: seq<int>)
    requires multiset(a) == multiset(b)
    ensures Counts(a) == Counts(b)
  {
    forall r, c | 0 <= r < 3 && 0 <= c < 3 ensures Counts(a)[r][c] == Counts(b)[r][c] {
      CountsTally(a, r, c);
      CountsTally(b, r, c);
    }
    GridExt(Counts(a), Counts(b));
  }

  /**
   * Inserting one code anywhere in the input: an in-zone code adds one to its
   * own cell and leaves the other eight unchanged; any other code changes nothing.
   */
  lemma CountsInsert(a: seq<int>, z: int, b: seq<int>)
    ensures forall r, c :: 0 <= r < 3 && 0 <= c < 3 ==>
              Counts(a + [z] + b)[r][c]
                == Counts(a + b)[r][c] + (if InStrikeZone(z) && ZoneCell(z) == (r, c) then 1 else 0)
    ensures !InStrikeZone(z) ==> Counts(a + [z] + b) == Counts(a + b)
  {
    forall r, c | 0 <= r < 3 && 0 <= c < 3
      ensures Counts(a + [z] + b)[r][c]
                == Counts(a + b)[r][c] + (if InStrikeZone(z) && ZoneCell(z) == (r, c) then 1 else 0)
    {
      CountsTally(a + [z] + b, r, c);
      CountsTally(a + b, r, c);
      assert multiset(a + [z] + b) == multiset(a + b) + multiset{z};
      ZoneCellIff(z, r, c);
    }
    if !InStrikeZone(z) {
      GridExt(Counts(a + [z] + b), Counts(a + b));
    }
  }

  /** Conservation: the cells add up to the number of codes in 1..9, so no cell exceeds it. */
  lemma {:induction false} CountsConservation(zones: seq<int>)
    ensures Total(Counts(zones)) == InZoneCount(zones)
    ensures forall r, c :: 0 <= r < 3 && 0 <= c < 3 ==> Counts(zones)[r][c] <= InZoneCount(zones)
  {
    if zones != [] {
      var init, last := zones[..|zones| - 1], zones[|zones| - 1];
      CountsConservation(init);
      TotalBump(Counts(init), last);
    }
  }

  /** How often each code occurs in the worked example. */
  lemma ExampleOccurrences(zones: seq<int>)
    requires zones == [1, 1, 5, 9, 9, 9, 11]
    ensures multiset(zones)[1] == 2 && multiset(zones)[5] == 1 && multiset(zones)[9] == 3
    ensures forall z :: z in {2, 3, 4, 6, 7, 8} ==> multiset(zones)[z] == 0
  {
    assert multiset(zones) == multiset{1, 1, 5, 9, 9, 9, 11};
  }

  /** The worked example: zones [1, 1, 5, 9, 9, 9, 11]. */
  lemma CountsExample(zones: seq<int>)
    requires zones == [1, 1, 5, 9, 9, 9, 11]
    ensures Counts(zones) == [[0, 1, 0], [0, 0, 0], [2, 0, 3]]
  {
    ExampleOccurrences(zones);
    var expected := [[0, 1, 0], [0, 0, 0], [2, 0, 3]];
    forall r, c | 0 <= r < 3 && 0 <= c < 3 ensures Counts(zones)[r][c] == expected[r][c] {
      CountsTally(zones, r, c);
    }
    GridExt(Counts(zones), expected);
  }
}
