# Strike-zone count matrix

This project models the hand-written core of a baseball analytics dashboard:
`create_count_matrix` in `dashboard/shared.py`. The function takes a column of
pitch zone codes and returns the 3×3 count matrix that the dashboard draws as a
strike-zone heat map. It starts from an all-zero matrix. It skips every code
outside 1..9. For each other code it adds one to the cell at row `z // 3 - 1`
and column `(z - 1) % 3 + 1 - 1`, under Python's list indexing.

Everything lives in `shared.dfy`, module `Shared`:

- `ZoneCell` is the cell arithmetic, written out literally. `PyIndex` gives
  Python's negative-index rule, so the row expression -1 (zones 1 and 2) means the last row.
- `CellZone` is its inverse: the one zone code counted in a given cell.
- `Counts` is the pure specification of the loop: the matrix after a prefix of
  the input has been consumed. `Bump` is one loop step.
- `CreateCountMatrix` is the loop itself. The matrix is a local list of lists,
  modelled as a `seq<seq<int>>` that each step updates, exactly as
  `matrix[row-1][col-1] += 1` does. Its loop invariant ties the partial matrix
  to `Counts` of the consumed prefix.
- The lemmas prove the properties of `Counts`: the multiset tally,
  conservation, exclusion, the one-cell increment, order independence, empty
  input and the worked example.

The input is the `zone` column of the data frame, as a `seq<int>`. The function
reads no other column.

The statistics provider numbers zones 1–9 row by row, with 1, 2, 3 on top. The
code's arithmetic does not reproduce that layout, and this model follows the
code:

| zone | 1 | 2 | 3 | 4 | 5 | 6 | 7 | 8 | 9 |
|---|---|---|---|---|---|---|---|---|---|
| cell (row, col) | (2,0) | (2,1) | (0,2) | (0,0) | (0,1) | (1,2) | (1,0) | (1,1) | (2,2) |

So zones `[1, 1, 5, 9, 9, 9, 11]` give `[[0,1,0],[0,0,0],[2,0,3]]`, not the
provider-layout `[[2,0,0],[0,1,0],[0,0,3]]`. Either way the map is a bijection from
the nine codes onto the nine cells, so every cell still counts exactly one code.

## Model

| member | source | states |
|---|---|---|
| `Shared.CreateCountMatrix` | dashboard/shared.py:20-30 | The returned matrix is `Counts(zones)`: the zero matrix, with one added for each code in 1..9 at its cell and with the other codes skipped. |
| `Shared.Counts` | dashboard/shared.py:20-28 | The matrix for any input has three rows of three cells, and no cell is negative. |
| `Shared.ZeroGrid` | dashboard/shared.py:20-22 | The starting matrix is 3×3 with every cell zero. |
| `Shared.PyIndex` | dashboard/shared.py:28 | An index in -n..n-1 addresses a slot below n, either itself or, when negative, counted from the end. |
| `Shared.ZoneCell` | dashboard/shared.py:26-28 | Every code in 1..9 maps to a row and a column in 0..2. |
| `Shared.ZoneIndexRange` | dashboard/shared.py:26-28 | The raw row index `z // 3 - 1` lies in -1..2 and is -1 exactly for zones 1 and 2. The raw column index lies in 0..2. |
| `Shared.ZoneCellTable` | dashboard/shared.py:26-28 | The cell of each of the nine codes, as in the table above. |
| `Shared.CellZone` | dashboard/shared.py:17 | Every cell is the image of some code in 1..9, so `ZoneCell` is onto the nine cells. |
| `Shared.ZoneCellInjective` | dashboard/shared.py:17 | `CellZone` undoes `ZoneCell`, so no two codes share a cell. |
| `Shared.ZoneCellIff` | dashboard/shared.py:25-28 | A code lands in cell (r, c) if and only if it is `CellZone(r, c)`. |
| `Shared.Bump` | dashboard/shared.py:25-28 | One step adds one to the cell of an in-zone code and leaves the other eight cells alone. A code outside 1..9 leaves all cells alone. |
| `Shared.CountsTally` | dashboard/shared.py:17 | Cell (r, c) holds the number of occurrences of code `CellZone(r, c)` in the input: "the counts of each number". |
| `Shared.CountsEmpty` | dashboard/shared.py:20-22 | Empty input yields the all-zero matrix. |
| `Shared.CountsPermutation` | dashboard/shared.py:24-28 | Two inputs with the same multiset of codes yield the same matrix, so order does not matter. |
| `Shared.CountsInsert` | dashboard/shared.py:25-28 | Inserting a code anywhere in the input adds one to its own cell and nothing elsewhere if it is in 1..9. Otherwise it gives the same matrix as leaving it out. |
| `Shared.CountsConservation` | dashboard/shared.py:24-28 | The nine cells sum to the number of codes in 1..9, and no cell exceeds that number. |
| `Shared.TotalBump` | dashboard/shared.py:25-28 | One step adds one to the sum of the cells when the code is in 1..9, and nothing otherwise. |
| `Shared.CountsExample` | dashboard/shared.py:20-30 | Zones `[1,1,5,9,9,9,11]` give `[[0,1,0],[0,0,0],[2,0,3]]`. |

## Left out

- The module-level CSV load that builds the pitcher list (`dashboard/shared.py:5-7`): file I/O through pandas.
- `dashboard/app.py` and `dashboard/old_app.py`: reactive UI wiring, network and cache calls to the statistics provider, pandas filtering, float means and plotting. They only call `create_count_matrix`.
- Float, NaN and non-numeric zone values: zones are modelled as integers only. A pandas zone column can be float-typed, and a missing zone is then NaN. The range test `1 <= nan <= 9` is false, so a NaN is skipped with no error. A fractional value in 1..9, such as 2.5, passes the test, and `int()` then truncates the row and column values, so 2.5 is counted in cell (2,1). Only a non-numeric value (a string, `None`, pandas `NA`) makes the range test raise an error. The model has no error path and no float arithmetic.
- The data frame itself: the model takes the `zone` column as a sequence and does not model the other columns or the indexing `df["zone"]`.
