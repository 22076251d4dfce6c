# Toll-pricing pipeline, modelled in Dafny

`python_section_2.py` is a five-stage toll-pricing pipeline over tables of
road segments. This project models the five stages and proves what each one
promises:

1. `calculate_distance_matrix` (module `DistanceMatrix`, `distance_matrix.dfy`)
   collects the location labels in first-seen order. It fills an n×n matrix
   with infinity and a zero diagonal, then writes every edge in both
   directions, so the last edge joining a pair wins. Finally it runs the
   Floyd–Warshall triple loop in place on the matrix. The model:
   - `CalculateDistanceMatrix` and `FloydWarshall` work on an `array2<Dist>`.
   - `Dist = Fin(r) | Inf` stands for the float matrix, with `Less` as IEEE `<`.
   - Both methods are proved equal, cell by cell, to the textbook closure
     `Closure(edges, locs, k, i, j)`.
   - On that closure, lemmas prove symmetry, the triangle inequality, the
     zero diagonal, monotone decrease and last-write-wins. Locations that no
     chain of edges joins stay at infinity.
2. `unroll_distance_matrix` (module `Unroll`, `unroll.dfy`) scans the matrix
   row by row, in nested loops. It emits `(id_start, id_end, distance)` for
   every finite entry whose two labels differ. `UnrollDistanceMatrix` is
   proved equal to the specification `Unroll`. Lemmas on `Unroll` prove:
   - exactly one row per emitted cell;
   - no self pairs;
   - the row count equals the number of finite off-diagonal cells;
   - row-major order;
   - mirrored rows for a symmetric matrix.
3. `find_ids_within_ten_percentage_threshold` (module `Proximity`,
   `proximity.dfy`) is pure. It takes the reference id's mean distance and
   each start id's mean, keeps the ids inside the closed window
   [0.9·ref, 1.1·ref], and sorts them ascending.
4. `calculate_toll_rate` (module `TollRates`, `toll_rates.dfy`) loops over the
   coefficient table. For each vehicle it adds a price column equal to
   distance × coefficient.
5. `calculate_time_based_toll_rates` (module `TimeBands`, `time_bands.dfy`)
   expands every priced row over the seven days:
   - each weekday gets three bands, with factors 0.8, 1.2 and 0.8;
   - each weekend day gets 24 hourly rows, with factor 0.7.

   The loops are methods proved equal to `Schedule`. `ScheduleAt` gives row
   `t` of the expansion in closed form. A row that lacks a price column
   makes the method return `Err(MissingColumn(row, column))`, which is the
   `KeyError` the code raises.

`sequences.dfy` (module `Sequences`) holds the shared list helpers:
first-seen de-duplication (`unique`, `groupby` keys), label lookup (`.at`)
and ascending order (`sort_values`).

Where the code and its intended design differ, the model follows the code:

- A weekend row has `start_time == end_time == hour:00`; it is not a
  one-hour window.
- The proximity result rows are `(id_start, mean distance)`, not bare ids.
- A reference id that starts no row gives a NaN mean, so nothing passes the
  window. The result is then empty; no error is raised.
- An edge from a location to itself overwrites the zero diagonal. The
  diagonal is proved zero only for edge sets without such edges
  (`NoSelfLoops`).
- Negative distances are not rejected.

## Model

| member | source | states |
|---|---|---|
| Sequences.IndexOf | python_section_2.py:35-36 | the position found holds the label and is its first occurrence |
| Sequences.IndexOfNoDup | python_section_2.py:35-36 | among distinct labels, label lookup returns the label's own position |
| Sequences.Dedup | python_section_2.py:24 | `unique` yields no repeated value and exactly the values of its input |
| Sequences.DedupAppendOne | python_section_2.py:24 | a further value is appended exactly when it has not been seen before |
| Sequences.IndexOfAppend | python_section_2.py:24 | appending values never moves the first occurrence of an earlier value |
| Sequences.DedupKeepsFirstSeenOrder | python_section_2.py:24 | the distinct values come in the order of their first occurrence |
| Sequences.InsertAscending | python_section_2.py:113 | inserting into a strictly ascending list keeps it strictly ascending, adding exactly that value |
| Sequences.SortAscending | python_section_2.py:113 | sorting distinct keys gives a strictly ascending list of exactly those keys |
| DistanceMatrix.Locations | python_section_2.py:24 | the labels are distinct and are exactly the From and To values of the edges |
| DistanceMatrix.DirectLastWins | python_section_2.py:34-36 | for duplicate edges the filled entry is the distance of the last edge joining the pair |
| DistanceMatrix.DirectSymmetric | python_section_2.py:35-36 | writing each edge both ways makes the filled matrix symmetric |
| DistanceMatrix.DirectNonNegative | python_section_2.py:34-36 | with non-negative edge distances every filled entry is non-negative |
| DistanceMatrix.DirectDiagonal | python_section_2.py:31-36 | without self-loop edges the diagonal keeps the zero it was filled with |
| DistanceMatrix.DirectWritten | python_section_2.py:34-36 | writing one edge into cells (a, b) and (b, a) extends the filled matrix by that edge and changes no other cell |
| DistanceMatrix.ClosureNonNegative | python_section_2.py:39-43 | no relaxation phase makes an entry negative |
| DistanceMatrix.ClosurePivotStable | python_section_2.py:39-43 | phase k leaves row k and column k unchanged, so relaxing in place computes the textbook closure |
| DistanceMatrix.ClosureSymmetric | python_section_2.py:35-43 | the matrix is symmetric after every phase |
| DistanceMatrix.ClosureAtMostDirect | python_section_2.py:42-43 | relaxation only lowers entries: each is at most the directly written distance |
| DistanceMatrix.ClosureAtMostLastEdge | python_section_2.py:34-43 | a pair joined by duplicate edges ends at most at the last such edge's distance |
| DistanceMatrix.ClosureDiagonal | python_section_2.py:31-43 | without self-loops and with non-negative edges the diagonal stays exactly zero |
| DistanceMatrix.ClosureTriangle | python_section_2.py:39-43 | after phase m, M[i][j] ≤ M[i][k] + M[k][j] for every intermediate k below m |
| DistanceMatrix.RelaxKeepsTriangle | python_section_2.py:42-43 | one phase through a new pivot keeps the triangle inequality through an earlier pivot |
| DistanceMatrix.ClosedMatrixProperties | python_section_2.py:39-43 | the final matrix is symmetric and satisfies the triangle inequality for all i, j, k |
| DistanceMatrix.DirectCut | python_section_2.py:28-36 | two labels on opposite sides of a cut that no edge crosses keep the infinity they were filled with |
| DistanceMatrix.ClosureCut | python_section_2.py:28-43 | locations that no chain of edges joins (opposite sides of a cut no edge crosses) stay at infinity after every relaxation phase |
| DistanceMatrix.RelaxRow | python_section_2.py:41-43 | relaxing row i through pivot k brings that row to phase k + 1 and leaves the other rows where they were |
| DistanceMatrix.FloydWarshall | python_section_2.py:39-43 | the in-place triple loop leaves every cell equal to the closure, and no cell larger than it was |
| DistanceMatrix.CalculateDistanceMatrix | python_section_2.py:13-45 | labels as `unique` gives them, an n×n matrix, and every cell equal to the closure of the filled matrix |
| DistanceMatrix.ExampleLocations | python_section_2.py:24 | edges A–B and B–C give the labels A, B, C |
| DistanceMatrix.ExampleDirect | python_section_2.py:34-36 | edges A–B of 10 and B–C of 5 fill A–B both ways with 10, B–C with 5, and leave A–C infinite |
| DistanceMatrix.ClosureExample | python_section_2.py:13-45 | those edges close to A–C = C–A = 15, with a zero diagonal |
| Unroll.UnrollDistanceMatrix | python_section_2.py:52-76 | the nested loops produce exactly the row-major scan of the matrix |
| Unroll.RowRowsMembers | python_section_2.py:67-71 | one matrix row emits exactly the pairs of its cells that have different labels and a finite entry |
| Unroll.UnrolledMembers | python_section_2.py:66-71 | the first i matrix rows emit exactly the pairs of their emitting cells |
| Unroll.UnrollMembers | python_section_2.py:66-71 | the table holds exactly one row per emitting cell, and no row pairs a label with itself |
| Unroll.OrderedConcat | python_section_2.py:66-71 | appending rows that all come later keeps the table in row-major order |
| Unroll.RowRowsOrdered | python_section_2.py:67-71 | a matrix row emits its pairs in column order |
| Unroll.UnrolledOrdered | python_section_2.py:66-71 | the first i matrix rows emit in row-major order, all with start labels before row i |
| Unroll.UnrollOrder | python_section_2.py:66-71 | the whole table is in row-major order over the label order |
| Unroll.RowRowsCount | python_section_2.py:67-71 | a matrix row emits as many pairs as it has finite off-diagonal cells |
| Unroll.UnrolledCount | python_section_2.py:66-71 | the first i matrix rows emit as many pairs as they have finite off-diagonal cells |
| Unroll.FiniteInRowSize | python_section_2.py:68-70 | the set of finite off-diagonal cells of a row has the size counted |
| Unroll.FiniteCellsSplit | python_section_2.py:66-70 | the cells of the first i rows split into those of the first i - 1 rows and, disjoint from them, those of row i - 1 |
| Unroll.FiniteBeforeSize | python_section_2.py:66-70 | the set of finite off-diagonal cells of the first i rows has the size counted |
| Unroll.UnrollCount | python_section_2.py:66-71 | the number of rows equals the number of finite off-diagonal matrix entries |
| Unroll.UnrollMirrored | python_section_2.py:66-71 | a symmetric matrix unrolls into mirrored pairs with equal distances |
| Unroll.UnrollClosure | python_section_2.py:66-71 | unrolling the closed matrix gives non-negative distances, each pair together with its mirror |
| Proximity.DistancesFromNonEmpty | python_section_2.py:99-106 | an id has distances to average exactly when it starts some row |
| Proximity.SelfWithinTenPercent | python_section_2.py:102-110 | a mean lies in its own closed window exactly when it is not negative |
| Proximity.PrependAscending | python_section_2.py:113 | putting a smaller id in front keeps the ids strictly ascending |
| Proximity.KeepWithin | python_section_2.py:106-113 | the filter keeps, in ascending order and with their means, exactly the group keys whose mean lies in the window |
| Proximity.FindIdsWithinTenPercentageThreshold | python_section_2.py:86-115 | the result ids are strictly ascending; an id is in them iff it and the reference both start rows and its mean lies in [0.9·ref, 1.1·ref]; each row carries its group's mean; the reference is in them iff its mean is non-negative |
| Proximity.SumNonNegative | python_section_2.py:99 | a sum of non-negative distances is non-negative |
| Proximity.DistancesFromNonNegative | python_section_2.py:99 | the distances averaged for an id are those of the table, so non-negative when the table's are |
| Proximity.ReferenceIncluded | python_section_2.py:99-113 | with non-negative distances the reference id is part of its own answer |
| TollRates.PricesAfterStep | python_section_2.py:146-147 | applying one coefficient adds or overwrites exactly that vehicle's price column |
| TollRates.PricesAfterAll | python_section_2.py:137-147 | after the five coefficients a row has exactly the columns moto, car, rv, bus, truck at distance × 0.8, 1.2, 1.5, 2.2, 3.6 |
| TollRates.CalculateTollRate | python_section_2.py:126-149 | same rows in the same order with ids and distance unchanged, and each of the five prices equal to distance × its coefficient |
| TimeBands.FirstMissing | python_section_2.py:202-206 | finds the first price column, in reading order, that a row lacks, or reports that none is missing |
| TimeBands.AppendDay | python_section_2.py:191-223 | a weekday appends its three band rows and a weekend day its 24 hourly rows |
| TimeBands.AppendRow | python_section_2.py:191-223 | one priced row appends the rows of all seven days in order |
| TimeBands.CalculateTimeBasedTollRates | python_section_2.py:159-228 | succeeds iff every row has all five price columns, and then returns the full expansion; otherwise names the first row lacking a column and the first column it lacks |
| TimeBands.WeekdayEntriesAt | python_section_2.py:193-207 | weekday band x gives the band's start, end and factor |
| TimeBands.WeekendEntriesAt | python_section_2.py:209-223 | weekend hour x starts and ends at x:00 with factor 0.7 |
| TimeBands.SlotWithinDay | python_section_2.py:170-223 | position x within day p of the 63 slots is band x on weekdays and hour x at weekends |
| TimeBands.DayEntriesAt | python_section_2.py:191-223 | a day contributes 3 rows on weekdays and 24 on weekend days, row x being its slot |
| TimeBands.RowEntriesLength | python_section_2.py:191-223 | the first d days of one row give 3 rows per weekday and 24 per weekend day |
| TimeBands.RowEntriesAt | python_section_2.py:191-223 | row s of one priced row's expansion is slot s |
| TimeBands.ScheduleLength | python_section_2.py:186-223 | the expansion has 63 rows per input row |
| TimeBands.ScheduleEntryAt | python_section_2.py:186-223 | output row t comes from input row t / 63, at slot t % 63 |
| TimeBands.ScheduleAt | python_section_2.py:170-223 | output row t copies its source ids, has one day as start and end, applies 0.8/1.2/0.8 across weekday bands and 0.7 on weekend hours, and weekend rows start and end at hour:00 |
| TimeBands.ScheduleExample | python_section_2.py:170-223 | a car price of 18 becomes 21.6 on Monday 10:00–18:00 and 12.6 in Saturday's first hour |

## Left out

- Reading the CSV, printing, and the unreachable lines after `return` (python_section_2.py:46-48) are I/O and dead code.
- pandas and numpy mechanics are not modelled. Tables are sequences of records and the matrix is an `array2<Dist>` indexed by label position. Grouping and sorting are stated as contracts.
- IEEE-754 rounding is not modelled: distances, coefficients and factors are exact reals, and infinity is a datatype case.
- `datetime.time` and the day names are modelled as `Time(hour, minute, second)` and a `Day` enumeration.
- The time bands are read in the weekday table's declaration order, which is Python's dictionary order.
- DistanceMatrix.CalculateDistanceMatrix: requires non-negative edge distances, which the code does not check. Non-negativity is what keeps row and column k unchanged during phase k of the in-place loop; with a negative edge the in-place result is not modelled.
- DistanceMatrix.FloydWarshall: same non-negative-edge requirement, for the same reason.
- DistanceMatrix.RelaxRow: same non-negative-edge requirement, for the same reason.
- DistanceMatrix.ClosureTriangle: proved for non-negative edges only.
- Label-based indexing with repeated labels cannot arise, because the labels come from `unique`. `fill_diagonal` on the matrix's values is taken to write through to the matrix.
- TollRates.CalculateTollRate: returns a new table rather than adding the columns to the caller's DataFrame, so aliasing of that DataFrame is not modelled.
- TimeBands.CalculateTimeBasedTollRates: a row always has its two id columns. Only missing price columns are modelled as the `KeyError` path.
- Tables with extra columns beyond the ones each stage reads are not modelled.
- A matrix with no finite off-diagonal entry unrolls to an empty table in the model. In the code it becomes `pd.DataFrame([])` (python_section_2.py:74), a frame with no columns at all. Passing that frame on makes `df['id_start']` (python_section_2.py:99) and `df['distance']` (python_section_2.py:147) raise `KeyError`. The model instead treats it as an empty table that has the columns: Proximity.FindIdsWithinTenPercentageThreshold and TollRates.CalculateTollRate return an empty result where the code raises.
