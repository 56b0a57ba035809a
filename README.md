# Antenna store — a verified Dafny model

This project models the in-memory core of a small C program that keeps the
antennas of a city grid in a singly linked list (`funcoes.c`). Each antenna
record holds a frequency character and an integer position `(x, y)`, where
`x` is the row and `y` the column. The model covers:

- **`inserirAntena`**: an ordered insert. The list stays in ascending
  `(x, y)` order and an exact duplicate (same frequency, `x` and `y`) is
  refused. The model keeps one quirk of the C walk. Suppose the head is at the
  candidate's position with another frequency. Then the ordering walk never
  moves, `anterior` stays `NULL`, and the new node is never linked in: the
  list comes back unchanged.
- **`removerAntena`**: unlinks the first record at `(x, y)` in list order,
  whatever its frequency. With no such record the list is unchanged.
- **`efeitoExiste` and `deduzirEfeitosNefastos`**: the harmful-effect scan.
  Every ordered pair of distinct nodes with one frequency is tested. A pair
  passes when it shares `x` and the `y` distance is even, or shares `y` and
  the `x` distance is even. Any even distance counts, not only a distance of
  two. Each passing pair gives its midpoint, which is added to a table unless
  it is already there. The model returns the table instead of printing it.
- **the parsing loop of `carregarAntenasDeFicheiro`**: every character of a
  line before its `'\n'` or `'\0'` that is not `'.'` becomes an antenna at
  `(row + 1, column + 1)`, inserted in row-major order. Spaces are not
  skipped: a space is an antenna of frequency `' '`.
- **`libertarMemoria`**: drops the nodes one by one from the head.

Module layout:

- `antennas.dfy` (`Antennas`): the record, the order, the pure functions
  `Inserted` and `Removed` that say what the C functions return, their
  lemmas, and the class `AntennaList`. The class holds the list as the
  sequence of its records in link order, and its methods `Insert`,
  `Remove` and `Free` mirror the C walks.
- `loader.dfy` (`Loader`): the parsing pass over given lines, proved to
  leave exactly the grid's cells in row-major order.
- `interference.dfy` (`Interference`): the scan, specified by the table it
  builds pair by pair. It comes in two versions: as written, with the
  100-row array, and with a growable table (see Findings).
- `scenarios.dfy` (`Scenarios`): the demo driver's calls in `main.c` and
  small effect cases, worked out on the model.

## Model

| member | source | states |
|---|---|---|
| Antennas.InsertPos | funcoes.c:84-90 | the ordering walk stops at the first record that is not below the candidate in (x, y); every record before it is below |
| Antennas.Inserted | funcoes.c:33-108 | an insert adds exactly one node when the candidate is linked (not an exact duplicate and no head at its position with another frequency); otherwise the length is unchanged |
| Antennas.InsertedContents | funcoes.c:58-96 | the records after an insert are the old ones plus one copy of the candidate when it is linked, and exactly the old ones otherwise |
| Antennas.InsertedRejectsDuplicate | funcoes.c:58-67 | a record with the same frequency, x and y already in the list makes the insert return the list unchanged |
| Antennas.InsertedHeadQuirk | funcoes.c:84-107 | a head at the candidate's (x, y) with any frequency leaves the list unchanged: the walk never advances and the returned list does not contain the new node |
| Antennas.InsertedPlacement | funcoes.c:45-96 | a linked node sits right after the records below it and right before the first that is not; taking it out gives back the old list in the old order (on an empty list the result is the one-node list) |
| Antennas.InsertedIndex | funcoes.c:92-96 | position by position, a linked insert keeps the records before the insert point, puts the candidate there, and shifts the rest by one |
| Antennas.InsertedSorted | funcoes.c:70-96 | inserting into a list sorted by (x, y) keeps it sorted |
| Antennas.InsertedUnique | funcoes.c:58-67 | inserting never makes two records equal in frequency, x and y |
| Antennas.InsertedAtEnd | funcoes.c:84-96 | a candidate above every record in (x, y) is appended at the tail |
| Antennas.InsertAllValid | funcoes.c:33-108 | any sequence of inserts from the empty list gives a sorted list without duplicate records |
| Antennas.InsertAllIncreasing | funcoes.c:84-96 | records inserted in strictly increasing (x, y) order are all kept, in arrival order |
| Antennas.FirstAt | funcoes.c:157-192 | the removal walk stops at the first record at (x, y), or at the end when there is none |
| Antennas.Removed | funcoes.c:156-197 | a removal deletes one node exactly when some record is at (x, y), otherwise none |
| Antennas.RemovedExactlyFirst | funcoes.c:159-197 | removal deletes exactly the first record at (x, y), whatever its frequency, and keeps the others in order; with no record there the list is unchanged |
| Antennas.RemovedContents | funcoes.c:161-170 | after a removal the records are the old ones minus one copy of the first record at (x, y) |
| Antennas.RemovedValid | funcoes.c:156-197 | removal keeps a sorted, duplicate-free list sorted and duplicate-free |
| Antennas.AntennaList.constructor | main.c:23 | a new list is empty (a NULL head) and satisfies the list invariant |
| Antennas.AntennaList.Insert | funcoes.c:33-108 | the duplicate scan, the head test and the anterior/aux walk leave exactly the list `Inserted` describes, and keep the sorted, duplicate-free invariant |
| Antennas.AntennaList.Remove | funcoes.c:156-197 | the atual/anterior walk leaves exactly the list `Removed` describes, and keeps the invariant |
| Antennas.AntennaList.Free | funcoes.c:391-397 | after freeing, the list is empty |
| Loader.LineEnd | funcoes.c:275 | the column loop stops at the first '\n' or '\0', or at the end of the line's characters |
| Loader.RowCellsSpec | funcoes.c:275-279 | one line yields exactly its non-'.' cells at (row + 1, column + 1), on one row, in increasing column order |
| Loader.GridCellsIncreasing | funcoes.c:274-281 | the first rows of the grid yield cells strictly increasing in (x, y), all on those rows |
| Loader.GridCellsMembers | funcoes.c:274-281 | an antenna comes from the first rows exactly when it is a non-'.' cell of one of them |
| Loader.CellsSpec | funcoes.c:274-281 | the parsing pass inserts in strictly increasing (x, y) order, one insert for each cell of the grid and nothing else |
| Loader.LoadStep | funcoes.c:276-277 | each non-'.' cell read lands at the tail of the list built so far |
| Loader.LoadLine | funcoes.c:275-279 | the column loop on one line appends that line's cells, in order, to a list that holds only earlier rows |
| Loader.Load | funcoes.c:269-284 | starting from the empty list, the parsing pass leaves exactly the grid's cells in row-major order, and the list invariant holds |
| Interference.TableDistinct | funcoes.c:365-370 | the table never holds a location twice |
| Interference.TableMembers | funcoes.c:353-374 | at every point of the scan, a location is in the table exactly when some pair scanned so far passes the test and has it as midpoint |
| Interference.TablePrefix | funcoes.c:365-370 | the scan only appends, so the final table lists locations in the order the scan first finds them |
| Interference.EffectsExact | funcoes.c:353-374 | the final table has no repeats, and a location is in it exactly when two distinct nodes of one frequency, aligned at an even distance, have it as midpoint |
| Interference.EffectsEmpty | funcoes.c:376-378 | "no harmful effect" (an empty table) happens exactly when no two distinct nodes pass the pair test |
| Interference.EffectExists | funcoes.c:324-331 | the result is true exactly when one of the first `total` rows of the table holds (x, y) |
| Interference.DeduceEffectsFixed | funcoes.c:344-379 | with the 100-row table: it overflows exactly when the list has more than 100 effect locations; otherwise the filled rows are the effect table, and on overflow the 100 rows are its first 100 entries |
| Interference.DeduceEffects | funcoes.c:344-379 | with a growable table: the result is the effect table, without repeats, holding exactly the effect locations |
| Interference.FixedTableOverflows | funcoes.c:349-369 | a row of 102 antennas of one frequency two columns apart has more than 100 effect locations |
| Scenarios.DriverBuild | main.c:41-46 | the driver's six inserts give A(1,6), A(2,3), A(3,3), B(4,5), A(6,3), C(7,8); the insert of A(1,6) becomes the new head |
| Scenarios.DriverRemoval | main.c:54 | removing (2, 3) from that list unlinks A(2,3) and keeps the rest in order |
| Scenarios.DriverEffects | main.c:62 | the driver's final list has no harmful effect |
| Scenarios.NeighbourPairEffect | funcoes.c:355-369 | two antennas of one frequency two columns apart give one effect, the cell between them |
| Scenarios.FarPairEffect | funcoes.c:360-362 | two antennas four rows apart also give one effect, at their midpoint |

## Left out

- Writing `antenas2.txt` from `inserirAntena` and `removerAntena` (funcoes.c:47-54, 74-80, 99-105, 174-187): file I/O. Only the in-memory list is modelled.
- Opening and reading the grid file in `carregarAntenasDeFicheiro` (funcoes.c:263-267, 274, 283): file I/O. The lines are a parameter of `Loader.Load`. A file that cannot be opened gives `NULL`, the empty list. `fgets` cuts lines longer than 255 characters into pieces, and each piece counts as a row; that is not modelled.
- `listarAntenas` (funcoes.c:298-307) and every `printf`: console output. The effect scan returns its table instead of printing it.
- `malloc` failure (funcoes.c:35-39) and `free`: allocation always succeeds. Freeing is dropping a record. In the head quirk the new node leaks, which the model does not track.
- Pointer identity: the list is the sequence of its records in link order. Two nodes are different exactly when they are at different positions of the sequence, which matches the test `a1 != a2` in the scan. Aliasing between lists is not modelled.
- C `int` overflow in the coordinates, in `dx`, `dy` and in the midpoint: integers are unbounded. For even differences, Dafny's `%` and `/` agree with C's `abs(d) % 2` and truncating `/`.
- The commented-out earlier versions (funcoes.c:114-135, 201-246): dead code.
- Interference.EffectExists: the table is passed as a sequence of points, not as an `int [][2]` array.
- Interference.DeduceEffectsFixed: at the write past the end of the 100-row array the C program has undefined behaviour. The model stops there and reports `overflow`, and says nothing about what C does next.
- Loader.LoadLine: the column loop is a method of its own rather than a loop nested inside `Load`. The behaviour is the same.
- The graph module (`grafo.c`, `grafo.h`) is not part of this model.

## Findings

| source | as written | input that shows it | evidently intended | confidence | as-written member | corrected member |
|---|---|---|---|---|---|---|
| funcoes.c:349-369 | `efeitos` has 100 rows and `efeitos[totalEfeitos]` is written with no bound check | 102 antennas of frequency 'a' at (1, 0), (1, 2), ..., (1, 202): the 101 neighbouring pairs give 101 distinct midpoints (1, 1), (1, 3), ..., (1, 201), so the 101st write is past the end of the array | a table that holds every distinct effect location | high that the write goes out of bounds; not executed | Interference.DeduceEffectsFixed, Interference.FixedTableOverflows | Interference.DeduceEffects |
