# Minesweeper board engine, modelled in Dafny

This project models the `Minesweeper` board of `src/lib.rs`, a small Rust crate. It covers four parts:

- the text-layout parser (`TryFrom<String> for Minesweeper`);
- the random constructor `Minesweeper::new`;
- the neighbour enumeration `iter_neighbors`;
- the read-only `open` query and the `num_neighbor_mines` stub.

Everything is modelled as the code is written, stubs included. `open` answers `NoMine(0)` for every non-mine cell, and `num_neighbor_mines` always answers 0.

Modules:

- `RustStr` (`rust_str.dfy`): the parts of Rust's `str` the parser uses. `char::is_whitespace` is the full Unicode White_Space set. `trim` removes that whitespace at both ends. `lines` splits at `"\n"` and `"\r\n"` and yields no empty line after a final line feed. `len` counts UTF-8 bytes.
- `Board` (`board.dfy`): the `Minesweeper` struct as a datatype with `set<(nat, nat)>` fields. It holds `open`, `num_neighbor_mines`, `iter_neighbors` as written, and a corrected neighbour enumeration, `AdjacentCells`.
- `Layout` (`layout.dfy`): the parser. `ParseFrom` follows the source's loop one row at a time. `TryFrom` states the result against independent definitions: the surviving rows, their common byte length, and the set of `'B'` cells.
- `Placement` (`placement.dfy`): `new`, as a method with a loop invariant.

`new` and the parser use different axis conventions. The parser's first coordinate is the row index, bounded by `height`. `new` draws the first coordinate from `[0, width)`. Both are modelled as written.

## Model

| member | source | states |
|---|---|---|
| RustStr.Trim | src/lib.rs:29 | The trimmed row is no longer than the line. When it is not empty, it starts and ends with a non-whitespace character. |
| RustStr.TrimBlank | src/lib.rs:29 | A line trims to the empty row exactly when it is all whitespace. |
| RustStr.TrimIsSlice | src/lib.rs:29 | The trimmed row is a contiguous slice of the line, with only whitespace before and after it. |
| RustStr.TrimIdempotent | src/lib.rs:29 | Trimming an already trimmed row changes nothing. |
| RustStr.Lines | src/lib.rs:29 | No produced line holds a line feed. Empty text, and only empty text, gives no lines. |
| RustStr.LinesOfWhitespace | src/lib.rs:29 | Text made only of whitespace splits into lines made only of whitespace. |
| RustStr.LinesRoundTrip | src/lib.rs:29 | For text without carriage returns, putting the lines back together with line feeds gives the text again. The only change is one added final line feed. |
| RustStr.UnlinesRoundTrip | src/lib.rs:29 | Lines without line feeds and without a trailing carriage return, each ended by a line feed, split back into exactly those lines, whatever text follows. |
| RustStr.ByteLen | src/lib.rs:34-36 | `l.len()` is at least the number of characters and at most four times that. It equals the character count exactly when every character is ASCII. |
| Layout.TrimAll | src/lib.rs:29 | `map(trim)` keeps the number of lines, and entry k is line k trimmed. |
| Layout.NonEmpty | src/lib.rs:29 | `filter(l != "")` keeps no more lines than it is given, and every line it keeps is non-empty. It keeps nothing exactly when every line is empty. The lines it keeps are exactly the non-empty lines it is given. |
| Layout.NonEmptyKeepsAll | src/lib.rs:29 | Filtering lines that are all non-empty changes nothing. |
| Layout.NonEmptyAppend | src/lib.rs:29 | The filter works line by line, so it distributes over concatenation. |
| Layout.TrimAllAppend | src/lib.rs:29 | Trimming works line by line, so it distributes over concatenation. |
| Layout.NonBlankTrimmed | src/lib.rs:29 | Every surviving row is non-empty. No row survives exactly when every line trims to nothing. |
| Layout.NonBlankTrimmedAppend | src/lib.rs:29 | Trimming and dropping blank lines, together, distribute over concatenation. |
| Layout.RowMines | src/lib.rs:41-45 | The inner loop over row `i` inserts `(i, j)` for exactly the character positions `j` that hold `'B'`. |
| Layout.ParseFrom | src/lib.rs:30-47 | The loop with `width`, `height` and `mines` as they stand at row `i` fails with the row-length message exactly when some row's byte length differs from the first row's. Otherwise it ends with `height` = number of rows, `width` = first row's length, and the mines at exactly the `'B'` cells. |
| Layout.TryFrom | src/lib.rs:25-49 | Parsing gives `Err` exactly when the surviving rows' byte lengths differ. Otherwise it gives width = first row's byte length, height = number of rows, the mines at the `'B'` cells, and no open or flagged cells. |
| Layout.BlankLayoutIsEmptyBoard | src/lib.rs:28-35 | A layout of nothing but whitespace parses to the 0 x 0 board without mines. |
| Layout.ParsedMinesOnBoard | src/lib.rs:31-45 | Every parsed mine has row below `height` and column below `width`. |
| Layout.OpenParsedBoard | src/lib.rs:72 | On a parsed board, `open` answers `Mine` exactly at the positions of the `'B'` characters in the rows. |
| Layout.PictureRows | src/lib.rs:29 | Rows indented by any whitespace and framed by blank lines, as the tests write them, come back from the parser unchanged. |
| Layout.TryFromPicture | src/lib.rs:101-113 | The first test's picture, with any indentation, gives width 5, height 3 and mines {(0,2),(0,3),(1,0),(2,4)}. |
| Layout.TryFromUnevenRows | src/lib.rs:115-123 | The second test's rows of 6 and 4 bytes give the row-length error. |
| Board.Open | src/lib.rs:70-80 | `open` answers `Mine` exactly when the position is a mine, and `NoMine(0)` otherwise. |
| Board.OpenIgnoresSurroundings | src/lib.rs:70-80 | The answer depends only on whether the position itself is a mine. Other mines, open or flagged cells and the dimensions make no difference. |
| Board.NumNeighborMines | src/lib.rs:90-92 | The stub answers 0 on every board and position. |
| Board.IterNeighbors | src/lib.rs:82-88 | The sequence never holds the centre and has at most 8 entries. It is in strictly increasing row-major order, so it has no duplicates. It holds exactly the positions in max(x,1)-1 ..= min(x+1, width) by max(y,1)-1 ..= min(y+1, height) other than the centre. Each entry is at most one step away on each axis. |
| Board.IterNeighborsOfCorner | src/lib.rs:145-150 | On a 4 x 4 board, (0,0) gives exactly [(0,1),(1,0),(1,1)]. |
| Board.IterNeighborsOfInnerCell | src/lib.rs:152-157 | On a 4 x 4 board, (1,1) gives exactly its 8 neighbours in row-major order. |
| Board.IterNeighborsLeavesBoard | src/lib.rs:83-85 | As written, the far corner (width-1, height-1) of any non-empty board has (width, height) among its neighbours. |
| Board.IterNeighborsMissesNeighbour | src/lib.rs:83-85 | As written, on a board 2 rows high and 5 wide, (0,3) is missing from the neighbours of (0,2), although the corrected enumeration has it. |
| Board.AdjacentCells | src/lib.rs:82-88 | Corrected enumeration: exactly the positions other than the centre that lie on the board and are at most one step away on each axis. Rows are below `height` and columns below `width`. The order is strictly row-major and there are at most 8 entries. |
| Board.AdjacentCellsOfFarCorner | src/lib.rs:82-88 | On any board at least 2 x 2, the corrected enumeration gives the far corner (height-1, width-1) exactly its three on-board neighbours, in row-major order. |
| Board.AdjacentCellsOfEdge | src/lib.rs:82-88 | On any board at least 2 rows high, a first-row cell away from the side columns gets exactly its five neighbours, in row-major order. |
| Placement.GridSize | src/lib.rs:64 | The board has exactly `width * height` positions for the draws to land on. |
| Placement.New | src/lib.rs:53-68 | Finishing means exactly `mines` distinct mines, each with first coordinate below `width` and second below `height`. There are no open or flagged cells. The mines are the distinct draws consumed, and drawing stopped as soon as the count was reached. It finishes exactly when the draws hold at least `mines` distinct positions, so never when `mines > width * height`. |

## Findings

| source | as written | input that shows it | evidently intended | confidence | as-written member | corrected member |
|---|---|---|---|---|---|---|
| src/lib.rs:83-85 | Both upper ends, `min(x+1, self.width)` and `min(y+1, self.height)`, are inclusive. | On a 4 x 4 board, the neighbours of (3,3) include (4,4), which lies off the board. | Clamp to the last index, so the ranges end at `width - 1` and `height - 1`. | high; not executed | Board.IterNeighborsLeavesBoard | Board.AdjacentCells |
| src/lib.rs:83-85 | The first coordinate is bounded by `width` and the second by `height`. The parser (src/lib.rs:30-43) makes the first coordinate the row, which is bounded by `height`. `new` (src/lib.rs:64) also bounds the first coordinate by `width`, so only the parser disagrees with `iter_neighbors`. `AdjacentCells` follows the parser's convention. It fits parsed boards, but not boards from `Placement.New` when width and height differ. | On a board 2 rows high and 5 wide, the neighbours of (0,2) lack (0,3). | Bound rows by `height` and columns by `width`. | medium; not executed | Board.IterNeighborsMissesNeighbour | Board.AdjacentCells |

`Board.IterNeighbors` is kept exactly as written. The source's `open` builds the neighbour iterator and drops it unconsumed, so no other operation consumes either enumeration. `AdjacentCells` states the corrected behaviour and is proved on its own.

## Left out

- `random_range`: its source is not part of this model, and it is a pseudo-random generator. `new` receives the draws as a finite sequence instead. Each draw must lie in `[0, width) x [0, height)`, as `random_range(0, n)` promises. Nothing about their distribution is modelled.
- Placement.New: with `width == 0` or `height == 0` and `mines > 0`, the source calls `random_range(0, 0)`, whose behaviour is decided in the `random` module, which is not part of this model. The model admits no draw in that case, so `New` returns `None`, meaning "not finished". Under partial correctness, this agrees with any behaviour of `random_range` other than returning a position.
- Placement.New: termination of the rejection-sampling loop is not modelled. It is probabilistic, and with `mines > width * height` it never ends. The model stops when the draws run out, returning `None`, and proves partial correctness.
- `usize` overflow: `x + 1` in `iter_neighbors` would overflow at `usize::MAX`. Coordinates here are unbounded naturals. `Board.Open` does not model it either: on a non-mine cell, the source's `open` builds the neighbour iterator, which evaluates `x + 1`, so a debug build would panic at `x == usize::MAX`.
- `NoMine(u8)`: the model's `u8` is a newtype over 0..255 standing for Rust's primitive `u8`; only the stubbed 0 is ever produced.
- `open` takes `&self`, so it cannot change the board. The model expresses this by making `Open` a function of the board that returns only the answer.
- The `Debug` derive and the `println!` in the `new` test are output only.
- `HashSet` internals: the sets are Dafny `set<(nat, nat)>`.
- Cascading reveal, flagging and changes to `open_cells` or `flagged_cells` do not exist in the code, so they are not modelled.
