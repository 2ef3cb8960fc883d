# NoGo board and solver, modelled in Dafny

This project models the core of a NoGo player that speaks GTP (the Go Text Protocol). NoGo is
played on Go boards. A move is illegal if it would capture an opponent block or leave the mover's
own block without a liberty. A player with no legal move loses.

The model covers:

- **The board** (`GoBoard`, `Geometry`, `Stones`): a padded one-dimensional array of
  `(n + 1)`-wide rows, `reset`, `play_move`/`undo_move`, the empty-point list, the neighbour
  table and the eye test.
- **Blocks and liberties** (`Blocks`, `Liberties`): the two depth-first liberty searches used
  by `is_legal`, proved against a reachability definition of a block.
- **Legality** (`Legality`): `is_legal` itself. It is proved equal to the block-based rule the
  source keeps as `is_legal_original`.
- **The transposition table** (`TTable`, `Symmetry`, `Counting`): a map from position keys to
  winners. `set_tt_entry` writes one result under the keys of all eight rotations and mirror
  images. `get_tt_entry` reads back under the plain row-major key.
- **Move generation** (`Moves`): `generate_legal_moves`, `generate_random_moves` (with and
  without the eye filter) and `prioritize_legal_moves`.
- **The solver and GTP helpers** (`Solver`, `Coords`): `get_outcome`, `solve_cmd`, and the
  coordinate and colour conversions.

The board is an immutable value. `is_legal`, `get_outcome` and the move generators mutate the
board and put it back; here they return the board they leave behind, and the contracts say it
equals the input. `is_legal` on an occupied point overwrites the stone with Empty
(`Legality.IsLegal` states this); its callers only pass Empty points. The CPU-time limit of the
solver is a budget of search calls. The iteration order of a Python `set` is any choice from the
set.

The search also writes many table entries besides the root's. The `Counting` module proves that
every rotation or mirror image of a position has the same number of Empty points. It follows that
a search below a position, which writes only positions with fewer Empty points, never overwrites
that position's own entry.

## Model

| member | source | states |
|---|---|---|
| GoBoard.Reset | assignment2/board.py:225-241 | a reset board of size n is valid, Black is to play, every interior point is Empty and every other index is border |
| GoBoard.InitializeEmptyPoints | assignment2/board.py:425-434 | writing Empty on each row segment of the all-border array leaves Empty exactly on the interior points and border everywhere else |
| GoBoard.RowSegment | assignment2/board.py:419-422 | the n indices starting at `row_start(row)` are exactly the interior points of that row |
| GoBoard.ResetNeighborTable | assignment2/board.py:436-453 | on a freshly reset board a neighbour-table entry is the point's list of interior neighbours, in `_neighbors` order |
| Geometry.NonBorderPointsComplete | assignment2/board.py:236-237 | every interior point occurs in the list of non-border points, at its row-major index |
| Geometry.NeighborsInBounds | assignment2/board.py:566-575 | the four orthogonal and the four diagonal neighbours of an interior point are indices of the array |
| Geometry.NonBorderNeighborsSymmetric | assignment2/board.py:436-453 | the neighbour table lists only interior points, and q is listed for p exactly when p is listed for q |
| GoBoard.PlayMove | assignment2/board.py:548-554 | the played point holds the stone and every other point is unchanged |
| GoBoard.UndoMove | assignment2/board.py:544-545 | the point becomes Empty and every other point is unchanged |
| GoBoard.UndoPlay | assignment2/board.py:544-554 | undoing a stone played on an Empty point restores the board exactly |
| GoBoard.EmptyPoints | assignment2/board.py:408-413 | the list holds exactly the interior Empty points, in strictly increasing order |
| GoBoard.SurroundedBy | assignment2/board.py:480-489 | true exactly when every listed neighbour is border or holds the colour |
| GoBoard.DiagonalScanCounts | assignment2/board.py:464-470 | the diagonal loop counts the opponent stones among the diagonals and flags whether one diagonal is border |
| GoBoard.IsEyeSpec | assignment2/board.py:456-471 | a point is an eye only if its four orthogonal neighbours are border or own stones; if they are, it is an eye exactly when no diagonal is the opponent's (at the edge) or at most one is (in the centre) |
| Blocks.ComponentSpec | assignment2/board.py:514-530 | the block of a stone contains it, has only its colour, and is closed under same-coloured neighbours |
| Blocks.ComponentMinimal | assignment2/board.py:514-530 | the block is contained in every closed set that contains the stone, so it is the least one |
| Blocks.ComponentSame | assignment2/board.py:514-530 | every stone of a block has that same block |
| Liberties.SimpleSearchCorrect | assignment2/board.py:366-386 | the simple search from a block stone keeps its visited set inside the block, and a false answer means every visited stone has all neighbours settled |
| Liberties.SimpleSearchDecides | assignment2/board.py:366-386 | from an empty visited set, the simple search answers true exactly when the stone's block has a liberty, and on false it has visited the whole block |
| Liberties.LibertySearchCorrect | assignment2/board.py:388-406 | the liberty-set search keeps the same invariant when it may stop early at a stone already known to have a liberty |
| Liberties.LibertySearchDecides | assignment2/board.py:388-406 | the liberty-set search answers true exactly when the block has a liberty; on true, every visited stone may join the liberty set, and on false it has visited the whole block |
| Legality.IsLegal | assignment2/board.py:300-364 | the board left behind has the point Empty and every other point unchanged; it equals the input exactly when the point was Empty |
| Legality.OwnPartCorrect | assignment2/board.py:325-345 | the own-block half (an Empty neighbour, or a same-coloured neighbour whose block has a liberty) holds exactly when the new stone's block has a liberty |
| Legality.OppPartCorrect | assignment2/board.py:347-361 | the opponent half holds exactly when every adjacent opponent block keeps a liberty |
| Legality.IsLegalSpec | assignment2/board.py:300-364 | `is_legal` is true exactly when, after placing the stone, its block has a liberty and so has every adjacent opponent block |
| Legality.IsLegalMatchesOriginal | assignment2/board.py:260-297 | on an Empty point the search-based test agrees with the block-based `is_legal_original` and leaves the board unchanged |
| Legality.SurroundedByOpponentIllegal | assignment2/board.py:325-331 | a point whose four neighbours are border or opponent stones is illegal |
| TTable.KeyOfAt | assignment2/board.py:161-169 | cell (i, j) of a position's key is the stone at row i+1, column j+1 |
| TTable.SubArrays | assignment2/board.py:65-71 | there are n row and n column sub-arrays of n points; entry j of row sub-array i is the point at row i+1, column j+1, and entry j of column sub-array i is the point at row j+1, column i+1 |
| TTable.WrittenKeys | assignment2/board.py:73-96 | the eight keys `set_tt_entry` writes are exactly the keys of the eight rotations and mirror images of the position |
| TTable.SetEntrySpec | assignment2/board.py:73-96 | recording a result adds the eight image keys, maps each of them to the colour, and keeps every other entry |
| TTable.GetAfterSet | assignment2/board.py:73-96 | after a position is recorded, looking it up gives the recorded colour |
| TTable.GetSymmetricAfterSet | assignment2/board.py:73-96 | after a position is recorded, every rotation or mirror image of it looks up to the same colour |
| TTable.SymmetricHit | assignment2/board.py:73-96 | a result recorded for any image of a position is found when the position itself is looked up |
| TTable.SameKeyImages | assignment2/board.py:161-169 | two positions with the same key have images with the same key under every symmetry |
| TTable.ClosedAfterSet | assignment2/board.py:73-96 | recording a position keeps a closed table closed (every recorded position has all its images recorded), so every table built from an empty one is closed |
| TTable.FreshApart | assignment2/board.py:73-96 | in a closed table, a position with no entry has none of its images recorded |
| TTable.FreshSetExtends | assignment2/board.py:73-96 | in a closed table, recording a position that has no entry keeps every existing entry |
| TTable.ImagesSpec | assignment2/board.py:73-96 | a key is among those written for a position exactly when it is the key of some symmetric image |
| Symmetry.TransformCompose | assignment2/board.py:73-96 | an image of an image of a position is itself one of its eight images |
| Symmetry.TransformInverse | assignment2/board.py:73-96 | each of the eight symmetries has an inverse that gives the board back |
| Counting.TransformEmptyCount | assignment2/board.py:73-96 | a rotation or mirror image has as many Empty points as the position |
| Counting.SetEntryElsewhere | assignment2/board.py:73-96 | recording a position leaves the entry of every position with a different number of Empty points unchanged |
| Moves.FilterEmptyPoints | assignment2/board_util.py:85-99 | the loop over the empty points keeps exactly the points the filter accepts, in order, and leaves the board unchanged |
| Moves.KeepMembers | assignment2/board_util.py:92-98 | a point is kept exactly when it is an input point, interior, not an own eye when the eye filter is on, and legal |
| Moves.KeepIncreasing | assignment2/board_util.py:92-98 | filtering a strictly increasing list keeps it strictly increasing |
| Moves.GenerateLegalMoves | assignment2/board_util.py:16-35 | the list is the empty-point list filtered by `is_legal` alone, in its order; it holds exactly the interior points where the block-based rule allows the move, in increasing order, and the board is unchanged |
| Moves.GenerateRandomMoves | assignment2/board_util.py:85-99 | the list holds exactly the legal interior points that are not own eyes when the eye filter is on, in empty-point order, and the board is unchanged; with the filter off it is the list `generate_legal_moves` gives for the player to move |
| Moves.PrioritizeLegalMoves | assignment2/board_util.py:39-57 | the loop builds the non-eye moves in reverse order followed by the eye moves in order |
| Moves.EyeSplitMultiset | assignment2/board_util.py:51-57 | the non-eye and eye parts together are a permutation of the input |
| Moves.PrioritizeSpec | assignment2/board_util.py:39-57 | the result is a permutation of the input moves, and every non-eye move comes before every eye move |
| Solver.FrontierAfterPlay | assignment2/gtp_connection.py:461-464 | after a frontier point is played, the frontier minus that point is still all Empty interior points, and it is strictly smaller |
| Solver.TryMove | assignment2/gtp_connection.py:445-477 | one step of the loop: a win means the move is legal and both the child and the position are recorded as won by the mover; a cut-off happens only when the budget is used up; the position's entry is not touched otherwise; after a win every rotation and mirror image of the position is recorded as won by the mover; a legal move that does not win leaves its position recorded as won by the opponent; on a closed table the table stays closed, only the position's own images may be overwritten, and without a win every entry is kept |
| Solver.GetOutcome | assignment2/gtp_connection.py:433-479 | a returned move is a frontier point, legal, and its position is recorded as won by the mover, as is the current position; with no move and no cut-off, the position is recorded as won by the opponent; an empty frontier is a loss; a cut-off happens only when the budget is used up, and no budget is a cut-off that leaves the table alone; a cut-off leaves the position's entry as it was; every rotation and mirror image of a decided position has its verdict; the board comes back unchanged; on a closed table the table stays closed, nothing outside the position's own images is overwritten, a cut-off keeps every entry, and with no move and no cut-off every legal frontier move's position is recorded as won by the opponent |
| Solver.SolveCmd | assignment2/gtp_connection.py:482-512 | always answers; "[unknown]" only when the budget is used up, and always when there is none; a reply naming the player to move carries a legal move recorded as a win and its vertex; a reply naming the opponent matches the table; on a position not in the table it gives the same reply as the code as written; a reply other than "[unknown]" is the verdict of every rotation and mirror image of the position; on a closed table, a reply naming the opponent comes with every legal move's position recorded as won by the opponent |
| Solver.SolveCmdAsWritten | assignment2/gtp_connection.py:498-512 | the code as written fails to answer exactly when the table, after the search, records the position as won by the player to move but the search returned no move; so it always answers on a position not yet in the table, and fails with no time left on a position the table already records as won by the player to move |
| Solver.RecordedRootWin | assignment2/gtp_connection.py:498-512 | recording a position as won by the player to move makes the table hold such an entry, which is the state in which `solve_cmd` as written fails |
| Solver.VertexOfInterior | assignment2/gtp_connection.py:528-560 | every interior point has a vertex string, and `move_to_coord` reads it back as the point's row and column |
| Coords.PointToCoordPt | assignment2/gtp_connection.py:528-534 | `point_to_coord` of the point at (row, col) is (row, col) |
| Coords.FormatPoint | assignment2/gtp_connection.py:537-544 | `format_point` succeeds exactly for the columns Python's indexing accepts, -24 to 25 |
| Coords.MoveToCoordFormat | assignment2/gtp_connection.py:537-560 | `move_to_coord(format_point((row, col)))` is (row, col) for every column 1 to 25 |
| Coords.ParseIntToString | assignment2/gtp_connection.py:547-560 | `int(str(i))` is i, the row parsing `move_to_coord` relies on |
| Coords.ColorToInt | assignment2/gtp_connection.py:562-566 | `color_to_int` knows exactly the names "b", "w", "e" and "BORDER"; any other name raises |
| Coords.ColorNames | assignment2/gtp_connection.py:562-571 | the two colour tables agree: a colour read back through its first letter or its name gives the colour, and "b"/"w" are the first letters of the names they stand for |

## Left out

- GTP command parsing, `respond`, every other command and all printing are left out: they are I/O.
- The CPU clock is left out. The time limit is a budget of search calls, and a call that finds no
  budget left is the time-out.
- `get_all_outcomes` is left out: it is never called, because its only call is commented out.
- The `genmove` fallback to the engine's own move is left out: the engine is outside the solver.
- `generate_random_move` is left out, because it shuffles with a random generator. `generate_random_moves`,
  which uses the same test without the shuffle, is modelled.
- Komi, the text display and `get_twoD_board` are left out: they are display only.
- `copy`, `is_in_own_eye` and `last_board_moves` are left out: no modelled operation calls them.
- `_detect_and_process_capture`, `_block_of` and `_has_liberty` appear only through the block-based
  rule `IsLegalOriginal`, because the `is_legal_original` that calls them is commented out.
- The default table shared by every board (a mutable default argument) is an explicit map passed
  to and returned from each operation.
- Board sizes outside 2 to 25 are not modelled. The `boardsize` command passes any integer to
  `reset`, which checks nothing; only the board's constructor asserts the range.
- board_base.py is not part of this model. The colour codes Empty 0, Black 1, White 2 and Border 3,
  the array size `n*n + 3*(n + 1)`, and the largest size 25 are taken as that file usually defines them.
- Python's Unicode `str.lower()` is modelled on ASCII letters only. `int()` is modelled on an
  optional sign and decimal digits, without whitespace or underscores.
- Solver.GetOutcome: that every legal move's position is recorded as won by the opponent, and
  that no entry outside the position's own images is overwritten, are stated for closed tables
  only (`TTable.Closed`: every recorded position has all its images recorded). The program's
  table is always closed, because it starts empty and `set_tt_entry` writes whole sets of images
  (`TTable.ClosedEmpty`, `TTable.ClosedAfterSet`). The model's table type admits any map, and in
  a map that is not closed a later write could overwrite a child's entry.
- Solver.SolveCmd: the contract does not claim that the reported winner wins under perfect play;
  it states what the table holds for the position after the search. That entry need not come
  from this search. A key holds the stones only, not the player to move, and the one table is
  kept across `reset` and `play` (assignment2/board.py:34, 73-96, 161-169). So an entry may be
  a verdict an earlier search recorded for the same stones with the other player to move, and
  `get_outcome` trusts such entries for child positions too.

## Findings

| source | as written | input that shows it | evidently intended | confidence | as-written member | corrected member |
|---|---|---|---|---|---|---|
| assignment2/gtp_connection.py:498-512 | `solve_cmd` reads the winner from the table after the search, even if the search timed out. When the table names the player to move, it formats the move `get_outcome` returned, which is `None` after a time-out, so `point_to_coord(None)` raises | solve a position that the player to move wins, with enough time, so the table records it as won by that player; then set a time limit that has run out before the first check (for instance `timelimit 0`) and `solve` the same position again. In the model: table `SetEntry(map[], b, b.toPlay)`, budget 0 | a search that was cut off answers "[unknown]" | not executed | Solver.SolveCmdAsWritten | Solver.SolveCmd |
