# Minesweeper solver — a Dafny model

This project models the core of a Minesweeper player:

- the game simulation and its bookkeeping solver (`minesweeper.py`);
- the screen-reading side that cuts a screenshot into cells and decides
  what each cell shows (`find_minesweeper_grid.py`);
- the glue that turns recognised cells into counts and cells into mouse
  positions (`play.py`);
- the small HTTP robot server that receives those mouse moves
  (`MinesweeperPlayer.java`).

Modules, one per file:

| file | module | models |
|---|---|---|
| `wrappers.dfy` | `Wrappers` | `Option`, `Result` and `Outcome`, which stand for "returns or raises" |
| `grid.dfy` | `Grid` | `Board`: the fixed key set, the row-major fill from a supplier, bounded get/set, `neighbor_xys` |
| `engine.dfy` | `Engine` | `Minesweeper`: `_minecount`, the recursive `_open`, `_explode`, `open`, `value_tos`/`__str__` |
| `solver.dfy` | `Solver` | `MineSolver`: the known/mines/unknowns ledger, `add_known`, `add_mine`, the bookkeeping of `play`, `u_neighbors`, `k_neighbors` |
| `screen.dfy` | `ScreenGrid` | `Cell`, the on-screen `Board` geometry, `FindImage`'s template lists, `identify_cell`, `is_game_ended`, `get_new_board` |
| `robot.dfy` | `RobotPlay` | `to_count`, `location`, `Robot.move_to`, `RobotMinesweeper.click` |
| `decimal.dfy` | `Decimal` | Python `str(int)` / Java `"" + int`, and Java `Integer.parseInt` |
| `text.dfy` | `Text` | Python `str.split` / `str.join`, and Java `String.split` |
| `player.dfy` | `Player` | the query parser of `RequestHandler.handle`, the response-code header, and the defaults of `MouseMoveHandler` |

Objects whose fields the source updates in place are classes:

- `Grid.Board` and `Engine.Minesweeper` hold the cell maps.
- `Solver.MineSolver` holds the ledger.
- `RobotPlay.Robot` holds the log of requests sent.
- `Player.Headers` holds the response headers.

Their methods are proved against pure specification functions and
predicates. For example, `MineSolver.AddKnown` is tied to
`Solver.RecordKnown`, and `Minesweeper.OpenCells` to `RevealedFrom`,
`OnlyRevealedChanged`, `ZerosClosed` and `ReachedThroughZeros`. The properties themselves are
then proved about those functions as lemmas.

Template matching (`cv2.matchTemplate` against thresholds) and the
robot's replies cannot be seen from the code, so they become parameters:

- a function from a template image to the match outcome;
- a function from a template image to its hit coordinates;
- a function from the requests sent so far to the server's reply.

Behaviour of the code worth knowing:

- Opening `(0, 0)` on a 3×3 board with one mine at `(1, 1)` reveals only
  `(0, 0)`, with count 1. The corner touches the centre mine, so it is not
  a zero cell and nothing opens recursively. `Engine.CentreMineCounts` and
  `Engine.Minesweeper.OpenCells` state it.
- `_open` only ever reveals cells reached from the opened cell through
  cells that counted 0: every revealed cell after the first is adjacent
  to an earlier revealed zero (`Engine.ReachedThroughZeros`).
- A board with `rows <= 0` or `cols <= 0` is not rejected. It is simply
  empty (`Grid.Fill`).
- Opening a mine does not make the board terminal. `_explode` raises, but
  `__exploded` is never set, so later calls to `open` still work
  (`Engine.Minesweeper.Open`).
- `_explode` stores Python `True` on every mine cell, not `MINE`. The grid
  value type has a `TrueVal` case for this, which renders as `"True"`.
- `add_known` writes the value before `unknowns.remove` can raise. The
  write therefore survives the `KeyError`.
- `is_game_ended` is documented as returning a boolean, but it returns the
  name of the end template, or `""`.

## Model

| member | source | states |
|---|---|---|
| Grid.KeepIn | minesweeper.py:70 | keeps exactly the candidates that are keys, at most as many, and keeps row-major order |
| Grid.NeighborsIn | minesweeper.py:64-72 | the neighbours are exactly the keys adjacent to (x, y); never (x, y) itself; at most 8; strictly row-major |
| Grid.Fill | minesweeper.py:36-49 | keys are exactly [0,m)×[0,n); a repeated value fills every cell; an iterable is cycled in row-major order; a callable is called once per cell, the (i·n + j)-th call filling (i, j); an empty iterable on a non-empty board is StopIteration |
| Grid.RowMajorIndexBijective | minesweeper.py:45-49 | the row-major call order numbers the m·n cells 0..m·n-1 injectively and monotonically |
| Grid.Board.constructor | minesweeper.py:29-49 | the board holds exactly the filled grid |
| Grid.Board.Get | minesweeper.py:61-62 | in-bounds points give their value; every other point is KeyError(p) |
| Grid.Board.Set | minesweeper.py:57-59 | an in-bounds point is overwritten and reads back; any other point is KeyError and changes nothing, so no key is ever added |
| Grid.Board.NeighborXys | minesweeper.py:64-72 | exactly the in-grid points adjacent to (x, y) |
| Engine.CountMines | minesweeper.py:158-159 | the sum is at most the number of points, and zero exactly when none of them is a mine |
| Engine.CountMinesIsCardinality | minesweeper.py:158-159 | over distinct points, the sum of ones is the number of mines among them |
| Engine.MinesAround | minesweeper.py:156-159 | the count is in 0..8, and zero exactly when no adjacent cell is a mine |
| Engine.MinesAroundCountsAdjacent | minesweeper.py:156-159 | the count equals the number of adjacent mines and never counts the cell itself |
| Engine.CentreMine | minesweeper.py:80-93 | helper fixture for CentreMineCounts: the 3×3 layout with its one mine at (1, 1) |
| Engine.CentreMineCounts | minesweeper.py:156-159 | on that layout every other cell counts exactly 1 |
| Engine.RevealSettles | minesweeper.py:135-146 | opening only turns UNNO cells into counts; the UNNO set shrinks by exactly the revealed points |
| Engine.ChainReveals | minesweeper.py:143-146 | two successive reveals compose: still distinct, still from UNNO, still the only changes |
| Engine.ZerosStayClosed | minesweeper.py:143-146 | later opening never re-hides a neighbour of an earlier zero |
| Engine.FirstReveal | minesweeper.py:139-141 | writing the count into an UNNO non-mine cell reveals exactly that cell |
| Engine.NeighborStep | minesweeper.py:144-145 | one iteration of the neighbour loop extends the reveal and the opened prefix |
| Engine.ZerosClosedAfter | minesweeper.py:143-146 | zero cells revealed earlier and later both have every neighbour opened |
| Engine.SettledKeepsOpened | minesweeper.py:144-145 | neighbours already opened stay opened through later recursive calls |
| Engine.RewriteStep | minesweeper.py:151-152 | rewriting cell (i, j) moves the frontier of _explode's loops one cell on |
| Engine.RowRewritten | minesweeper.py:150-152 | a finished row moves the frontier to the start of the next row |
| Engine.AllRewritten | minesweeper.py:149-153 | with every row rewritten, marking the target EXPLODED gives True on mines, counts elsewhere, and EXPLODED at the target |
| Engine.NeighborLoopDone | minesweeper.py:142-146 | after the loop, every neighbour of a zero cell is open |
| Engine.ReachedAppend | minesweeper.py:143-146 | extending the zero cell's pairs with what opening one of its neighbours reveals (nothing, or a run starting at that neighbour) keeps every pair reached from an earlier adjacent zero |
| Engine.ValueToString | minesweeper.py:111-115 | EXPLODED is "#", MINE "*", UNNO "?", True "True", and a digit is its character |
| Engine.RowText | minesweeper.py:119 | no newline; when every cell prints as one character, that character per column, in column order (a `True` cell after an explosion prints four) |
| Engine.Rows | minesweeper.py:118-121 | one row text per grid row, in order |
| Engine.Minesweeper.constructor | minesweeper.py:80-94 | every cell is UNNO; exactly the given distinct positions are mines; not exploded |
| Engine.Minesweeper.NeighborXys | minesweeper.py:108-109 | delegates to the grid's neighbour list |
| Engine.Minesweeper.MineCount | minesweeper.py:156-159 | the neighbour mine count is at most 8 |
| Engine.Minesweeper.MineCountIsAdjacentMines | minesweeper.py:156-159 | the count is the number of mines among the in-grid adjacent points, excluding the cell itself |
| Engine.Minesweeper.OpenCells | minesweeper.py:135-146 | a mine or an opened cell gives [] and changes nothing; otherwise each returned pair was UNNO, now shows its mine count, and appears once, and nothing else changed; a first count > 0 gives exactly one pair; every zero's neighbours end up open; every pair after the first is adjacent to an earlier pair that counted 0 |
| Engine.Minesweeper.OpenNeighbors | minesweeper.py:142-146 | the zero cell's neighbour loop reveals from UNNO only and leaves every neighbour open; each pair it appends is reached from the zero cell through adjacent zeros |
| Engine.Minesweeper.Explode | minesweeper.py:148-154 | every mine becomes True, every other cell its count, the target EXPLODED, and the error is "Exploded at (x, y)" |
| Engine.Minesweeper.RewriteRow | minesweeper.py:150-152 | one pass of the inner loop rewrites row i, so the rewritten part now ends before row i + 1 |
| Engine.Minesweeper.Open | minesweeper.py:127-133 | off-grid is KeyError; a mine explodes the grid; otherwise it behaves as _open, revealing only cells reached through zeros; the exploded flag never changes |
| Engine.Minesweeper.Render | minesweeper.py:117-121 | an empty board prints as ""; otherwise splitting __str__ on newlines gives back the row texts, one per row |
| Solver.RecordKnownPartitions | minesweeper.py:181-183 | known, mines and unknowns still partition the grid exactly when the point was unknown, or was already known |
| Solver.RecordMinePartitions | minesweeper.py:185-187 | the same for marking a mine |
| Solver.Absorbed | minesweeper.py:196-199 | recording revealed pairs keeps the mines, only shrinks the unknowns, keeps old known values, and fails only on a value change or a KeyError |
| Solver.AbsorbFresh | minesweeper.py:196-199 | distinct fresh pairs are all recorded: they leave the unknowns and hold their counts |
| Solver.RevealedAreUnknown | minesweeper.py:195-199 | on a ledger that agrees with the board, every revealed point is unknown and not known |
| Solver.KnownAfterReveal | minesweeper.py:195-199 | every known point is then a safe cell holding its true count |
| Solver.AgreesAfterReveal | minesweeper.py:195-199 | the updated ledger agrees with the updated board |
| Solver.AbsorbReveal | minesweeper.py:195-199 | recording what open revealed never clashes with a consistent ledger, and keeps it consistent |
| Solver.UnknownIsUnopened | minesweeper.py:166-170 | on an agreeing ledger a safe point that is not known is unknown and still shows UNNO |
| Solver.RecordOpened | minesweeper.py:195-199 | recording what open revealed never clashes with an agreeing ledger, keeps it agreeing, and makes the opened safe point known |
| Solver.DropIn | minesweeper.py:216-221 | keeps exactly the points not in the set, in order |
| Solver.KeepDropLengths | minesweeper.py:209-221 | the kept and the dropped points together are as many as the input |
| Solver.MineSolver.constructor | minesweeper.py:163-170 | nothing known, no mines, every grid point unknown; a partition; consistent on a fresh board |
| Solver.MineSolver.AddKnown | minesweeper.py:181-183 | the ledger changes as RecordKnown says: written first, then KeyError if the point was not unknown |
| Solver.MineSolver.AddMine | minesweeper.py:185-187 | the ledger changes as RecordMine says |
| Solver.MineSolver.RecordRevealed | minesweeper.py:196-199 | the loop over the revealed pairs computes Absorbed |
| Solver.MineSolver.OpenAndRecord | minesweeper.py:195-199 | a failed open leaves the ledger; a mine is exactly the explosion; otherwise it records what open revealed and stays consistent |
| Solver.MineSolver.Play | minesweeper.py:189-199 | with no target an unknown point is opened (StopIteration when none is left); a known target is a no-op; a safe point ends up known and the ledger stays consistent |
| Solver.MineSolver.UnknownNeighbors | minesweeper.py:209-214 | exactly the in-grid neighbours that are unknown |
| Solver.MineSolver.KnownNeighbors | minesweeper.py:216-221 | exactly the in-grid neighbours that are not unknown |
| Solver.MineSolver.NeighborsSplit | minesweeper.py:209-221 | the two lists split neighbor_xys by count, each in row-major order |
| ScreenGrid.Value | find_minesweeper_grid.py:32-45 | helper for Glyph: the enum's declared strings, none empty |
| ScreenGrid.Glyph | find_minesweeper_grid.py:47 | str(cell) is the first character of its value |
| ScreenGrid.GlyphTable | find_minesweeper_grid.py:32-48 | digits print as themselves; the others print U, F, * and ? |
| ScreenGrid.GlyphInjective | find_minesweeper_grid.py:32-48 | no two cells print alike |
| ScreenGrid.CellDims | find_minesweeper_grid.py:251-255 | the slices start at row·h and col·w and are h and w long |
| ScreenGrid.CellsDisjoint | find_minesweeper_grid.py:251-255 | the rectangles of distinct cells share no pixel |
| ScreenGrid.CellsAbut | find_minesweeper_grid.py:251-255 | each rectangle ends where its right and lower neighbours begin |
| ScreenGrid.ClipIndex | find_minesweeper_grid.py:261 | a slice bound is clipped into [0, len] and unchanged when already inside |
| ScreenGrid.SliceOf | find_minesweeper_grid.py:261 | an in-range slice is the plain subsequence |
| ScreenGrid.CellImage | find_minesweeper_grid.py:257-261 | IndexError exactly when row >= rows or col >= cols |
| ScreenGrid.CropInside | find_minesweeper_grid.py:261 | a rectangle inside the picture is cut out with its size, pixel for pixel |
| ScreenGrid.CellImageCrops | find_minesweeper_grid.py:257-261 | an in-screen cell's crop is h×w and pixel (i, j) is screen pixel (row·h+i, col·w+j) |
| ScreenGrid.NegativeRowIsEmpty | find_minesweeper_grid.py:258-261 | row -1 is not rejected, whatever the cell height h; its numpy slice [-h:0] is empty |
| ScreenGrid.RowPositions | find_minesweeper_grid.py:267 | one row's positions in column order |
| ScreenGrid.RowsPositions | find_minesweeper_grid.py:266-267 | every visited position lies inside the board |
| ScreenGrid.Cells | find_minesweeper_grid.py:263-268 | one triple per visited position, carrying that cell's crop |
| ScreenGrid.RowsPositionsLength | find_minesweeper_grid.py:263-268 | rows·cols positions |
| ScreenGrid.RowsPositionsCover | find_minesweeper_grid.py:263-268 | every cell of the board is visited |
| ScreenGrid.RowsPositionsOrdered | find_minesweeper_grid.py:263-268 | positions come in strictly increasing row-major order |
| ScreenGrid.CellsOrder | find_minesweeper_grid.py:263-268 | cells yields rows·cols triples, each cell once, in row-major order |
| ScreenGrid.ContainsShorter | find_minesweeper_grid.py:83 | a longer needle is never a substring |
| ScreenGrid.ContainsFirstChar | find_minesweeper_grid.py:83 | a needle whose first character never appears is not a substring |
| ScreenGrid.Filter | find_minesweeper_grid.py:79-90 | never longer than its input |
| ScreenGrid.FilterMembers | find_minesweeper_grid.py:79-90 | an element is kept exactly when it is in the input and passes |
| ScreenGrid.Names | find_minesweeper_grid.py:79-90 | the names of the entries, in order |
| ScreenGrid.FilterNames | find_minesweeper_grid.py:79-90 | filtering entries by name keeps exactly the names that pass |
| ScreenGrid.FilterAppend | find_minesweeper_grid.py:79-90 | filtering distributes over concatenation |
| ScreenGrid.FilterKeepsAll | find_minesweeper_grid.py:79-90 | a list whose entries all pass is kept whole |
| ScreenGrid.FilterDropsAll | find_minesweeper_grid.py:79-90 | a list whose entries all fail is dropped |
| ScreenGrid.FilterSecondAndFifth | find_minesweeper_grid.py:79-90 | helper for ShippedCellNames and ShippedEndNames: of six segments kept or dropped whole, the second and fifth remain |
| ScreenGrid.NewFinder | find_minesweeper_grid.py:65-95 | the cell templates are exactly the entries named "UNOPENED" or a substring of "12345678"; the end templates are those naming EXPLODED or FINISHED |
| ScreenGrid.ImageNamesSplit | find_minesweeper_grid.py:52-64 | the shipped names are "0", "1".."8", the end names, "FLAG", "UNOPENED" and the corners |
| ScreenGrid.CellNameTests | find_minesweeper_grid.py:79-84 | "1".."8" pass the cell test; "0", "FLAG", the end and corner names do not |
| ScreenGrid.EndNameTests | find_minesweeper_grid.py:85-90 | only "EXPLODED" and "FINISHED" pass the end test |
| ScreenGrid.ShippedCellNames | find_minesweeper_grid.py:52-84 | of the shipped names the cell templates are "1".."8" then "UNOPENED"; "0" is left out |
| ScreenGrid.ShippedEndNames | find_minesweeper_grid.py:52-90 | of the shipped names the end templates are "EXPLODED" then "FINISHED" |
| ScreenGrid.ShippedTemplates | find_minesweeper_grid.py:196-205 | a FindImage built from the shipped names holds exactly those two template lists |
| ScreenGrid.Lookup | find_minesweeper_grid.py:112 | a name is found exactly when it is a key, and the image found is the one of the last entry with that name |
| ScreenGrid.ImageCell | find_minesweeper_grid.py:73-78 | image_cells never yields UNKNOWN |
| ScreenGrid.MatchesAsWritten | find_minesweeper_grid.py:157-172 | no match raises; the loose branch returns the coordinate arrays, not the name |
| ScreenGrid.Matches | find_minesweeper_grid.py:157-172 | corrected: both branches return the template's name |
| ScreenGrid.MatchOf | find_minesweeper_grid.py:157-172 | a value is appended exactly when the template matched |
| ScreenGrid.Collected | find_minesweeper_grid.py:173-178 | at most one value per template; with corrected matches, only names |
| ScreenGrid.CollectedNone | find_minesweeper_grid.py:173-178 | no match collects nothing |
| ScreenGrid.CollectedSingle | find_minesweeper_grid.py:173-178 | exactly one match collects exactly its value |
| ScreenGrid.CollectedPrefix | find_minesweeper_grid.py:173-178 | the collected list only grows along the loop |
| ScreenGrid.CollectedHit | find_minesweeper_grid.py:176 | a matching template appends exactly one value |
| ScreenGrid.CollectedTwo | find_minesweeper_grid.py:173-178 | two matches collect at least two values |
| ScreenGrid.Decided | find_minesweeper_grid.py:192-193 | a coordinate pair used as a key is TypeError; a name succeeds exactly when image_cells has it |
| ScreenGrid.CellNamed | find_minesweeper_grid.py:193 | succeeds exactly for names image_cells knows |
| ScreenGrid.IdentifyUnique | find_minesweeper_grid.py:173-193 | a single matching cell template decides the cell, whatever "0" would do |
| ScreenGrid.IdentifyTooMany | find_minesweeper_grid.py:190-191 | two matching templates raise TooManyMatchesFoundError |
| ScreenGrid.IdentifyNoneMatched | find_minesweeper_grid.py:179-189 | with no match, a missing "0" is KeyError, an unmatched "0" is SubImageNotFound, a matching "0" is C0 |
| ScreenGrid.LooseMatchAsWritten | find_minesweeper_grid.py:172 | as written, a single loose match ends in TypeError; corrected, it gives the template's cell |
| ScreenGrid.LooseMatchCounterexample | find_minesweeper_grid.py:172 | with "1" the only template, matching loosely: TypeError as written, C1 as intended |
| ScreenGrid.IdentifyCell | find_minesweeper_grid.py:154-193 | the loop over the templates, the "0" fallback and the decision compute the corrected Identified |
| ScreenGrid.IsGameEnded | find_minesweeper_grid.py:121-136 | returns the name of the first end template found, and "" when none is found |
| ScreenGrid.EndNamesNonEmpty | find_minesweeper_grid.py:85-90 | end template names are never "", so "" always means "not ended" |
| ScreenGrid.RoundNearest | find_minesweeper_grid.py:236-237 | round(p / q) is within half a step of the quotient and even on a tie |
| ScreenGrid.RoundNearestPositive | find_minesweeper_grid.py:236-237 | for a positive cell size, the rounded count is within half a step and even on a tie |
| ScreenGrid.SmallMultiple | find_minesweeper_grid.py:236-237 | the only multiple of q strictly inside (-q, q) is 0 |
| ScreenGrid.RoundUnique | find_minesweeper_grid.py:236-237 | an integer strictly within half a step is the rounding |
| ScreenGrid.NewScreenBoard | find_minesweeper_grid.py:231-237 | keeps the given sizes; a zero cell size is ZeroDivisionError |
| ScreenGrid.NewScreenBoardExact | find_minesweeper_grid.py:236-237 | a board a whole number of cells across has exactly that many rows and columns |
| ScreenGrid.GetMatches | find_minesweeper_grid.py:97-109 | hits are returned when both arrays are non-empty; otherwise SubImageNotFound(name) |
| ScreenGrid.UnopenedCorner | find_minesweeper_grid.py:111-119 | a missing CORNER template is KeyError; otherwise the corner is matched under its short name |
| ScreenGrid.GetNewBoard | find_minesweeper_grid.py:138-152 | fails only with KeyError, SubImageNotFound or ZeroDivisionError |
| ScreenGrid.GetNewBoardSpan | find_minesweeper_grid.py:143-151 | anchored at the shifted NW hit, the board reaches one cell past the NE and SE hits, with the finder's cell size |
| ScreenGrid.GetNewBoardNeFirst | find_minesweeper_grid.py:139 | a missing NE template is reported first |
| ScreenGrid.GetNewBoardNeedsSw | find_minesweeper_grid.py:142 | an SW corner not on screen fails the board, though SW is never used |
| RobotPlay.ToCount | play.py:115-130 | digits map to 0..8; UNOPENED, FLAG and MINE map to the sentinels; UNKNOWN is KeyError |
| RobotPlay.ToCountPrintsDigit | play.py:117-126 | a digit cell's count is the digit it prints |
| RobotPlay.ToCountInjective | play.py:116-130 | with separate sentinels, distinct cells get distinct counts |
| RobotPlay.ImageCellsConvert | play.py:100 | every cell identify_cell can return converts without KeyError |
| RobotPlay.Location | play.py:67-71 | the pixel lies inside the cell's rectangle |
| RobotPlay.CellAt | play.py:67-71 | a pixel's cell is the one whose rectangle contains it |
| RobotPlay.LocationRoundTrip | play.py:67-71 | the cell under location(cellx, celly) is (cellx, celly) |
| RobotPlay.Moves | play.py:36-37 | n identical mouse-move requests |
| RobotPlay.Robot.constructor | play.py:30-32 | a fresh client has sent nothing |
| RobotPlay.Robot.Send | play.py:56-57 | exactly one request is sent and the server's reply returned |
| RobotPlay.Robot.MoveTo | play.py:34-41 | 1 to 10 move requests are sent; it stops at the first reply equal to the target; it returns the last reply, which is the target or the tenth miss |
| RobotPlay.Robot.Click | play.py:43-46 | exactly one click request |
| RobotPlay.RobotGame.constructor | play.py:61-65 | keeps the robot and the board |
| RobotPlay.RobotGame.Click | play.py:73-81 | a non-OPEN action fails before any request; otherwise it moves to location(xy); if the mouse did not get there, ValueError with no click; else exactly one click |
| Decimal.DigitChar | MinesweeperPlayer.java:70 | the character of a digit |
| Decimal.NatToString | MinesweeperPlayer.java:70 | all digits, no leading zero |
| Decimal.IntToString | MinesweeperPlayer.java:70 | starts with '-' exactly for negative ints |
| Decimal.ParseInt | MinesweeperPlayer.java:76 | only Java ints are returned; "" is rejected |
| Decimal.DigitsOfNatToString | MinesweeperPlayer.java:70-76 | the digits of n read back as n |
| Decimal.ParseIntToString | MinesweeperPlayer.java:70-76 | parseInt of the text of any Java int gives it back |
| Decimal.ParseIntRejectsNonDigit | MinesweeperPlayer.java:90-91 | a non-digit after the sign is NumberFormatException |
| Text.Split | minesweeper.py:118 | at least one piece; exactly one when the separator is absent |
| Text.DropTrailingEmpty | MinesweeperPlayer.java:52-53 | removes exactly the trailing empty pieces |
| Text.JavaSplit | MinesweeperPlayer.java:52-53 | a separator-free string is one piece, itself |
| Text.SplitPrefix | minesweeper.py:118 | separator-free text glues onto the first piece |
| Text.SplitJoin | minesweeper.py:118 | splitting what join produced gives back the separator-free pieces |
| Text.JoinHasSeparator | MinesweeperPlayer.java:52 | joining two or more pieces puts a separator in |
| Player.Segment | MinesweeperPlayer.java:53-54 | a pair is kept only from text containing '=', and neither part contains '=' |
| Player.SplitPieces | MinesweeperPlayer.java:52-53 | no piece of a split contains the separator |
| Player.QueryPairs | MinesweeperPlayer.java:52-54 | at most one pair per segment |
| Player.Kept | MinesweeperPlayer.java:53-54 | a segment contributes at most one pair |
| Player.ConcatMapAppend | MinesweeperPlayer.java:52-54 | a stream's contributions over two runs are those of each, in order |
| Player.ConcatMapShort | MinesweeperPlayer.java:52-54 | elements contributing at most one item each give at most as many items |
| Player.ToMap | MinesweeperPlayer.java:55 | the only failure is IllegalStateException on a duplicate key |
| Player.ToMapSpec | MinesweeperPlayer.java:55 | the map is built exactly when no key repeats, and then it holds every pair's value under its key |
| Player.ParseQuery | MinesweeperPlayer.java:48-55 | an absent or empty query is the empty map |
| Player.SegmentCases | MinesweeperPlayer.java:52-54 | "a=b" is (a, b); "a=", "a", "a=b=c" and "" are dropped; "=b" gives key "" |
| Player.SplitAround | MinesweeperPlayer.java:53 | k=v splits into k and v |
| Player.EmptySegmentIgnored | MinesweeperPlayer.java:52-54 | an empty segment, as from "&&", contributes nothing |
| Player.QueryPairsAppend | MinesweeperPlayer.java:52-54 | segments contribute independently, in order |
| Player.SegmentOfAssignment | MinesweeperPlayer.java:53-54 | k=v with plain k and non-empty plain v parses back to (k, v) |
| Player.Assignments | MinesweeperPlayer.java:52 | one k=v segment per pair |
| Player.SplitEncoded | MinesweeperPlayer.java:52 | an encoded query splits on '&' into its segments |
| Player.SegmentsParse | MinesweeperPlayer.java:53-54 | the segments parse back to the pairs |
| Player.ParseEncoded | MinesweeperPlayer.java:48-55 | encoding distinct plain pairs and parsing the query gives each value under its key |
| Player.RepeatedKeyFails | MinesweeperPlayer.java:55 | a repeated key fails the whole query with IllegalStateException |
| Player.Headers.constructor | MinesweeperPlayer.java:44 | no headers |
| Player.Headers.Set | MinesweeperPlayer.java:70 | the name has exactly the one value; nothing else changes |
| Player.Headers.Add | MinesweeperPlayer.java:97 | the value is appended to the name's list |
| Player.ResponseCodeOf | MinesweeperPlayer.java:73-77 | 200 when the header is absent; any code read is a Java int |
| Player.GetResponseCode | MinesweeperPlayer.java:73-77 | 200 when no code was set |
| Player.SetResponseCode | MinesweeperPlayer.java:69-71 | the header holds the code's text, and getResponseCode then returns the code |
| Player.ResponseCodeRoundTrip | MinesweeperPlayer.java:69-77 | setting any Java int and reading it back gives that int |
| Player.Coordinate | MinesweeperPlayer.java:90-91 | a missing coordinate is -1 |
| Player.MouseMoveTarget | MinesweeperPlayer.java:89-91 | missing x and y give (-1, -1); the only failure is NumberFormatException |
| Player.MouseMoveOfTexts | MinesweeperPlayer.java:90-91 | parameters holding the texts of two ints give those ints |
| Player.IntTextIsPlain | MinesweeperPlayer.java:90-91 | the text of an int is non-empty and holds no '=' or '&' |
| Player.MouseMoveRoundTrip | MinesweeperPlayer.java:48-91 | the query x=<x>&y=<y> the client sends reaches the mouse as (x, y), for every pair of Java ints |

## Left out

- The z3 deduction at the end of `MineSolver.play` (minesweeper.py:200-207)
  is left out, as are `dwim` and the `__main__` blocks. That code is
  unfinished and calls a foreign solver, and line 207 names an undefined
  variable.
- `random.sample` placement of mines: the constructor takes the positions
  as a parameter.
- The `print` calls are not modelled, and neither is `Minesweeper.__repr__`
  or the debug layout `MineSolver.__str__`.
- `Grid.Board.constructor` requires the fill to succeed. The StopIteration
  an empty iterable raises is stated by `Grid.Fill` instead.
- `Engine.Minesweeper.OpenCells` recurses without bound, as `_open` does
  (minesweeper.py:144-145). On a board with a zero region larger than
  Python's recursion limit, `_open` raises `RecursionError`, which the
  model does not represent.
- `Engine.Minesweeper.OpenCells` requires an in-grid point. `_open`'s own
  KeyError cannot happen, because `open` looks up the mine board first,
  and `Engine.Minesweeper.Open` states that error.
- `Solver.MineSolver.Play` takes the target as `Option<Point>`. A call
  with only one of x and y given is not modelled. The choice of
  `next(iter(set(...)))` is any unknown point, because set iteration order
  is not specified.
- cv2, numpy and files are not modelled: `image_read`,
  `cv2.matchTemplate` and its thresholds, and the template loading
  subclasses. Matching is a parameter of the model.
- In `identify_cell`, the aspect-ratio test, the crop arithmetic (`ceil`,
  `floor`) and the matching of the crop are all inside the matching
  oracle: one outcome per template stands for the whole call of
  `matches`.
- The exact-size branch of `matches` (find_minesweeper_grid.py:162-166)
  crops `cell[xleft:-xright, yleft:-yright]`. When the cell is one pixel
  wider or taller than the template, `xright` or `yright` is 0, the slice
  `[k:-0]` is empty, and `cv2.matchTemplate` raises `cv2.error`. That is
  not `SubImageNotFoundError`, so it escapes `identify_cell`. The
  outcomes of `ScreenGrid.MatchOutcome` have no case for it, so this
  escape is not modelled.
- `ScreenGrid.RoundNearest` treats `boardheight / cellheight` as an exact
  rational. The rounding error of a float quotient is not modelled.
- `ScreenGrid.Lookup` lets the last entry of a name win. Python dict keys
  are unique, which the sequence of entries does not enforce.
- `play.py`'s HTTP requests, `screencap`, `delay`/`time.sleep` and the JSON
  decoding of replies are not modelled. The server is a function from the
  requests sent to the reply.
- `RobotPlay.Robot.Click` and `RobotPlay.RobotGame.Click` take the
  server's reply to `mouseclick` to be a point, like every reply. The
  Java server of MinesweeperPlayer.java:147-158 registers only
  `/screencap`, `/mousemove` and `/stop`. Against it, `mouseclick` gets
  the HTTP server's 404 page and `.json()` raises. The `Pass` branch of
  `RobotGame.Click` is then reached only against a server that answers
  clicks. The failed JSON decoding is not modelled.
- `RobotMinesweeper.get_state` is not modelled. It captures the screen,
  writes files, and passes `_explode` a single tuple, which is a TypeError.
- The `play` loop is not modelled: it calls a missing
  `update_board_state` and calls `unknowns` as a function. The
  exit-status handling of `__main__` is not modelled either.
- `RobotGame.constructor` keeps only the robot and the board. The
  `Minesweeper` that `RobotMinesweeper.__init__` also builds, with one
  randomly placed mine, is not carried, since `get_state` is left out.
- `Minesweeper.UNOPENED` and `Minesweeper.FLAG` are not defined by the
  game class. Their values are the `Sentinels` parameter of
  `RobotPlay.ToCount`.
- `Action` is not defined either. It is modelled as `Open | Flag | Unflag`.
- `RobotPlay.ToCount` models `to_count` as if those attributes existed.
  As written, the dict literal of `to_count` (play.py:117-130) reads
  `Minesweeper.UNOPENED` each time it is built, so every call raises
  `AttributeError`, whatever the cell. Before that, `from minesweeper
  import Action` (play.py:10-15) already fails with `ImportError`, so
  play.py cannot be imported at all. The model gives the intended
  behaviour of `to_count`, `click` and the rest of play.py and does not
  represent these two failures.
- `MinesweeperPlayer.java` is not modelled beyond the parsing: the AWT
  robot, the mouse-position readout, screen capture, temporary files, `HttpServer`
  setup, the `/stop` thread and the sending of the response body.
- `Player.Headers` keeps header names as given. Java's `Headers`
  normalises their case, but every name used here is written the same way
  each time.
- `Decimal.ParseInt` accepts ASCII digits only. Java's `Integer.parseInt`
  also accepts other Unicode decimal digits.

## Findings

| source | as written | input that shows it | evidently intended | confidence | as-written member | corrected member |
|---|---|---|---|---|---|---|
| find_minesweeper_grid.py:172 | the loose branch of `matches` returns `get_matches`' `(xs, ys)` arrays, which are appended to `match_vals` and then used as a key of `image_cells` at line 193, raising TypeError (unhashable arrays) | a cell for which the only matching template is "1", matched through the loose (whole-cell, 0.95) branch | return the template's name, as the exact branch does, so the cell is C1 | high; not executed | ScreenGrid.LooseMatchAsWritten | ScreenGrid.IdentifyCell |
