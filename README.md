# top-down-2d: a Dafny model of the level editor and the playable level

The repository is made of two pygame scripts that share one data structure:
a grid of integer tile ids. In that grid, -1 is an empty cell, 0 is
background, a positive id is a tile image, and id 2 is the health box.
The screen is 800 × 640 pixels, each tile is 40 × 40 (`TILE_SIZE = 640 // 16`),
and the player's box is 36 × 36 and moves 3 pixels per tick.

The model has six modules:

- `World` (world.dfy): the dimensions and reserved ids, grid shapes, and
  counting the cells that equal an id (Python's `list.count`).
- `LevelCodec` (codec.dfy): the level file format.
  - A saved row is one line of decimal integers joined by commas.
  - Reading a line back splits it at commas and parses each field with
    `int()`.
  - Proved: save followed by decode gives back the grid, and a file decodes
    exactly when every field of every line is an integer.
- `Collision` (collision.dfy): the `check_collision` query as a predicate.
  - Rectangles overlap in the half-open sense of `Rect.colliderect`.
  - A tile blocks when its id is positive and is not the health box.
- `Pickups` (pickups.dfy): what `collect_health_kit` does to a grid, as
  functions.
  - Proved: boxes are conserved (collected plus remaining is constant).
  - Proved: collecting twice in place changes nothing.
  - Proved: collecting never changes where the player collides.
- `Play` (play.dfy): the game script.
  - `load_level_data` is a method with a loop.
  - `Player` and `Game` are classes. The module globals `health`,
    `total_health_boxes`, `collected_health_boxes` and `win` are fields of
    `Game`.
  - `Player.Update`, `CheckCollision` and `CollectHealthKit` follow the
    source loop by loop.
  - `Game.Tick` is one pass of the main loop, including the win latch.
- `Editor` (editor.dfy): the editor script as a class.
  - Its fields are the grid, the level index, the selected tile, the
    "SAVED" countdown, and the level files on disk (a map from level index
    to lines).
  - `Editor.Tick` runs one pass of the main loop from an input snapshot:
    which buttons were clicked, the pointer position, the mouse buttons
    held, and the key-down events.
  - The in-place load is specified by the functions `LoadFields` and
    `LoadLines`, which follow the two nested `for` loops cell by cell.

A failed editor load does not restore the grid. A field that is not an
integer, or a cell outside the grid, stops the load with ValueError or
IndexError. The cells scanned before that field keep their new values and
every other cell keeps its old one (`LoadLinesFails`,
`PartialLoadKeepsEarlierCells`). The game loader likewise checks
neither the row count nor the column count: a ragged file yields a ragged
grid, and every proof about the game holds for ragged grids.

## Model

| member | source | states |
|---|---|---|
| World.Count | play.py:56 | `row.count(v)`: the number of cells of a row equal to v, at most the row's length |
| World.CountGrid | play.py:53-56 | the sum of the row counts, which `total_health_boxes` accumulates line by line |
| World.CountPositive | play.py:56 | a row's count of an id is positive iff some cell of the row holds that id |
| World.CountGridZero | play.py:56 | a grid's count of an id is zero iff no cell holds it |
| LevelCodec.ParseInt | play.py:54 | `int(tile)` succeeds iff the text is an optional minus sign followed by one or more digits |
| LevelCodec.Show | level_editor.py:153 | `str(n)`: a non-empty text without commas, starting with '-' iff n is negative |
| LevelCodec.ParseShow | level_editor.py:153 | every integer written by the writer parses back to itself |
| LevelCodec.SplitJoin | level_editor.py:151-153 | splitting at commas a line joined from non-empty comma-free fields returns those fields |
| LevelCodec.FieldsEncodeRow | level_editor.py:152-153 | the fields read back from a saved row are the decimal texts of its cells, one per cell |
| LevelCodec.EncodeRow | level_editor.py:153 | the line `writerow` writes for a row: the cells' decimal texts joined by commas |
| LevelCodec.EncodeGrid | level_editor.py:151-153 | the saved file has one line per grid row, in order, and the fields of line r are the decimal texts of row r's cells |
| LevelCodec.ParseRow | play.py:54 | a row of fields parses iff every field parses; the result has one integer per field, each that field's value |
| LevelCodec.RowRoundTrip | play.py:54 | reading back a saved row yields the row |
| LevelCodec.DecodeRowsOf | play.py:53-55 | rows that each parse to the matching row of a grid decode to that grid |
| LevelCodec.DecodeLines | play.py:51-55 | what `load_level_data` reads: each line's fields as integers, in file order, or failure when some field is not an integer |
| LevelCodec.DecodeEncode | play.py:48-57 | decoding the lines the editor saves for a grid yields that grid, for any row lengths |
| LevelCodec.DecodeRowsSome | play.py:53-55 | rows of fields decode iff every row parses |
| LevelCodec.DecodeRowsRow | play.py:53-55 | decoded row i is row i's fields as integers, and there is one decoded row per input row |
| LevelCodec.DecodeLinesSome | play.py:53-55 | a file decodes iff every line's fields are all integers |
| LevelCodec.DecodeLinesRows | play.py:53-55 | a decoded file has one row per line, in file order, each the integers of that line |
| Collision.Overlaps | play.py:132 | `colliderect`: the two half-open rectangles share an interior point; touching along an edge is not overlap |
| Collision.Collides | play.py:126-134 | some cell of the grid holds a solid id (positive, not 2) and its tile rectangle overlaps the player box at (x, y) |
| Collision.OnSolidTileCollides | play.py:126-134 | a player box placed exactly on a solid tile's corner collides |
| Collision.EdgeContactDoesNotOverlap | play.py:130-132 | a player box touching a tile along any of its four edges (from the left, from above, to the right or below) does not overlap it |
| Collision.NoSolidNoCollision | play.py:129 | a grid of only -1, 0 and 2 cells collides nowhere |
| Pickups.Collected | play.py:136-145 | the grid after the pickup pass: each health-box cell overlapping the player at (x, y) becomes -1 |
| Pickups.GridHits | play.py:138-145 | the number of health-box cells the pickup pass clears, row by row |
| Pickups.CollectedCells | play.py:136-145 | collecting keeps the grid's shape; each overlapping id-2 cell becomes -1 and every other cell is unchanged |
| Pickups.RowConservation | play.py:139-145 | within one row, boxes collected plus boxes left equal boxes before |
| Pickups.Conservation | play.py:138-145 | over the grid, boxes collected in one step plus boxes remaining equal boxes before |
| Pickups.HitsNone | play.py:140-142 | a row with no collectable box yields no hits |
| Pickups.GridHitsNone | play.py:138-142 | a grid with no collectable box yields no hits |
| Pickups.CollectIdempotent | play.py:136-145 | collecting again without moving changes no cell and collects nothing |
| Pickups.CollectedKeepsCollisions | play.py:126-145 | after pickups the grid collides at exactly the positions it collided at before |
| Play.VelocityX | play.py:94-99 | horizontal velocity is -3, 0 or 3; it is 3 iff RIGHT is held, and -3 iff LEFT is held without RIGHT |
| Play.VelocityY | play.py:100-103 | vertical velocity is -3, 0 or 3; it is 3 iff DOWN is held, and -3 iff UP is held without DOWN |
| Play.Clamp | play.py:106-115 | the candidate lies in [0, limit - size]; it is unchanged when already there and pushed to the nearer bound otherwise |
| Play.NextPosition | play.py:105-121 | one movement step: each axis's candidate is clamped to the screen; X is committed unless it collides at the old Y, then Y unless it collides at the committed X |
| Play.AxisSeparated | play.py:117-121 | x becomes the clamped candidate iff that does not collide at the old y; y becomes its candidate iff that does not collide at the committed x |
| Play.StaysOnScreen | play.py:105-121 | a player whose box is on screen is still on screen after a step |
| Play.NeverEntersSolid | play.py:117-121 | a player not overlapping a solid tile never moves into one |
| Play.LoadLevelData | play.py:48-57 | a missing file gives FileNotFound; otherwise the load succeeds iff the lines decode, a bad field gives ValueError, the grid is the decoded lines, and the box count equals the number of id-2 cells in it |
| Play.DecodePrefixFails | play.py:53-55 | once a prefix of the rows fails to decode, the whole file fails |
| Play.Player.constructor | play.py:81-90 | a new player stands at the given corner with zero velocity |
| Play.Player.CheckCollision | play.py:126-134 | the scan returns true iff some solid tile's rectangle overlaps the player box at (x, y) |
| Play.Player.CollectHealthKit | play.py:136-145 | the grid becomes the collected grid; health and the collected count both grow by the number of boxes cleared |
| Play.Player.CollectInRow | play.py:139-145 | one row's pass clears that row's overlapping boxes, counts them, and leaves the other rows unchanged |
| Play.Player.Update | play.py:92-124 | velocity is set from the keys, the position becomes NextPosition of the old one, then pickups happen at the new position |
| Play.Game.constructor | play.py:147-149 | the game starts at tile (2, 2) with no health and nothing collected, not won, and with the total equal to the loaded box count |
| Play.Game.Tick | play.py:154-168 | keeps the box invariant; `win` latches once collected >= total (a level with no boxes is won on the first tick); a won game has no box left in the grid and freezes position, velocity, grid and counters; otherwise the velocity is set from the keys, the player moves to NextPosition and collects there |
| Editor.Paint | level_editor.py:181-192 | over the tile area the target cell is a valid index and becomes -1 if right is held, else the current tile if left is held, else stays; every other cell is unchanged; off the area nothing changes |
| Editor.RepaintIsNoOp | level_editor.py:188-190 | painting the same tile twice equals painting it once, and painting a cell that already holds the tile leaves the grid unchanged |
| Editor.PaintKeepsIds | level_editor.py:181-192 | painting with a palette tile, or erasing, keeps every cell -1 or a palette index |
| Editor.SelectedTile | level_editor.py:171-174 | the last clicked button's index, or the previous tile when nothing was clicked |
| Editor.LevelAfter | level_editor.py:198-202 | a level that starts non-negative stays non-negative, and it rises by at most the number of key events |
| Editor.UpsRaiseLevel | level_editor.py:198-200 | n presses of UP raise the level by exactly n, so it has no upper bound |
| Editor.DownsStopAtZero | level_editor.py:201-202 | DOWN presses never take level 0 below 0 |
| Editor.LoadFields | level_editor.py:160-161 | the inner load loop never changes the grid's shape |
| Editor.LoadLines | level_editor.py:159-161 | the outer load loop never changes the grid's shape |
| Editor.LoadFile | level_editor.py:155-161 | a missing file gives FileNotFound with the grid untouched; the shape never changes |
| Editor.LoadFieldsUntouched | level_editor.py:160-161 | the inner loop writes no cell outside the remaining fields of its row |
| Editor.LoadFieldsOk | level_editor.py:160-161 | the inner loop completes iff every remaining field is an integer with a cell in the row; each field's value is then in its cell |
| Editor.LoadLinesUntouched | level_editor.py:159-161 | the load writes no cell that the file does not cover |
| Editor.LoadLinesOk | level_editor.py:159-161 | the load completes iff every field is an integer with a cell in the grid; every covered cell then holds its field's value |
| Editor.LoadFieldsFails | level_editor.py:160-161 | when the inner loop raises, it raised at its first field that does not fit, with the error that field causes; the fields before it are stored and no other cell changed |
| Editor.LoadLinesFails | level_editor.py:157-161 | when the load raises, it raised at the first field in scan order that does not fit (ValueError if not an integer, IndexError if its cell is outside the grid); every cell scanned before it holds its field's value and every other cell is unchanged |
| Editor.LoadRoundTrip | level_editor.py:148-161 | loading the file saved for a grid into that grid completes and leaves the grid unchanged |
| Editor.PartialLoadKeepsEarlierCells | level_editor.py:159-161 | loading "5,x" over a zero row leaves 5 in the first cell and raises ValueError |
| Editor.Editor.constructor | level_editor.py:56-59 | the grid starts 16 × 20 with every cell 0, at level 0 with tile 1 selected |
| Editor.Editor.Save | level_editor.py:148-154 | the current level's file becomes the grid's rows, one line each, in order, and "SAVED" is shown for 30 ticks |
| Editor.Editor.Load | level_editor.py:155-161 | the grid and the error are exactly what LoadFile gives for the current level's file |
| Editor.Editor.CountDown | level_editor.py:163-165 | the countdown drops by one while positive |
| Editor.Editor.SelectTile | level_editor.py:171-174 | the selected tile becomes SelectedTile of the clicks |
| Editor.Editor.PaintAt | level_editor.py:181-192 | the grid becomes Paint of the old grid |
| Editor.Editor.ChangeLevel | level_editor.py:198-202 | the level becomes LevelAfter of the key events |
| Editor.Editor.Tick | level_editor.py:148-202 | keeps the 16 × 20 shape, level >= 0, the tile within the palette and the countdown in [0, 30]; save then load in one tick leaves the grid as it was; a failed load stops the tick |

## Left out

- Drawing: background, grid lines, tiles, text, the highlight rectangle and
  the display update. These only render; they change no state.
- Image loading and scaling. The number of tile images is the
  `paletteSize` parameter of `Editor`.
- The `button` module is not part of this model. A button's `draw(...)`
  result is a boolean of the input snapshot.
- The pygame input functions (`key.get_pressed`, `mouse.get_pos`,
  `mouse.get_pressed`, `event.get`). They become explicit parameters: `Keys`
  and `Input`.
- The frame clock, the `while run` loops and QUIT handling. The model has a
  single `Tick` step.
- File opening and the `csv` module's quoting and line terminators. A file
  is a sequence of lines. Fields are split at every comma, and an empty line
  has no fields. This covers every file the editor writes, because it only
  writes integers.
- The unused `pickle` import.
- LevelCodec.ParseInt: accepts only an optional minus sign followed by ASCII
  digits. Python's `int()` also accepts a plus sign, surrounding whitespace,
  underscores and non-ASCII digits. None of these appear in files the
  editor writes.
- Editor.Editor.constructor: requires at least two palette tiles. Line 177
  indexes `button_list[current_tile]` with `current_tile = 1`, which raises
  IndexError with fewer tiles.
- Editor.Editor.Tick: the pointer coordinates are natural numbers, since
  pygame reports positions inside the window. An uncaught exception from
  the load ends the program; the model returns it as `err` and skips the
  rest of the tick.
- Play.LoadLevelData: a failed load aborts the game script, so the model
  reports the error and does not state the partial box count at that point.
- Play.Player.Update: the four boundary `if`s of play.py:108-115 are
  written as one `Clamp` call per axis. The two forms agree for the
  player's box, which is narrower than the screen.
