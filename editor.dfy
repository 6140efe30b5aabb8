/** The level editor: a 16 × 20 grid painted with the pointer, a palette
    of tile buttons, save and load buttons, and a level index changed with
    the UP and DOWN keys. One call of `Editor.Tick` is one pass of the main
    loop, driven by a snapshot of that tick's input. */
module Editor {
  import opened World
  import opened LevelCodec

  /** Ticks for which "SAVED" stays on screen after a save. */
  const SavedFrames: int := 30

  /** A key-down event of this tick (other events are irrelevant here). */
  datatype Key = Up | Down | OtherKey

  /** What one tick observes: whether the save and load buttons and each
      palette button were clicked, where the pointer is, which mouse
      buttons are held, and the key-down events. */
  datatype Input = Input(
    saveClicked: bool,
    loadClicked: bool,
    tileClicks: seq<bool>,
    pointerX: nat,
    pointerY: nat,
    leftButton: bool,
    rightButton: bool,
    keyDowns: seq<Key>)

  /** Every cell holds -1 or the index of a palette tile. */
  predicate IdsInRange(g: Grid, paletteSize: int) {
    forall r, c :: 0 <= r < |g| && 0 <= c < |g[r]| ==> -1 <= g[r][c] < paletteSize
  }

  // ---------------------------------------------------------------------
  // Painting

  /** The pointer lies over the tile area (not the side panel or the lower margin). */
  predicate InTileArea(px: nat, py: nat) {
    px < ScreenWidth && py < ScreenHeight
  }

  /** The grid after one tick of mouse buttons at pointer (px, py): the cell
      under the pointer takes the current tile when the left button is held
      and becomes empty when the right button is held (right is applied
      last, so it wins); nothing changes outside the tile area. */
  function Paint(w: Grid, current: int, px: nat, py: nat, left: bool, right: bool): (w': Grid)
    requires HasShape(w, Rows, MaxCols)
    ensures HasShape(w', Rows, MaxCols)
    ensures InTileArea(px, py) ==> py / TileSize < Rows && px / TileSize < MaxCols
    ensures !InTileArea(px, py) ==> w' == w
    ensures forall r, c :: 0 <= r < Rows && 0 <= c < MaxCols && (r != py / TileSize || c != px / TileSize) ==>
      w'[r][c] == w[r][c]
    ensures InTileArea(px, py) ==>
      w'[py / TileSize][px / TileSize] ==
        (if right then Empty else if left then current else w[py / TileSize][px / TileSize])
  {
    if InTileArea(px, py) then
      var r, c := py / TileSize, px / TileSize;
      var v := if right then Empty else if left then current else w[r][c];
      w[r := w[r][c := v]]
    else w
  }

  /** Painting the tile a cell already holds leaves the grid as it was, so
      holding the left button over the same cell is idempotent. */
  lemma RepaintIsNoOp(w: Grid, current: int, px: nat, py: nat)
    requires HasShape(w, Rows, MaxCols)
    ensures Paint(Paint(w, current, px, py, true, false), current, px, py, true, false) ==
            Paint(w, current, px, py, true, false)
    ensures InTileArea(px, py) && w[py / TileSize][px / TileSize] == current ==>
            Paint(w, current, px, py, true, false) == w
  {
    var w1 := Paint(w, current, px, py, true, false);
    var w2 := Paint(w1, current, px, py, true, false);
    forall r | 0 <= r < Rows ensures w2[r] == w1[r] {
      assert |w2[r]| == |w1[r]| == MaxCols;
    }
    if InTileArea(px, py) && w[py / TileSize][px / TileSize] == current {
      forall r | 0 <= r < Rows ensures w1[r] == w[r] {
        assert |w1[r]| == |w[r]| == MaxCols;
      }
    }
  }

  /** Painting with a palette tile, or erasing, keeps every cell a valid id. */
  lemma PaintKeepsIds(w: Grid, current: int, paletteSize: int, px: nat, py: nat, left: bool, right: bool)
    requires HasShape(w, Rows, MaxCols) && IdsInRange(w, paletteSize)
    requires 0 <= current < paletteSize
    ensures IdsInRange(Paint(w, current, px, py, left, right), paletteSize)
  {
    var w' := Paint(w, current, px, py, left, right);
    forall r, c | 0 <= r < |w'| && 0 <= c < |w'[r]| ensures -1 <= w'[r][c] < paletteSize {
      if InTileArea(px, py) && r == py / TileSize && c == px / TileSize {
      } else {
        assert w'[r][c] == w[r][c];
      }
    }
  }

  // ---------------------------------------------------------------------
  // Tile selection and level index

  /** The tile selected after a pass over the palette buttons: the last
      clicked button's index, or the previous tile when none was clicked. */
  function SelectedTile(current: int, clicks: seq<bool>): (t: int)
    ensures (exists j :: 0 <= j < |clicks| && clicks[j]) ==>
      0 <= t < |clicks| && clicks[t] && forall j :: t < j < |clicks| ==> !clicks[j]
    ensures (forall j :: 0 <= j < |clicks| ==> !clicks[j]) ==> t == current
  {
    if clicks == [] then current
    else if clicks[|clicks| - 1] then |clicks| - 1
    else
      var init := clicks[..|clicks| - 1];
      assert forall j :: 0 <= j < |init| ==> init[j] == clicks[j];
      SelectedTile(current, init)
  }

  /** The level index after a tick's key-down events: UP adds one, DOWN
      subtracts one unless the index is already 0. */
  function LevelAfter(level: int, keys: seq<Key>): (l: int)
    ensures level >= 0 ==> l >= 0
    ensures l <= level + |keys|
  {
    if keys == [] then level
    else
      var prev := LevelAfter(level, keys[..|keys| - 1]);
      match keys[|keys| - 1]
      case Up => prev + 1
      case Down => if prev > 0 then prev - 1 else prev
      case OtherKey => prev
  }

  /** `n` presses of UP. */
  function Ups(n: nat): (keys: seq<Key>)
    ensures |keys| == n && forall i :: 0 <= i < n ==> keys[i] == Up
  {
    if n == 0 then [] else Ups(n - 1) + [Up]
  }

  /** The level index has no upper bound: n presses of UP raise it by n. */
  lemma {:induction false} UpsRaiseLevel(level: int, n: nat)
    ensures LevelAfter(level, Ups(n)) == level + n
  {
    if n > 0 {
      UpsRaiseLevel(level, n - 1);
      assert Ups(n)[..n - 1] == Ups(n - 1);
    }
  }

  /** DOWN never takes the index below 0: from level 0, any number of DOWN
      presses leave it at 0. */
  lemma {:induction false} DownsStopAtZero(keys: seq<Key>)
    requires forall i :: 0 <= i < |keys| ==> keys[i] == Down
    ensures LevelAfter(0, keys) == 0
  {
    if keys != [] {
      DownsStopAtZero(keys[..|keys| - 1]);
    }
  }

  // ---------------------------------------------------------------------
  // Loading a file into the grid in place

  /** The grid after a load attempt, and the exception that stopped it, if any. */
  datatype Loaded = Loaded(world: Grid, error: Option<LoadError>)

  /** Cell (i, j) has a field in the file. */
  predicate Covered(lines: seq<string>, i: int, j: int) {
    0 <= i < |lines| && 0 <= j < |Fields(lines[i])|
  }

  /** The inner loop of the load: fields y, y + 1, ... of line x are parsed
      and written to row x in order; a field that is not an integer raises
      ValueError and a cell outside the grid IndexError, leaving the cells
      already written as they are. The grid's shape never changes. */
  function LoadFields(w: Grid, x: nat, fields: seq<string>, y: nat): (r: Loaded)
    requires y <= |fields|
    ensures SameShape(r.world, w)
    decreases |fields| - y
  {
    if y == |fields| then Loaded(w, None)
    else match ParseInt(fields[y])
      case None => Loaded(w, Some(ValueError))
      case Some(v) =>
        if x >= |w| || y >= |w[x]| then Loaded(w, Some(IndexError))
        else LoadFields(w[x := w[x][y := v]], x, fields, y + 1)
  }

  /** The outer loop of the load: lines x, x + 1, ... in file order. The
      grid's shape never changes. */
  function LoadLines(w: Grid, lines: seq<string>, x: nat): (r: Loaded)
    requires x <= |lines|
    ensures SameShape(r.world, w)
    decreases |lines| - x
  {
    if x == |lines| then Loaded(w, None)
    else
      var row := LoadFields(w, x, Fields(lines[x]), 0);
      if row.error.Some? then row else LoadLines(row.world, lines, x + 1)
  }

  /** Loading level `level`: FileNotFoundError when there is no such file. */
  function LoadFile(w: Grid, files: map<int, seq<string>>, level: int): (r: Loaded)
    ensures SameShape(r.world, w)
    ensures level !in files ==> r == Loaded(w, Some(FileNotFound))
  {
    if level in files then LoadLines(w, files[level], 0) else Loaded(w, Some(FileNotFound))
  }

  /** The inner loop writes no cell outside fields y.. of row x. */
  lemma {:induction false} LoadFieldsUntouched(w: Grid, x: nat, fields: seq<string>, y: nat)
    requires y <= |fields|
    decreases |fields| - y
    ensures forall i, j :: 0 <= i < |w| && 0 <= j < |w[i]| && (i != x || j < y || j >= |fields|) ==>
      LoadFields(w, x, fields, y).world[i][j] == w[i][j]
  {
    if y < |fields| && ParseInt(fields[y]).Some? && x < |w| && y < |w[x]| {
      LoadFieldsUntouched(w[x := w[x][y := ParseInt(fields[y]).value]], x, fields, y + 1);
    }
  }

  /** Field `j` of line `x` is an integer and cell (x, j) exists in `w`. */
  predicate FieldFits(w: Grid, x: int, fields: seq<string>, j: int)
    requires 0 <= j < |fields|
  {
    ParseInt(fields[j]).Some? && 0 <= x < |w| && j < |w[x]|
  }

  /** Cell (x, j) of `world` holds the integer that field `j` of line `x` spells. */
  predicate FieldStored(world: Grid, x: int, fields: seq<string>, j: int)
    requires 0 <= j < |fields|
  {
    0 <= x < |world| && j < |world[x]| && Some(world[x][j]) == ParseInt(fields[j])
  }

  /** Each field from `y` on fits row `x` of `w`. */
  predicate FitsRow(w: Grid, x: int, fields: seq<string>, y: nat) {
    forall j :: y <= j < |fields| ==> FieldFits(w, x, fields, j)
  }

  /** Each field from `y` on is stored in its cell of row `x`. */
  predicate StoredRow(world: Grid, x: int, fields: seq<string>, y: nat) {
    forall j :: y <= j < |fields| ==> FieldStored(world, x, fields, j)
  }

  /** The inner loop completes exactly when each remaining field is an
      integer and has a cell in row x; it then leaves each field's value in
      its cell. */
  lemma {:induction false} LoadFieldsOk(w: Grid, x: nat, fields: seq<string>, y: nat)
    requires y <= |fields|
    decreases |fields| - y
    ensures LoadFields(w, x, fields, y).error.None? <==> FitsRow(w, x, fields, y)
    ensures LoadFields(w, x, fields, y).error.None? ==> StoredRow(LoadFields(w, x, fields, y).world, x, fields, y)
  {
    if y == |fields| {
    } else if FieldFits(w, x, fields, y) {
      var v := ParseInt(fields[y]).value;
      var w1 := w[x := w[x][y := v]];
      assert SameShape(w1, w);
      LoadFieldsOk(w1, x, fields, y + 1);
      LoadFieldsUntouched(w1, x, fields, y + 1);
      var r := LoadFields(w1, x, fields, y + 1);
      assert LoadFields(w, x, fields, y) == r;
      if FitsRow(w1, x, fields, y + 1) {
        forall j | y < j < |fields| ensures FieldFits(w, x, fields, j) {
          assert FieldFits(w1, x, fields, j);
        }
        assert FieldStored(r.world, x, fields, y) by {
          assert r.world[x][y] == w1[x][y] == v;
        }
      } else {
        var j :| y + 1 <= j < |fields| && !FieldFits(w1, x, fields, j);
        assert !FieldFits(w, x, fields, j);
      }
    }
  }

  /** The outer loop writes no cell outside the fields of lines x.. . */
  lemma {:induction false} LoadLinesUntouched(w: Grid, lines: seq<string>, x: nat)
    requires x <= |lines|
    decreases |lines| - x
    ensures forall i, j :: 0 <= i < |w| && 0 <= j < |w[i]| && (i < x || !Covered(lines, i, j)) ==>
      LoadLines(w, lines, x).world[i][j] == w[i][j]
  {
    if x < |lines| {
      var row := LoadFields(w, x, Fields(lines[x]), 0);
      LoadFieldsUntouched(w, x, Fields(lines[x]), 0);
      if row.error.None? {
        LoadLinesUntouched(row.world, lines, x + 1);
      }
    }
  }

  /** Every field of lines x.. is an integer and has a cell in `w`. */
  ghost predicate FitsGrid(w: Grid, lines: seq<string>, x: nat) {
    forall i, j :: x <= i && Covered(lines, i, j) ==> FieldFits(w, i, Fields(lines[i]), j)
  }

  /** Every field of lines x.. is stored in its cell of `world`. */
  ghost predicate StoredGrid(world: Grid, lines: seq<string>, x: nat) {
    forall i, j :: x <= i && Covered(lines, i, j) ==> FieldStored(world, i, Fields(lines[i]), j)
  }

  /** The load completes exactly when every field of lines x.. is an
      integer and has a cell in the grid; every such cell then holds its
      field's value. */
  lemma {:induction false} LoadLinesOk(w: Grid, lines: seq<string>, x: nat)
    requires x <= |lines|
    decreases |lines| - x
    ensures LoadLines(w, lines, x).error.None? <==> FitsGrid(w, lines, x)
    ensures LoadLines(w, lines, x).error.None? ==> StoredGrid(LoadLines(w, lines, x).world, lines, x)
  {
    if x < |lines| {
      var fields := Fields(lines[x]);
      var row := LoadFields(w, x, fields, 0);
      LoadFieldsOk(w, x, fields, 0);
      if row.error.None? {
        LoadLinesOk(row.world, lines, x + 1);
        LoadLinesUntouched(row.world, lines, x + 1);
        var r := LoadLines(row.world, lines, x + 1);
        assert LoadLines(w, lines, x) == r;
        assert SameShape(row.world, w);
        if FitsGrid(w, lines, x) {
          forall i, j | x + 1 <= i && Covered(lines, i, j) ensures FieldFits(row.world, i, Fields(lines[i]), j) {
            assert FieldFits(w, i, Fields(lines[i]), j);
          }
        }
        if r.error.None? {
          forall i, j | x <= i && Covered(lines, i, j)
            ensures FieldFits(w, i, Fields(lines[i]), j) && FieldStored(r.world, i, Fields(lines[i]), j)
          {
            if i == x {
              assert FieldFits(w, x, fields, j) && FieldStored(row.world, x, fields, j);
              assert r.world[x][j] == row.world[x][j];
            } else {
              assert FieldFits(row.world, i, Fields(lines[i]), j);
            }
          }
        }
      } else {
        var j :| 0 <= j < |fields| && !FieldFits(w, x, fields, j);
        assert Covered(lines, x, j);
      }
    }
  }

  /** The exception a bad field raises: ValueError when it is not an
      integer, IndexError when its cell is outside the grid. */
  function FieldError(field: string): LoadError {
    if ParseInt(field).None? then ValueError else IndexError
  }

  /** The inner loop stopped at field `j0` of line `x`: every field from `y`
      before it fits and is stored, field `j0` does not fit and raised its
      exception, and no other cell of `w` changed. */
  predicate RowFailedAt(w: Grid, x: int, fields: seq<string>, y: nat, j0: int, r: Loaded) {
    && y <= j0 < |fields|
    && !FieldFits(w, x, fields, j0)
    && (forall j :: y <= j < j0 ==> FieldFits(w, x, fields, j))
    && r.error == Some(FieldError(fields[j0]))
    && (forall j :: y <= j < j0 ==> FieldStored(r.world, x, fields, j))
    && SameShape(r.world, w)
    && (forall i, j :: 0 <= i < |w| && 0 <= j < |w[i]| && (i != x || j < y || j >= j0) ==>
          r.world[i][j] == w[i][j])
  }

  /** When the inner loop raises, it raised at its first field that does
      not fit, with the cells before it written and the rest untouched. */
  lemma {:induction false} LoadFieldsFails(w: Grid, x: nat, fields: seq<string>, y: nat)
    requires y <= |fields|
    decreases |fields| - y
    ensures LoadFields(w, x, fields, y).error.Some? ==>
      exists j0 :: RowFailedAt(w, x, fields, y, j0, LoadFields(w, x, fields, y))
  {
    var r := LoadFields(w, x, fields, y);
    if y < |fields| {
      if !FieldFits(w, x, fields, y) {
        assert RowFailedAt(w, x, fields, y, y, r);
      } else {
        var v := ParseInt(fields[y]).value;
        var w1 := w[x := w[x][y := v]];
        assert r == LoadFields(w1, x, fields, y + 1);
        LoadFieldsFails(w1, x, fields, y + 1);
        if r.error.Some? {
          var j0 :| RowFailedAt(w1, x, fields, y + 1, j0, r);
          assert FieldStored(r.world, x, fields, y) by {
            assert r.world[x][y] == w1[x][y] == v;
          }
          forall j | y < j < j0 ensures FieldFits(w, x, fields, j) && FieldStored(r.world, x, fields, j) {
            assert FieldFits(w1, x, fields, j);
          }
          assert !FieldFits(w, x, fields, j0) by {
            assert !FieldFits(w1, x, fields, j0);
          }
          assert RowFailedAt(w, x, fields, y, j0, r);
        }
      }
    }
  }

  /** Field (i, j) is scanned before field (i0, j0) by a load that starts
      at line x: lines in order, fields within a line in order. */
  predicate ScannedBefore(lines: seq<string>, x: int, i0: int, j0: int, i: int, j: int) {
    x <= i && Covered(lines, i, j) && (i < i0 || (i == i0 && j < j0))
  }

  /** The load from line x stopped at field (i0, j0): every field scanned
      before it fits and is stored in its cell, field (i0, j0) does not fit
      and raised its exception, and every other cell of `w` is unchanged. */
  ghost predicate FailedAt(w: Grid, lines: seq<string>, x: nat, i0: int, j0: int, r: Loaded) {
    && x <= i0 && Covered(lines, i0, j0)
    && !FieldFits(w, i0, Fields(lines[i0]), j0)
    && (forall i, j :: ScannedBefore(lines, x, i0, j0, i, j) ==> FieldFits(w, i, Fields(lines[i]), j))
    && r.error == Some(FieldError(Fields(lines[i0])[j0]))
    && (forall i, j :: ScannedBefore(lines, x, i0, j0, i, j) ==> FieldStored(r.world, i, Fields(lines[i]), j))
    && SameShape(r.world, w)
    && (forall i, j :: 0 <= i < |w| && 0 <= j < |w[i]| && !ScannedBefore(lines, x, i0, j0, i, j) ==>
          r.world[i][j] == w[i][j])
  }

  /** The error path of the load: when it raises, it raised at the first
      field in scan order that does not fit; every cell scanned before that
      field holds its field's value and every other cell is as before. */
  lemma {:induction false} LoadLinesFails(w: Grid, lines: seq<string>, x: nat)
    requires x <= |lines|
    decreases |lines| - x
    ensures LoadLines(w, lines, x).error.Some? ==>
      exists i0, j0 :: FailedAt(w, lines, x, i0, j0, LoadLines(w, lines, x))
  {
    if x < |lines| {
      var fields := Fields(lines[x]);
      var row := LoadFields(w, x, fields, 0);
      var r := LoadLines(w, lines, x);
      if row.error.Some? {
        LoadFieldsFails(w, x, fields, 0);
        var j0 :| RowFailedAt(w, x, fields, 0, j0, row);
        assert r == row;
        forall i, j | ScannedBefore(lines, x, x, j0, i, j)
          ensures FieldFits(w, i, Fields(lines[i]), j) && FieldStored(r.world, i, Fields(lines[i]), j)
        {
          assert i == x;
        }
        assert FailedAt(w, lines, x, x, j0, r);
      } else {
        LoadFieldsOk(w, x, fields, 0);
        LoadFieldsUntouched(w, x, fields, 0);
        LoadLinesFails(row.world, lines, x + 1);
        LoadLinesUntouched(row.world, lines, x + 1);
        assert r == LoadLines(row.world, lines, x + 1);
        if r.error.Some? {
          var i0, j0 :| FailedAt(row.world, lines, x + 1, i0, j0, r);
          forall i, j | ScannedBefore(lines, x, i0, j0, i, j)
            ensures FieldFits(w, i, Fields(lines[i]), j) && FieldStored(r.world, i, Fields(lines[i]), j)
          {
            if i == x {
              assert FieldFits(w, x, fields, j) && FieldStored(row.world, x, fields, j);
              assert r.world[x][j] == row.world[x][j];
            } else {
              assert ScannedBefore(lines, x + 1, i0, j0, i, j);
              assert FieldFits(row.world, i, Fields(lines[i]), j);
            }
          }
          forall i, j | 0 <= i < |w| && 0 <= j < |w[i]| && !ScannedBefore(lines, x, i0, j0, i, j)
            ensures r.world[i][j] == w[i][j]
          {
            assert !ScannedBefore(lines, x + 1, i0, j0, i, j);
            assert r.world[i][j] == row.world[i][j];
          }
          assert !FieldFits(w, i0, Fields(lines[i0]), j0) by {
            assert !FieldFits(row.world, i0, Fields(lines[i0]), j0);
          }
          assert FailedAt(w, lines, x, i0, j0, r);
        }
      }
    }
  }

  /** Save followed by load is the identity: loading the lines the editor
      saved for a grid into that grid overwrites every cell with its own
      value and raises nothing. */
  lemma LoadRoundTrip(g: Grid)
    ensures LoadLines(g, EncodeGrid(g), 0) == Loaded(g, None)
  {
    var lines := EncodeGrid(g);
    forall i | 0 <= i < |g| ensures Fields(lines[i]) == ShowRow(g[i]) {
      FieldsEncodeRow(g[i]);
    }
    forall i, j | 0 <= i && Covered(lines, i, j)
      ensures FieldFits(g, i, Fields(lines[i]), j) && ParseInt(Fields(lines[i])[j]) == Some(g[i][j])
    {
      ParseShow(g[i][j]);
    }
    LoadLinesOk(g, lines, 0);
    var r := LoadLines(g, lines, 0);
    forall i | 0 <= i < |g| ensures r.world[i] == g[i] {
      forall j | 0 <= j < |g[i]| ensures r.world[i][j] == g[i][j] {
        assert Covered(lines, i, j);
        assert FieldStored(r.world, i, Fields(lines[i]), j);
      }
    }
  }

  /** A bad field does not undo the cells written before it: loading
      "5,x" over a zero row leaves 5 in its first cell and raises ValueError. */
  lemma PartialLoadKeepsEarlierCells()
    ensures LoadLines([[0, 0]], ["5,x"], 0) == Loaded([[5, 0]], Some(ValueError))
  {
    assert Split("x") == ["x"] by {
      assert "x"[1..] == [];
      assert Split("x"[1..]) == [""];
      assert ['x'] + "" == "x";
    }
    assert Split(",x") == ["", "x"] by {
      assert ",x"[1..] == "x";
    }
    assert Split("5,x") == ["5", "x"] by {
      assert "5,x"[1..] == ",x";
      assert ['5'] + "" == "5";
    }
    assert ParseInt("5") == Some(5);
    assert ParseInt("x") == None;
    var fields := Fields("5,x");
    assert fields == ["5", "x"];
    var w: Grid := [[0, 0]];
    assert w[0][0 := 5] == [5, 0];
    assert w[0 := [5, 0]] == [[5, 0]];
    assert LoadFields([[5, 0]], 0, fields, 1) == Loaded([[5, 0]], Some(ValueError));
    assert LoadFields(w, 0, fields, 0) == Loaded([[5, 0]], Some(ValueError));
  }

  // ---------------------------------------------------------------------
  // The editor's state and its main loop

  class Editor {
    var world: Grid
    var level: int
    var currentTile: int
    var showSaved: int
    /** The level files on disk, by level index. */
    var files: map<int, seq<string>>
    /** Number of tile images, hence of palette buttons. */
    const paletteSize: nat

    /** The grid keeps its 16 × 20 shape, the level index is never negative,
        the selected tile is a palette index, and the "SAVED" countdown stays
        within [0, 30]. */
    ghost predicate Valid()
      reads this
    {
      && HasShape(world, Rows, MaxCols)
      && level >= 0
      && 0 <= currentTile < paletteSize
      && 0 <= showSaved <= SavedFrames
    }

    /** The editor at start-up: a ROWS × MAX_COLS grid of zeros, level 0,
        tile 1 selected. */
    constructor (paletteSize: nat, files: map<int, seq<string>>)
      requires paletteSize >= 2
      ensures Valid()
      ensures forall r, c :: 0 <= r < Rows && 0 <= c < MaxCols ==> world[r][c] == 0
      ensures level == 0 && currentTile == 1 && showSaved == 0
      ensures this.files == files && this.paletteSize == paletteSize
    {
      var g: Grid := [];
      var i := 0;
      while i < Rows
        invariant 0 <= i <= Rows
        invariant HasShape(g, i, MaxCols)
        invariant forall r, c :: 0 <= r < i && 0 <= c < MaxCols ==> g[r][c] == 0
      {
        var row := seq(MaxCols, _ => 0);
        g := g + [row];
        i := i + 1;
      }
      world := g;
      level, currentTile, showSaved := 0, 1, 0;
      this.files := files;
      this.paletteSize := paletteSize;
    }

    /** The save button: each row written as one line, in order, to the
        current level's file, replacing it; "SAVED" is shown for 30 ticks. */
    method Save()
      modifies this`files, this`showSaved
      ensures files == old(files)[level := EncodeGrid(world)]
      ensures showSaved == SavedFrames
    {
      var lines: seq<string> := [];
      var i := 0;
      while i < |world|
        invariant 0 <= i <= |world|
        invariant |lines| == i && forall k :: 0 <= k < i ==> lines[k] == EncodeRow(world[k])
      {
        lines := lines + [EncodeRow(world[i])];
        i := i + 1;
      }
      assert lines == EncodeGrid(world);
      files := files[level := lines];
      showSaved := SavedFrames;
    }

    /** The load button: the current level's file written over the grid cell
        by cell, line by line; an exception stops it where it occurs. */
    method Load() returns (err: Option<LoadError>)
      modifies this`world
      ensures Loaded(world, err) == LoadFile(old(world), files, level)
    {
      if level !in files {
        return Some(FileNotFound);
      }
      var lines := files[level];
      var x := 0;
      while x < |lines|
        invariant 0 <= x <= |lines|
        invariant LoadLines(world, lines, x) == LoadLines(old(world), lines, 0)
      {
        var row := Fields(lines[x]);
        ghost var rowStart := world;
        var y := 0;
        while y < |row|
          invariant 0 <= y <= |row|
          invariant LoadFields(world, x, row, y) == LoadFields(rowStart, x, row, 0)
        {
          var tile := ParseInt(row[y]);
          if tile.None? {
            return Some(ValueError);
          }
          if x >= |world| || y >= |world[x]| {
            return Some(IndexError);
          }
          world := world[x := world[x][y := tile.value]];
          y := y + 1;
        }
        x := x + 1;
      }
      err := None;
    }

    /** The "SAVED" countdown: one less per tick while positive. */
    method CountDown()
      modifies this`showSaved
      ensures showSaved == if old(showSaved) > 0 then old(showSaved) - 1 else old(showSaved)
    {
      if showSaved > 0 {
        showSaved := showSaved - 1;
      }
    }

    /** The palette pass: each clicked button in turn makes its index the
        current tile. */
    method SelectTile(clicks: seq<bool>)
      modifies this`currentTile
      ensures currentTile == SelectedTile(old(currentTile), clicks)
    {
      var i := 0;
      while i < |clicks|
        invariant 0 <= i <= |clicks|
        invariant currentTile == SelectedTile(old(currentTile), clicks[..i])
      {
        assert clicks[..i + 1][..i] == clicks[..i];
        if clicks[i] {
          currentTile := i;
        }
        i := i + 1;
      }
      assert clicks[..i] == clicks;
    }

    /** The pointer step: over the tile area, the left button paints the
        current tile (skipping the write when the cell already holds it) and
        the right button erases. */
    method PaintAt(px: nat, py: nat, left: bool, right: bool)
      requires HasShape(world, Rows, MaxCols)
      modifies this`world
      ensures world == Paint(old(world), currentTile, px, py, left, right)
    {
      var x := px / TileSize;
      var y := py / TileSize;
      if px < ScreenWidth && py < ScreenHeight {
        if left {
          if world[y][x] != currentTile {
            world := world[y := world[y][x := currentTile]];
          } else {
            assert world[y][x := currentTile] == world[y];
            assert world[y := world[y]] == world;
          }
        }
        if right {
          world := world[y := world[y][x := Empty]];
          assert world[y] == old(world)[y][x := Empty];
          assert world == old(world)[y := old(world)[y][x := Empty]];
        } else {
          var v := if left then currentTile else old(world)[y][x];
          assert old(world)[y][x := v] == world[y];
          assert world == old(world)[y := old(world)[y][x := v]];
        }
      }
    }

    /** The key-down events: UP raises the level index, DOWN lowers it
        unless it is 0. The grid is not reloaded. */
    method ChangeLevel(keys: seq<Key>)
      modifies this`level
      ensures level == LevelAfter(old(level), keys)
    {
      var i := 0;
      while i < |keys|
        invariant 0 <= i <= |keys|
        invariant level == LevelAfter(old(level), keys[..i])
      {
        assert keys[..i + 1][..i] == keys[..i];
        if keys[i] == Up {
          level := level + 1;
        }
        if keys[i] == Down && level > 0 {
          level := level - 1;
        }
        i := i + 1;
      }
      assert keys[..i] == keys;
    }

    /** One pass of the main loop: save, load, the countdown, the palette,
        the pointer and the keys, in that order. An exception from the load
        ends the pass (and the program) with the grid as far as it was
        written; `err` reports it. */
    method Tick(input: Input) returns (err: Option<LoadError>)
      requires Valid() && |input.tileClicks| == paletteSize
      modifies this
      ensures Valid()
      ensures files == if input.saveClicked then old(files)[old(level) := EncodeGrid(old(world))] else old(files)
      ensures var loaded := if input.loadClicked then LoadFile(old(world), files, old(level)) else Loaded(old(world), None);
        && err == loaded.error
        && (input.saveClicked ==> loaded == Loaded(old(world), None))
        && (err.Some? ==>
              && world == loaded.world
              && level == old(level) && currentTile == old(currentTile)
              && showSaved == (if input.saveClicked then SavedFrames else old(showSaved)))
        && (err.None? ==>
              && world == Paint(loaded.world, currentTile, input.pointerX, input.pointerY, input.leftButton, input.rightButton)
              && currentTile == SelectedTile(old(currentTile), input.tileClicks)
              && level == LevelAfter(old(level), input.keyDowns)
              && showSaved == (if input.saveClicked then SavedFrames - 1
                               else if old(showSaved) > 0 then old(showSaved) - 1 else 0))
    {
      if input.saveClicked {
        Save();
        LoadRoundTrip(world);
      }
      if input.loadClicked {
        err := Load();
        if err.Some? {
          return;
        }
      }
      err := None;
      CountDown();
      SelectTile(input.tileClicks);
      PaintAt(input.pointerX, input.pointerY, input.leftButton, input.rightButton);
      ChangeLevel(input.keyDowns);
    }
  }
}
