/** The world grid shared by the editor and the game: its dimensions, the
    reserved tile ids, and counting tiles of one id. A grid is a sequence of
    rows of signed tile ids; -1 is an empty cell, 0 background, a positive id
    a tile image (HealthBoxTile is the pickup). */
module World {

  datatype Option<+T> = None | Some(value: T)

  /** The exceptions loading a level file can raise: the file is absent, a
      field is not an integer, or a cell index lies outside the grid. */
  datatype LoadError = FileNotFound | ValueError | IndexError

  const ScreenWidth: int := 800
  const ScreenHeight: int := 640
  const Rows: int := 16
  const MaxCols: int := 20
  /** SCREEN_HEIGHT // ROWS */
  const TileSize: int := ScreenHeight / Rows

  const Empty: int := -1
  const HealthBoxTile: int := 2

  type Grid = seq<seq<int>>

  /** Every row of `g` has `cols` cells and there are `rows` of them. */
  predicate HasShape(g: Grid, rows: int, cols: int) {
    |g| == rows && forall r :: 0 <= r < |g| ==> |g[r]| == cols
  }

  /** `h` has exactly the same row count and row lengths as `g` (grids may be ragged). */
  predicate SameShape(g: Grid, h: Grid) {
    |g| == |h| && forall r :: 0 <= r < |g| ==> |g[r]| == |h[r]|
  }

  /** Number of cells of `row` equal to `v` (Python's `list.count`). */
  function Count(row: seq<int>, v: int): (n: nat)
    ensures n <= |row|
  {
    if row == [] then 0
    else Count(row[..|row| - 1], v) + (if row[|row| - 1] == v then 1 else 0)
  }

  /** Number of cells of the whole grid equal to `v`. */
  function CountGrid(g: Grid, v: int): nat {
    if g == [] then 0
    else CountGrid(g[..|g| - 1], v) + Count(g[|g| - 1], v)
  }

  /** A row holds `v` somewhere exactly when its count of `v` is positive. */
  lemma {:induction false} CountPositive(row: seq<int>, v: int)
    ensures Count(row, v) > 0 <==> exists c :: 0 <= c < |row| && row[c] == v
  {
    if row != [] {
      var init := row[..|row| - 1];
      CountPositive(init, v);
      if exists c :: 0 <= c < |init| && init[c] == v {
        var c :| 0 <= c < |init| && init[c] == v;
        assert row[c] == v;
      }
      if exists c :: 0 <= c < |row| && row[c] == v {
        var c :| 0 <= c < |row| && row[c] == v;
        if c < |init| { assert init[c] == v; }
      }
    }
  }

  /** A grid's count of `v` is zero exactly when no cell holds `v`. */
  lemma {:induction false} CountGridZero(g: Grid, v: int)
    ensures CountGrid(g, v) == 0 <==>
      forall r, c :: 0 <= r < |g| && 0 <= c < |g[r]| ==> g[r][c] != v
  {
    if g != [] {
      var init := g[..|g| - 1];
      CountGridZero(init, v);
      CountPositive(g[|g| - 1], v);
      if CountGrid(g, v) == 0 {
        forall r, c | 0 <= r < |g| && 0 <= c < |g[r]| ensures g[r][c] != v {
          if r < |init| { assert g[r] == init[r]; }
        }
      }
    }
  }
}
