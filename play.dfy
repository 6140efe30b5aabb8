/** The playable level: loading a level file, the player's per-tick
    movement with axis-separated collision resolution, health-box pickup,
    and the win latch of the main loop. The module globals `health`,
    `total_health_boxes`, `collected_health_boxes` and `win`, and the level
    grid, are the fields of `Game`. */
module Play {
  import opened World
  import opened LevelCodec
  import opened Collision
  import opened Pickups

  const Speed: int := 3
  const HealthBoxValue: int := 1

  /** The four arrow keys held during this tick. */
  datatype Keys = Keys(left: bool, right: bool, up: bool, down: bool)

  /** Horizontal velocity: RIGHT is tested after LEFT, so it wins when both are held. */
  function VelocityX(k: Keys): (v: int)
    ensures v == -Speed || v == 0 || v == Speed
    ensures v == Speed <==> k.right
    ensures v == -Speed <==> k.left && !k.right
  {
    if k.right then Speed else if k.left then -Speed else 0
  }

  /** Vertical velocity: DOWN is tested after UP, so it wins when both are held. */
  function VelocityY(k: Keys): (v: int)
    ensures v == -Speed || v == 0 || v == Speed
    ensures v == Speed <==> k.down
    ensures v == -Speed <==> k.up && !k.down
  {
    if k.down then Speed else if k.up then -Speed else 0
  }

  /** The screen-boundary check: the smallest move that keeps a box of
      width `size` inside [0, limit). */
  function Clamp(v: int, size: int, limit: int): (r: int)
    requires 0 <= size <= limit
    ensures 0 <= r <= limit - size
    ensures 0 <= v <= limit - size ==> r == v
    ensures v < 0 ==> r == 0
    ensures v > limit - size ==> r == limit - size
  {
    if v < 0 then 0 else if v + size > limit then limit - size else v
  }

  datatype Pos = Pos(x: int, y: int)

  /** The player's box lies wholly inside the screen. */
  predicate OnScreen(p: Pos) {
    0 <= p.x <= ScreenWidth - PlayerWidth && 0 <= p.y <= ScreenHeight - PlayerHeight
  }

  /** Where one movement step takes the player at `p` in grid `g`: the
      clamped candidate X is committed unless it collides at the old Y; then
      the clamped candidate Y is committed unless it collides at the X just
      committed. */
  function NextPosition(g: Grid, p: Pos, k: Keys): Pos {
    var nx := Clamp(p.x + VelocityX(k), PlayerWidth, ScreenWidth);
    var x := if Collides(g, nx, p.y) then p.x else nx;
    var ny := Clamp(p.y + VelocityY(k), PlayerHeight, ScreenHeight);
    var y := if Collides(g, x, ny) then p.y else ny;
    Pos(x, y)
  }

  /** Each axis either takes its clamped candidate or stays, and it stays
      exactly when the candidate collides (X tested at the old Y, Y tested
      at the new X). */
  lemma AxisSeparated(g: Grid, p: Pos, k: Keys)
    ensures var q := NextPosition(g, p, k);
      var nx := Clamp(p.x + VelocityX(k), PlayerWidth, ScreenWidth);
      var ny := Clamp(p.y + VelocityY(k), PlayerHeight, ScreenHeight);
      && (q.x == nx || q.x == p.x)
      && (q.y == ny || q.y == p.y)
      && (!Collides(g, nx, p.y) ==> q.x == nx)
      && (Collides(g, nx, p.y) ==> q.x == p.x)
      && (!Collides(g, q.x, ny) ==> q.y == ny)
      && (Collides(g, q.x, ny) ==> q.y == p.y)
  {
  }

  /** A player that starts on screen stays on screen. */
  lemma StaysOnScreen(g: Grid, p: Pos, k: Keys)
    requires OnScreen(p)
    ensures OnScreen(NextPosition(g, p, k))
  {
  }

  /** A player that does not overlap a solid tile never moves into one. */
  lemma NeverEntersSolid(g: Grid, p: Pos, k: Keys)
    requires !Collides(g, p.x, p.y)
    ensures !Collides(g, NextPosition(g, p, k).x, NextPosition(g, p, k).y)
  {
  }

  /** `load_level_data`: the rows of the file as integer lists, in file
      order, and the number of health boxes among them, counted row by row
      in the same pass. A missing file or a non-integer field aborts. */
  method LoadLevelData(file: Option<seq<string>>) returns (err: Option<LoadError>, world: Grid, boxes: nat)
    ensures file.None? ==> err == Some(FileNotFound)
    ensures file.Some? ==> (err.None? <==> DecodeLines(file.value).Some?)
    ensures file.Some? && err.Some? ==> err == Some(ValueError)
    ensures err.None? ==> file.Some? && Some(world) == DecodeLines(file.value)
    ensures err.None? ==> boxes == CountGrid(world, HealthBoxTile)
  {
    world, boxes := [], 0;
    if file.None? {
      return Some(FileNotFound), world, boxes;
    }
    var lines := file.value;
    var i := 0;
    ghost var rows := FieldsOf(lines);
    while i < |lines|
      invariant 0 <= i <= |lines|
      invariant DecodeRows(rows[..i]) == Some(world)
      invariant boxes == CountGrid(world, HealthBoxTile)
    {
      var row := ParseRow(Fields(lines[i]));
      assert rows[..i + 1][..i] == rows[..i];
      if row.None? {
        DecodePrefixFails(rows, i + 1);
        return Some(ValueError), world, boxes;
      }
      assert (world + [row.value])[..|world|] == world;
      world := world + [row.value];
      boxes := boxes + Count(row.value, HealthBoxTile);
      i := i + 1;
    }
    assert rows[..i] == rows;
    err := None;
  }

  /** A file whose first `n` lines do not decode does not decode. */
  lemma {:induction false} DecodePrefixFails(rows: seq<seq<string>>, n: nat)
    requires n <= |rows| && DecodeRows(rows[..n]).None?
    ensures DecodeRows(rows).None?
    decreases |rows| - n
  {
    if n < |rows| {
      assert rows[..n + 1][..n] == rows[..n];
      DecodePrefixFails(rows, n + 1);
    } else {
      assert rows[..n] == rows;
    }
  }

  class Player {
    var x: int
    var y: int
    var velX: int
    var velY: int

    /** A player with its box's top-left corner at (x0, y0), not moving. */
    constructor (x0: int, y0: int)
      ensures x == x0 && y == y0 && velX == 0 && velY == 0
    {
      x, y := x0, y0;
      velX, velY := 0, 0;
    }

    /** `check_collision`: scans the grid row by row and stops at the first
        solid tile overlapping a player-sized box at (px, py). */
    method CheckCollision(px: int, py: int, world: Grid) returns (hit: bool)
      ensures hit == Collides(world, px, py)
    {
      var r := 0;
      while r < |world|
        invariant 0 <= r <= |world|
        invariant forall i, j :: 0 <= i < r && 0 <= j < |world[i]| ==> !Blocks(world, i, j, px, py)
      {
        var c := 0;
        while c < |world[r]|
          invariant 0 <= c <= |world[r]|
          invariant forall j :: 0 <= j < c ==> !Blocks(world, r, j, px, py)
        {
          var tile := world[r][c];
          if tile > 0 && tile != HealthBoxTile {
            if Overlaps(TileRect(r, c), PlayerRect(px, py)) {
              assert Blocks(world, r, c, px, py);
              return true;
            }
          }
          c := c + 1;
        }
        r := r + 1;
      }
      return false;
    }

    /** `collect_health_kit`: every health box overlapping the player becomes
        an empty cell, and health and the collected count grow by one box's
        worth each. */
    method CollectHealthKit(game: Game)
      modifies game
      ensures game.world == Collected(old(game.world), x, y)
      ensures game.collected == old(game.collected) + GridHits(old(game.world), x, y)
      ensures game.health == old(game.health) + HealthBoxValue * GridHits(old(game.world), x, y)
      ensures game.total == old(game.total) && game.win == old(game.win)
    {
      ghost var w0 := game.world;
      var r := 0;
      while r < |game.world|
        invariant 0 <= r <= |game.world| == |w0|
        invariant forall i :: 0 <= i < r ==> game.world[i] == CollectRow(w0[i], i, x, y)
        invariant forall i :: r <= i < |w0| ==> game.world[i] == w0[i]
        invariant game.collected == old(game.collected) + GridHits(w0[..r], x, y)
        invariant game.health == old(game.health) + HealthBoxValue * GridHits(w0[..r], x, y)
        invariant game.total == old(game.total) && game.win == old(game.win)
      {
        CollectInRow(game, r);
        assert w0[..r + 1][..r] == w0[..r];
        r := r + 1;
      }
      assert w0[..r] == w0;
    }

    /** The inner loop of `collect_health_kit`: row `r`, left to right. */
    method CollectInRow(game: Game, r: nat)
      requires r < |game.world|
      modifies game
      ensures game.world == old(game.world)[r := CollectRow(old(game.world)[r], r, x, y)]
      ensures game.collected == old(game.collected) + Hits(old(game.world)[r], r, x, y)
      ensures game.health == old(game.health) + HealthBoxValue * Hits(old(game.world)[r], r, x, y)
      ensures game.total == old(game.total) && game.win == old(game.win)
    {
      ghost var w0 := game.world;
      var c := 0;
      while c < |game.world[r]|
        invariant |game.world| == |w0|
        invariant 0 <= c <= |game.world[r]| == |w0[r]|
        invariant forall i :: 0 <= i < |w0| && i != r ==> game.world[i] == w0[i]
        invariant forall j :: 0 <= j < c ==> game.world[r][j] == CollectRow(w0[r], r, x, y)[j]
        invariant forall j :: c <= j < |w0[r]| ==> game.world[r][j] == w0[r][j]
        invariant game.collected == old(game.collected) + Hits(w0[r][..c], r, x, y)
        invariant game.health == old(game.health) + HealthBoxValue * Hits(w0[r][..c], r, x, y)
        invariant game.total == old(game.total) && game.win == old(game.win)
      {
        assert w0[r][..c + 1][..c] == w0[r][..c];
        if game.world[r][c] == HealthBoxTile {
          if Overlaps(PlayerRect(x, y), TileRect(r, c)) {
            game.world := game.world[r := game.world[r][c := Empty]];
            game.health := game.health + HealthBoxValue;
            game.collected := game.collected + 1;
          }
        }
        c := c + 1;
      }
      assert w0[r][..c] == w0[r];
      assert game.world[r] == CollectRow(w0[r], r, x, y);
      assert game.world == w0[r := CollectRow(w0[r], r, x, y)];
    }

    /** `update`: velocity from the held keys, a clamped candidate position,
        X then Y committed only when free of solid tiles, then pickup at the
        new position. */
    method Update(game: Game, keys: Keys)
      modifies this, game
      ensures velX == VelocityX(keys) && velY == VelocityY(keys)
      ensures Pos(x, y) == NextPosition(old(game.world), Pos(old(x), old(y)), keys)
      ensures game.world == Collected(old(game.world), x, y)
      ensures game.collected == old(game.collected) + GridHits(old(game.world), x, y)
      ensures game.health == old(game.health) + HealthBoxValue * GridHits(old(game.world), x, y)
      ensures game.total == old(game.total) && game.win == old(game.win)
    {
      var vx, vy := 0, 0;
      if keys.left {
        vx := -Speed;
      }
      if keys.right {
        vx := Speed;
      }
      if keys.up {
        vy := -Speed;
      }
      if keys.down {
        vy := Speed;
      }
      velX, velY := vx, vy;

      // the boundary check, one axis at a time
      var newX := Clamp(x + velX, PlayerWidth, ScreenWidth);
      var newY := Clamp(y + velY, PlayerHeight, ScreenHeight);

      var blocked := CheckCollision(newX, y, game.world);
      if !blocked {
        x := newX;
      }
      blocked := CheckCollision(x, newY, game.world);
      if !blocked {
        y := newY;
      }

      CollectHealthKit(game);
    }
  }

  class Game {
    var world: Grid
    var health: int
    var total: int
    var collected: int
    var win: bool
    const player: Player

    /** Every health box is either collected or still in the grid, health
        is one box's worth per box collected, and a won game has collected
        them all. */
    ghost predicate Valid()
      reads this
    {
      && collected >= 0
      && health == HealthBoxValue * collected
      && collected + CountGrid(world, HealthBoxTile) == total
      && (win ==> collected >= total)
    }

    /** The game as it starts on a loaded level: the player at tile (2, 2),
        no health, nothing collected, not yet won. */
    constructor (level: Grid, boxes: nat)
      requires boxes == CountGrid(level, HealthBoxTile)
      ensures Valid()
      ensures world == level && total == boxes
      ensures health == 0 && collected == 0 && !win
      ensures fresh(player) && player.x == 2 * TileSize && player.y == 2 * TileSize
    {
      world := level;
      health, total, collected := 0, boxes, 0;
      win := false;
      player := new Player(2 * TileSize, 2 * TileSize);
    }

    /** One pass of the main loop: the player is updated only while the game
        is not won; then the game is won once every box is collected. */
    method Tick(keys: Keys)
      requires Valid()
      modifies this, player
      ensures Valid()
      ensures total == old(total)
      ensures win <==> old(win) || collected >= total
      ensures win ==> CountGrid(world, HealthBoxTile) == 0
      ensures old(win) ==> world == old(world) && health == old(health) && collected == old(collected)
      ensures old(win) ==> player.x == old(player.x) && player.y == old(player.y)
      ensures old(win) ==> player.velX == old(player.velX) && player.velY == old(player.velY)
      ensures !old(win) ==> player.velX == VelocityX(keys) && player.velY == VelocityY(keys)
      ensures !old(win) ==>
        && Pos(player.x, player.y) == NextPosition(old(world), Pos(old(player.x), old(player.y)), keys)
        && world == Collected(old(world), player.x, player.y)
        && collected == old(collected) + GridHits(old(world), player.x, player.y)
    {
      if !win {
        player.Update(this, keys);
        Conservation(old(world), player.x, player.y);
      }
      if collected >= total {
        win := true;
      }
    }
  }
}
