/** Rectangle geometry in integer pixels and the collision query of the
    game: which tiles block the player, and whether a player-sized box at a
    given position overlaps any of them. */
module Collision {
  import opened World

  /** The player's sprite is scaled to TILE_SIZE - 4 in both directions. */
  const PlayerWidth: int := TileSize - 4
  const PlayerHeight: int := TileSize - 4

  /** An axis-aligned rectangle: left, top, width, height. */
  datatype Rect = Rect(x: int, y: int, w: int, h: int)

  /** `Rect.colliderect`: the half-open boxes [x, x+w) × [y, y+h) share an
      interior point. Rectangles that only touch along an edge do not. */
  predicate Overlaps(a: Rect, b: Rect) {
    a.x < b.x + b.w && b.x < a.x + a.w && a.y < b.y + b.h && b.y < a.y + a.h
  }

  /** Screen rectangle of the cell in row `r`, column `c`. */
  function TileRect(r: int, c: int): Rect {
    Rect(c * TileSize, r * TileSize, TileSize, TileSize)
  }

  /** The player's rectangle with its top-left corner at (x, y). */
  function PlayerRect(x: int, y: int): Rect {
    Rect(x, y, PlayerWidth, PlayerHeight)
  }

  /** Tiles with a positive id block movement, except the pickup. */
  predicate IsSolid(tile: int) {
    tile > 0 && tile != HealthBoxTile
  }

  /** Cell (r, c) exists, is solid, and overlaps the player box at (x, y). */
  predicate Blocks(g: Grid, r: int, c: int, x: int, y: int) {
    0 <= r < |g| && 0 <= c < |g[r]| && IsSolid(g[r][c]) &&
    Overlaps(TileRect(r, c), PlayerRect(x, y))
  }

  /** The player box at (x, y) overlaps some solid tile of the grid. */
  predicate Collides(g: Grid, x: int, y: int) {
    exists r, c :: 0 <= r < |g| && 0 <= c < |g[r]| && Blocks(g, r, c, x, y)
  }

  /** A player standing exactly on the top-left corner of a solid tile collides. */
  lemma OnSolidTileCollides(g: Grid, r: int, c: int)
    requires 0 <= r < |g| && 0 <= c < |g[r]| && IsSolid(g[r][c])
    ensures Collides(g, c * TileSize, r * TileSize)
  {
    assert Blocks(g, r, c, c * TileSize, r * TileSize);
  }

  /** A player touching a tile only along one of its edges does not overlap
      it: not when walking into it from the left or from above, and not when
      leaving it to the right or below. */
  lemma EdgeContactDoesNotOverlap(r: int, c: int, x: int, y: int)
    requires || x + PlayerWidth == c * TileSize || x == (c + 1) * TileSize
             || y + PlayerHeight == r * TileSize || y == (r + 1) * TileSize
    ensures !Overlaps(TileRect(r, c), PlayerRect(x, y))
  {
  }

  /** Empty cells, background and pickups never block: a grid without solid
      tiles collides nowhere. */
  lemma NoSolidNoCollision(g: Grid, x: int, y: int)
    requires forall r, c :: 0 <= r < |g| && 0 <= c < |g[r]| ==> g[r][c] in {Empty, 0, HealthBoxTile}
    ensures !Collides(g, x, y)
  {
  }
}
