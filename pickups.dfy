/** Health-box pickups: which cells the player's box collects at a given
    position, the grid after collecting them, and how many there were. */
module Pickups {
  import opened World
  import opened Collision

  /** `tile`, in cell (r, c), is a health box overlapping the player at (x, y). */
  predicate Picks(tile: int, r: int, c: int, x: int, y: int) {
    tile == HealthBoxTile && Overlaps(PlayerRect(x, y), TileRect(r, c))
  }

  /** Row `r` after its collected health boxes have become empty cells. */
  function CollectRow(row: seq<int>, r: int, x: int, y: int): seq<int> {
    seq(|row|, c requires 0 <= c < |row| => if Picks(row[c], r, c, x, y) then Empty else row[c])
  }

  /** The grid after the player at (x, y) has collected every overlapping health box. */
  function Collected(g: Grid, x: int, y: int): Grid {
    seq(|g|, r requires 0 <= r < |g| => CollectRow(g[r], r, x, y))
  }

  /** Number of health boxes of row `r` the player at (x, y) collects. */
  function Hits(row: seq<int>, r: int, x: int, y: int): nat {
    if row == [] then 0
    else Hits(row[..|row| - 1], r, x, y) + (if Picks(row[|row| - 1], r, |row| - 1, x, y) then 1 else 0)
  }

  /** Number of health boxes of the whole grid the player at (x, y) collects. */
  function GridHits(g: Grid, x: int, y: int): nat {
    if g == [] then 0
    else GridHits(g[..|g| - 1], x, y) + Hits(g[|g| - 1], |g| - 1, x, y)
  }

  /** Collecting keeps the grid's shape and changes only collected health
      boxes, each into an empty cell. */
  lemma CollectedCells(g: Grid, x: int, y: int)
    ensures SameShape(Collected(g, x, y), g)
    ensures forall r, c :: 0 <= r < |g| && 0 <= c < |g[r]| ==>
      Collected(g, x, y)[r][c] == (if Picks(g[r][c], r, c, x, y) then Empty else g[r][c])
  {
  }

  /** Within a row, the boxes collected plus the boxes left equal the boxes before. */
  lemma {:induction false} RowConservation(row: seq<int>, r: int, x: int, y: int)
    ensures Count(CollectRow(row, r, x, y), HealthBoxTile) + Hits(row, r, x, y) == Count(row, HealthBoxTile)
  {
    if row != [] {
      var n := |row| - 1;
      var out := CollectRow(row, r, x, y);
      RowConservation(row[..n], r, x, y);
      assert out[..n] == CollectRow(row[..n], r, x, y);
    }
  }

  /** Conservation of health boxes: those collected in one step plus those
      still in the grid equal those in the grid before the step. */
  lemma {:induction false} Conservation(g: Grid, x: int, y: int)
    ensures CountGrid(Collected(g, x, y), HealthBoxTile) + GridHits(g, x, y) == CountGrid(g, HealthBoxTile)
  {
    if g != [] {
      var n := |g| - 1;
      var out := Collected(g, x, y);
      Conservation(g[..n], x, y);
      assert out[..n] == Collected(g[..n], x, y);
      RowConservation(g[n], n, x, y);
    }
  }

  /** A row in which nothing is collectable yields no hits. */
  lemma {:induction false} HitsNone(row: seq<int>, r: int, x: int, y: int)
    requires forall c :: 0 <= c < |row| ==> !Picks(row[c], r, c, x, y)
    ensures Hits(row, r, x, y) == 0
  {
    if row != [] {
      HitsNone(row[..|row| - 1], r, x, y);
    }
  }

  lemma {:induction false} GridHitsNone(g: Grid, x: int, y: int)
    requires forall r, c :: 0 <= r < |g| && 0 <= c < |g[r]| ==> !Picks(g[r][c], r, c, x, y)
    ensures GridHits(g, x, y) == 0
  {
    if g != [] {
      var n := |g| - 1;
      GridHitsNone(g[..n], x, y);
      HitsNone(g[n], n, x, y);
    }
  }

  /** Collecting again without moving changes nothing and collects nothing. */
  lemma CollectIdempotent(g: Grid, x: int, y: int)
    ensures Collected(Collected(g, x, y), x, y) == Collected(g, x, y)
    ensures GridHits(Collected(g, x, y), x, y) == 0
  {
    var h := Collected(g, x, y);
    GridHitsNone(h, x, y);
    forall r | 0 <= r < |g| ensures CollectRow(h[r], r, x, y) == h[r] {
      assert CollectRow(h[r], r, x, y) == CollectRow(CollectRow(g[r], r, x, y), r, x, y);
    }
  }

  /** Removing health boxes never adds or removes an obstacle: the grid
      collides at exactly the positions it collided at before. */
  lemma CollectedKeepsCollisions(g: Grid, x: int, y: int, px: int, py: int)
    ensures Collides(Collected(g, x, y), px, py) <==> Collides(g, px, py)
  {
    var h := Collected(g, x, y);
    if Collides(g, px, py) {
      var r, c :| 0 <= r < |g| && 0 <= c < |g[r]| && Blocks(g, r, c, px, py);
      assert h[r][c] == g[r][c];
      assert Blocks(h, r, c, px, py);
    }
    if Collides(h, px, py) {
      var r, c :| 0 <= r < |h| && 0 <= c < |h[r]| && Blocks(h, r, c, px, py);
      assert h[r][c] == (if Picks(g[r][c], r, c, x, y) then Empty else g[r][c]);
      assert Blocks(g, r, c, px, py);
    }
  }
}
