/** The work scheduler (Renderer.hpp): the image is cut into 64x64 tiles, clipped at the right
    and top edges, and workers claim tile indices from a shared counter until it passes the
    tile count. The counter is an atomic in the source; here the claims are the values it
    hands out, one after the other, and the pixels a worker renders are recorded in the order
    it renders them. */
module Renderers {
  import opened Scalar
  import opened Viewports

  /** `tileSize = 64`. */
  const TileSize: nat := 64

  datatype Pixel = Pixel(col: nat, row: nat)

  datatype Tile = Tile(x: nat, y: nat)

  predicate InImage(vp: Viewport, p: Pixel) {
    p.col < vp.width && p.row < vp.height
  }

  /** No element occurs twice. */
  predicate Distinct<T(==)>(s: seq<T>) {
    forall i, j :: 0 <= i < j < |s| ==> s[i] != s[j]
  }

  // ---------------------------------------------------------------- tile grid

  /** `(n + tileSize - 1) / tileSize`: the number of tiles that cover n pixels. */
  function TilesAlong(n: nat): (t: nat)
    ensures n <= t * TileSize
    ensures 0 < t ==> (t - 1) * TileSize < n
    ensures t == 0 <==> n == 0
  {
    (n + TileSize - 1) / TileSize
  }

  function TilesX(vp: Viewport): nat {
    TilesAlong(vp.width)
  }

  /** `tileAmount = tilesX * tilesY`. */
  function TileAmount(vp: Viewport): nat {
    TilesX(vp) * TilesAlong(vp.height)
  }

  /** `tileX = tileIndex % tilesX`, `tileY = tileIndex / tilesX`. */
  function TileOf(vp: Viewport, i: nat): Tile
    requires 0 < TilesX(vp)
  {
    Tile(i % TilesX(vp), i / TilesX(vp))
  }

  /** The row-major index of a tile; the inverse of `TileOf`. */
  function TileIndex(vp: Viewport, t: Tile): nat {
    t.y * TilesX(vp) + t.x
  }

  predicate InTileGrid(vp: Viewport, t: Tile) {
    t.x < TilesX(vp) && t.y < TilesAlong(vp.height)
  }

  /** The tile holding a pixel. */
  function PixelTile(p: Pixel): Tile {
    Tile(p.col / TileSize, p.row / TileSize)
  }

  /** A non-empty grid has at least one tile per row. */
  lemma PositiveTilesX(vp: Viewport, i: nat)
    requires i < TileAmount(vp)
    ensures 0 < TilesX(vp)
  {
  }

  /** Tile indices and tile coordinates correspond one to one: every index below the tile
      count names a tile of the grid, every tile of the grid has an index below the count,
      and the two maps undo each other. */
  lemma TileIndexBijection(vp: Viewport, i: nat, t: Tile)
    requires 0 < TilesX(vp)
    ensures i < TileAmount(vp) <==> InTileGrid(vp, TileOf(vp, i))
    ensures TileIndex(vp, TileOf(vp, i)) == i
    ensures InTileGrid(vp, t) ==> TileIndex(vp, t) < TileAmount(vp) && TileOf(vp, TileIndex(vp, t)) == t
  {
    var n := TilesX(vp);
    RowMajorBound(i, n, TilesAlong(vp.height));
    assert i == (i / n) * n + i % n;
    if InTileGrid(vp, t) {
      DivModUnique(n, t.y, t.x);
      RowMajorBound(TileIndex(vp, t), n, TilesAlong(vp.height));
    }
  }

  /** Every pixel of the image lies in a tile of the grid. */
  lemma PixelTileInGrid(vp: Viewport, p: Pixel)
    requires InImage(vp, p)
    ensures InTileGrid(vp, PixelTile(p))
  {
  }

  // ---------------------------------------------------------------- renderTile

  /** Pixels `(x0, row) .. (x1 - 1, row)`, left to right. */
  function Row(row: nat, x0: nat, x1: nat): seq<Pixel>
    decreases x1
  {
    if x1 <= x0 then [] else Row(row, x0, x1 - 1) + [Pixel(x1 - 1, row)]
  }

  /** Rows y0 .. y1 - 1, bottom to top, each from x0 to x1 - 1. */
  function Block(x0: nat, x1: nat, y0: nat, y1: nat): seq<Pixel>
    decreases y1
  {
    if y1 <= y0 then [] else Block(x0, x1, y0, y1 - 1) + Row(y1 - 1, x0, x1)
  }

  /** `stopX = min(tileOffsetX + tileSize, vp.width())`. */
  function TileStop(k: nat, n: nat): nat {
    MinInt(k * TileSize + TileSize, n)
  }

  /** The pixels `renderTile(x, y)` renders, in order. */
  function TilePixels(vp: Viewport, t: Tile): seq<Pixel> {
    Block(t.x * TileSize, TileStop(t.x, vp.width), t.y * TileSize, TileStop(t.y, vp.height))
  }

  /** `renderTile(pixelRenderer, tileX, tileY, tileSize)`: a row loop around a column loop. */
  method RenderTile(vp: Viewport, t: Tile) returns (visited: seq<Pixel>)
    ensures visited == TilePixels(vp, t)
  {
    var x0, y0 := t.x * TileSize, t.y * TileSize;
    var stopX, stopY := TileStop(t.x, vp.width), TileStop(t.y, vp.height);
    visited := [];
    var row := y0;
    while row < stopY
      invariant row == y0 || y0 < row <= stopY
      invariant visited == Block(x0, stopX, y0, row)
      decreases stopY - row
    {
      var col := x0;
      var line: seq<Pixel> := [];
      while col < stopX
        invariant col == x0 || x0 < col <= stopX
        invariant line == Row(row, x0, col)
        decreases stopX - col
      {
        line := line + [Pixel(col, row)];
        col := col + 1;
      }
      assert line == Row(row, x0, stopX);
      visited := visited + line;
      row := row + 1;
    }
    assert visited == Block(x0, stopX, y0, stopY);
  }

  lemma {:induction false} InRow(row: nat, x0: nat, x1: nat, p: Pixel)
    ensures p in Row(row, x0, x1) <==> p.row == row && x0 <= p.col < x1
    decreases x1
  {
    if x0 < x1 {
      InRow(row, x0, x1 - 1, p);
    }
  }

  lemma {:induction false} RowDistinct(row: nat, x0: nat, x1: nat)
    ensures Distinct(Row(row, x0, x1))
    decreases x1
  {
    if x0 < x1 {
      RowDistinct(row, x0, x1 - 1);
      InRow(row, x0, x1 - 1, Pixel(x1 - 1, row));
      DistinctAppend(Row(row, x0, x1 - 1), [Pixel(x1 - 1, row)]);
    }
  }

  /** A block holds exactly the pixels of its rectangle. */
  lemma {:induction false} InBlock(x0: nat, x1: nat, y0: nat, y1: nat, p: Pixel)
    ensures p in Block(x0, x1, y0, y1) <==> x0 <= p.col < x1 && y0 <= p.row < y1
    decreases y1
  {
    if y0 < y1 {
      InBlock(x0, x1, y0, y1 - 1, p);
      InRow(y1 - 1, x0, x1, p);
      InConcat(Block(x0, x1, y0, y1 - 1), Row(y1 - 1, x0, x1), p);
    }
  }

  lemma InConcat<T>(a: seq<T>, b: seq<T>, x: T)
    ensures x in a + b <==> x in a || x in b
  {
  }

  lemma {:induction false} BlockDistinct(x0: nat, x1: nat, y0: nat, y1: nat)
    ensures Distinct(Block(x0, x1, y0, y1))
    decreases y1
  {
    if y0 < y1 {
      var below, top := Block(x0, x1, y0, y1 - 1), Row(y1 - 1, x0, x1);
      BlockDistinct(x0, x1, y0, y1 - 1);
      RowDistinct(y1 - 1, x0, x1);
      forall p | p in below
        ensures p !in top
      {
        InBlock(x0, x1, y0, y1 - 1, p);
        InRow(y1 - 1, x0, x1, p);
      }
      DistinctAppend(below, top);
    }
  }

  lemma DistinctAppend<T>(a: seq<T>, b: seq<T>)
    requires Distinct(a) && Distinct(b)
    requires forall x :: x in a ==> x !in b
    ensures Distinct(a + b)
  {
    forall i, j | 0 <= i < j < |a + b|
      ensures (a + b)[i] != (a + b)[j]
    {
      if j >= |a| && i < |a| {
        assert (a + b)[i] in a;
      }
    }
  }

  /** `renderTile` visits, once each, exactly the pixels of the image whose tile it is given:
      the tile's 64x64 square clipped to the image. */
  lemma TileCoverage(vp: Viewport, t: Tile, p: Pixel)
    ensures p in TilePixels(vp, t) <==> InImage(vp, p) && PixelTile(p) == t
    ensures Distinct(TilePixels(vp, t))
  {
    InBlock(t.x * TileSize, TileStop(t.x, vp.width), t.y * TileSize, TileStop(t.y, vp.height), p);
    BlockDistinct(t.x * TileSize, TileStop(t.x, vp.width), t.y * TileSize, TileStop(t.y, vp.height));
    InSquare(p.col, t.x);
    InSquare(p.row, t.y);
  }

  /** Coordinate c lies in the span of tile coordinate k exactly when `c / tileSize == k`. */
  lemma InSquare(c: nat, k: nat)
    ensures k * TileSize <= c < k * TileSize + TileSize <==> c / TileSize == k
  {
    if k * TileSize <= c < k * TileSize + TileSize {
      DivModUnique(TileSize, k, c - k * TileSize);
    }
  }

  // ---------------------------------------------------------------- renderTiles

  /** The pixels rendered by the tiles with indices lo .. hi - 1, in claim order. */
  function Tiles(vp: Viewport, lo: nat, hi: nat): seq<Pixel>
    requires hi <= TileAmount(vp)
    decreases hi
  {
    if hi <= lo then []
    else
      PositiveTilesX(vp, hi - 1);
      Tiles(vp, lo, hi - 1) + TilePixels(vp, TileOf(vp, hi - 1))
  }

  /** `renderTiles(pixelRenderer, counter)`: claim indices until one is past the tile count.
      Returns the pixels rendered and the counter after the last claim. */
  method RenderTiles(vp: Viewport, counter: nat) returns (visited: seq<Pixel>, next: nat)
    ensures next == MaxInt(counter, TileAmount(vp)) + 1
    ensures visited == Tiles(vp, MinInt(counter, TileAmount(vp)), TileAmount(vp))
  {
    var amount := TileAmount(vp);
    visited := [];
    next := counter;
    var tileIndex := next;
    next := next + 1;
    while tileIndex < amount
      invariant next == tileIndex + 1
      invariant counter <= tileIndex <= MaxInt(counter, amount)
      invariant visited == if tileIndex <= amount then Tiles(vp, counter, tileIndex) else []
      decreases amount - tileIndex
    {
      PositiveTilesX(vp, tileIndex);
      var tile := RenderTile(vp, TileOf(vp, tileIndex));
      visited := visited + tile;
      tileIndex := next;
      next := next + 1;
    }
  }

  /** The tiles lo .. hi - 1 render exactly the pixels whose tile index is in that range. */
  lemma {:induction false} TilesCoverage(vp: Viewport, lo: nat, hi: nat, p: Pixel)
    requires hi <= TileAmount(vp)
    ensures p in Tiles(vp, lo, hi) <==> InImage(vp, p) && lo <= TileIndex(vp, PixelTile(p)) < hi
    decreases hi
  {
    if lo < hi {
      PositiveTilesX(vp, hi - 1);
      TilesCoverage(vp, lo, hi - 1, p);
      TileCoverage(vp, TileOf(vp, hi - 1), p);
      TileIndexBijection(vp, hi - 1, PixelTile(p));
    }
  }

  /** No pixel is rendered by two of the tiles lo .. hi - 1, nor twice by one. */
  lemma {:induction false} TilesDistinct(vp: Viewport, lo: nat, hi: nat)
    requires hi <= TileAmount(vp)
    ensures Distinct(Tiles(vp, lo, hi))
    decreases hi
  {
    if lo < hi {
      PositiveTilesX(vp, hi - 1);
      var earlier, last := Tiles(vp, lo, hi - 1), TilePixels(vp, TileOf(vp, hi - 1));
      TilesDistinct(vp, lo, hi - 1);
      TileCoverage(vp, TileOf(vp, hi - 1), Pixel(0, 0));
      forall q | q in earlier
        ensures q !in last
      {
        TilesCoverage(vp, lo, hi - 1, q);
        TileCoverage(vp, TileOf(vp, hi - 1), q);
        TileIndexBijection(vp, hi - 1, PixelTile(q));
      }
      DistinctAppend(earlier, last);
    }
  }

  /** Draining every tile index renders every pixel of the image exactly once and nothing
      outside it. */
  lemma EveryPixelOnce(vp: Viewport)
    ensures Distinct(Tiles(vp, 0, TileAmount(vp)))
    ensures forall p :: p in Tiles(vp, 0, TileAmount(vp)) <==> InImage(vp, p)
  {
    TilesDistinct(vp, 0, TileAmount(vp));
    forall p
      ensures p in Tiles(vp, 0, TileAmount(vp)) <==> InImage(vp, p)
    {
      TilesCoverage(vp, 0, TileAmount(vp), p);
      if InImage(vp, p) {
        PixelTileInGrid(vp, p);
        TileIndexBijection(vp, 0, PixelTile(p));
      }
    }
  }

  /** In a sequence without repetition an element occurs exactly once. */
  lemma {:induction false} DistinctOnce<T>(s: seq<T>, x: T)
    requires Distinct(s) && x in s
    ensures multiset(s)[x] == 1
  {
    var i :| 0 <= i < |s| && s[i] == x;
    assert s == s[..i] + [x] + s[i + 1..];
    assert x !in s[..i] && x !in s[i + 1..];
    assert multiset(s) == multiset(s[..i]) + multiset{x} + multiset(s[i + 1..]);
  }

  // ---------------------------------------------------------------- render

  /** `max(std::thread::hardware_concurrency(), 1u) - 1u`: the extra workers beside the
      calling thread. A count of zero (unknown) still leaves the calling thread. */
  function WorkerCount(hardwareConcurrency: nat): (n: nat)
    ensures hardwareConcurrency == 0 ==> n == 0
    ensures 0 < hardwareConcurrency ==> n + 1 == hardwareConcurrency
  {
    MaxInt(hardwareConcurrency, 1) - 1
  }

  /** `render(pixelRenderer)` with its workers run one after the other on the shared counter:
      the first drains every tile, the others claim one index past the end and stop. The
      image is rendered once, whatever the number of workers. */
  method Render(vp: Viewport, hardwareConcurrency: nat) returns (visited: seq<Pixel>)
    ensures visited == Tiles(vp, 0, TileAmount(vp))
    ensures Distinct(visited)
    ensures forall p :: p in visited <==> InImage(vp, p)
  {
    var workers := WorkerCount(hardwareConcurrency) + 1;
    var counter := 0;
    visited := [];
    var i := 0;
    while i < workers
      invariant i <= workers
      invariant i == 0 ==> counter == 0 && visited == []
      invariant 0 < i ==> counter == TileAmount(vp) + i && visited == Tiles(vp, 0, TileAmount(vp))
    {
      var more, next := RenderTiles(vp, counter);
      visited := visited + more;
      counter := next;
      i := i + 1;
    }
    EveryPixelOnce(vp);
  }

  // ---------------------------------------------------------------- renderPixels

  /** `row = pixelIndex / width`, `col = pixelIndex % width`. */
  function PixelOf(vp: Viewport, i: nat): Pixel
    requires 0 < vp.width
  {
    Pixel(i % vp.width, i / vp.width)
  }

  /** The pixels with indices lo .. hi - 1, in claim order. */
  function Pixels(vp: Viewport, lo: nat, hi: nat): seq<Pixel>
    requires hi <= vp.width * vp.height
    decreases hi
  {
    if hi <= lo then [] else Pixels(vp, lo, hi - 1) + [PixelOf(vp, hi - 1)]
  }

  /** Pixel indices and pixels correspond one to one over `[0, width * height)`. */
  lemma PixelIndexBijection(vp: Viewport, i: nat, p: Pixel)
    requires 0 < vp.width
    ensures i < vp.width * vp.height <==> InImage(vp, PixelOf(vp, i))
    ensures PixelOf(vp, i).row * vp.width + PixelOf(vp, i).col == i
    ensures InImage(vp, p) ==> p.row * vp.width + p.col < vp.width * vp.height &&
                               PixelOf(vp, p.row * vp.width + p.col) == p
  {
    RowMajorBound(i, vp.width, vp.height);
    assert i == (i / vp.width) * vp.width + i % vp.width;
    if InImage(vp, p) {
      DivModUnique(vp.width, p.row, p.col);
      RowMajorBound(p.row * vp.width + p.col, vp.width, vp.height);
    }
  }

  /** `renderPixels(pixelRenderer, counter)`. */
  method RenderPixels(vp: Viewport, counter: nat) returns (visited: seq<Pixel>, next: nat)
    ensures next == MaxInt(counter, vp.width * vp.height) + 1
    ensures visited == Pixels(vp, MinInt(counter, vp.width * vp.height), vp.width * vp.height)
  {
    var amount := vp.width * vp.height;
    visited := [];
    next := counter;
    var pixelIndex := next;
    next := next + 1;
    while pixelIndex < amount
      invariant next == pixelIndex + 1
      invariant counter <= pixelIndex <= MaxInt(counter, amount)
      invariant visited == if pixelIndex <= amount then Pixels(vp, counter, pixelIndex) else []
      decreases amount - pixelIndex
    {
      var row := pixelIndex / vp.width;
      var col := pixelIndex % vp.width;
      visited := visited + [Pixel(col, row)];
      pixelIndex := next;
      next := next + 1;
    }
  }

  /** The pixels lo .. hi - 1 are those whose row-major index is in that range, none twice. */
  lemma {:induction false} PixelsCoverage(vp: Viewport, lo: nat, hi: nat, p: Pixel)
    requires hi <= vp.width * vp.height
    ensures p in Pixels(vp, lo, hi) <==>
              InImage(vp, p) && lo <= p.row * vp.width + p.col < hi
    ensures Distinct(Pixels(vp, lo, hi))
    decreases hi
  {
    if lo < hi {
      var earlier, last := Pixels(vp, lo, hi - 1), PixelOf(vp, hi - 1);
      PixelsCoverage(vp, lo, hi - 1, p);
      PixelIndexBijection(vp, hi - 1, p);
      forall q | q in earlier
        ensures q != last
      {
        PixelsCoverage(vp, lo, hi - 1, q);
      }
      DistinctAppend(earlier, [last]);
    }
  }

  /** Draining every pixel index renders every pixel of the image exactly once. */
  lemma EveryPixelOncePixelMode(vp: Viewport)
    ensures Distinct(Pixels(vp, 0, vp.width * vp.height))
    ensures forall p :: p in Pixels(vp, 0, vp.width * vp.height) <==> InImage(vp, p)
  {
    PixelsCoverage(vp, 0, vp.width * vp.height, Pixel(0, 0));
    forall p
      ensures p in Pixels(vp, 0, vp.width * vp.height) <==> InImage(vp, p)
    {
      PixelsCoverage(vp, 0, vp.width * vp.height, p);
      if InImage(vp, p) {
        PixelIndexBijection(vp, 0, p);
      }
    }
  }
}
