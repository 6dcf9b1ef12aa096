/** The bilinear height the physics collides against, over reals. */
module TerrainSampling {
  import opened Uint
  import opened Wrappers
  import opened TileGeometry
  import opened Terrain

  /** Linear interpolation stays between its ends and meets them at theirs. */
  lemma Between(a: real, b: real, t: real, lo: real, hi: real)
    requires lo <= a <= hi && lo <= b <= hi && 0.0 <= t <= 1.0
    ensures lo <= a * (1.0 - t) + b * t <= hi
  {
    Product(a - lo, 1.0 - t);
    Product(b - lo, t);
    Product(hi - a, 1.0 - t);
    Product(hi - b, t);
  }

  lemma Product(a: real, b: real)
    requires a >= 0.0 && b >= 0.0
    ensures a * b >= 0.0
  {
  }

  function Clamp(v: real): (r: real)
    ensures 0.0 <= r <= 255.0
  {
    if v < 0.0 then 0.0 else if v > 255.0 then 255.0 else v
  }

  function Next(i: nat): nat { Min(i + 1, TILE_SIZE - 1) }

  function Post(heights: seq<Sample>, row: nat, col: nat): real
    requires PlausibleHeights(heights) && row < TILE_SIZE && col < TILE_SIZE
  {
    heights[row * TILE_SIZE + col].m
  }

  /** The four posts around a position, and the weights within their cell. */
  function Bilinear(heights: seq<Sample>, x: real, y: real): real
    requires PlausibleHeights(heights) && 0.0 <= x <= 255.0 && 0.0 <= y <= 255.0
  {
    var x0, y0 := x.Floor, y.Floor;
    var dx, dy := x - x0 as real, y - y0 as real;
    Post(heights, y0, x0) * (1.0 - dx) * (1.0 - dy)
    + Post(heights, y0, Next(x0)) * dx * (1.0 - dy)
    + Post(heights, Next(y0), x0) * (1.0 - dx) * dy
    + Post(heights, Next(y0), Next(x0)) * dx * dy
  }

  /** The surface lies between its four posts. */
  lemma SampleBetweenItsPosts(heights: seq<Sample>, x: real, y: real, lo: real, hi: real)
    requires PlausibleHeights(heights) && 0.0 <= x <= 255.0 && 0.0 <= y <= 255.0
    requires forall row, col :: row in {y.Floor, Next(y.Floor)} && col in {x.Floor, Next(x.Floor)}
                                ==> lo <= Post(heights, row, col) <= hi
    ensures lo <= Bilinear(heights, x, y) <= hi
  {
    hide Post;
    var x0, y0, x1, y1 := x.Floor, y.Floor, Next(x.Floor), Next(y.Floor);
    var a, b, c, d := Post(heights, y0, x0), Post(heights, y0, x1), Post(heights, y1, x0), Post(heights, y1, x1);
    Between(a, b, x - x0 as real, lo, hi);
    Between(c, d, x - x0 as real, lo, hi);
    var dx := x - x0 as real;
    Between(a * (1.0 - dx) + b * dx, c * (1.0 - dx) + d * dx, y - y0 as real, lo, hi);
    Factor(a, b, c, d, dx, y - y0 as real);
  }

  /** `a + b * x + e * y + g * x * y`: what is linear in x and in y, and agrees with any four posts for
      some choice of the four numbers. */
  function Surface(a: real, b: real, e: real, g: real, x: real, y: real): real { a + b * x + (e + g * x) * y }

  /** The four posts of the cell around a position lie on a surface. */
  ghost predicate CellOn(heights: seq<Sample>, x: real, y: real, a: real, b: real, e: real, g: real)
    requires PlausibleHeights(heights) && 0.0 <= x <= 255.0 && 0.0 <= y <= 255.0
  {
    forall row, col :: row in {y.Floor, Next(y.Floor)} && col in {x.Floor, Next(x.Floor)} ==>
                         Post(heights, row, col) == Surface(a, b, e, g, col as real, row as real)
  }

  lemma AlongALine(p: real, k: real, t: real, step: real)
    requires step == 1.0 || t == 0.0
    ensures p * (1.0 - t) + (p + k * step) * t == p + k * t
  {
    if step == 1.0 {
      assert (p + k) * t == p * t + k * t;
    }
  }

  /** Within its cell the height is linear in x and in y: whatever surface of that kind the four posts
      lie on is the height, at every position of the tile. */
  lemma SampleIsTheSurface(heights: seq<Sample>, x: real, y: real, a: real, b: real, e: real, g: real)
    requires PlausibleHeights(heights) && 0.0 <= x <= 255.0 && 0.0 <= y <= 255.0
    requires CellOn(heights, x, y, a, b, e, g)
    ensures Bilinear(heights, x, y) == Surface(a, b, e, g, x, y)
  {
    hide Post, Surface;
    var x0, y0, x1, y1 := x.Floor, y.Floor, Next(x.Floor), Next(y.Floor);
    var dx, dy := x - x0 as real, y - y0 as real;
    var p00, p10, p01, p11 := Post(heights, y0, x0), Post(heights, y0, x1), Post(heights, y1, x0), Post(heights, y1, x1);
    Factor(p00, p10, p01, p11, dx, dy);
    assert x1 as real == x0 as real + 1.0 || (dx == 0.0 && x1 == x0);
    assert y1 as real == y0 as real + 1.0 || (dy == 0.0 && y1 == y0);
    AcrossTheRow(a, b, e, g, x0 as real, x1 as real, y0 as real, dx);
    AcrossTheRow(a, b, e, g, x0 as real, x1 as real, y1 as real, dx);
    DownTheColumn(a, b, e, g, x, y0 as real, y1 as real, dy);
  }

  lemma AcrossTheRow(a: real, b: real, e: real, g: real, x0: real, x1: real, y: real, dx: real)
    requires x1 == x0 + 1.0 || (dx == 0.0 && x1 == x0)
    ensures Surface(a, b, e, g, x0, y) * (1.0 - dx) + Surface(a, b, e, g, x1, y) * dx == Surface(a, b, e, g, x0 + dx, y)
  {
    var k := b + g * y;
    assert Surface(a, b, e, g, x1, y) == Surface(a, b, e, g, x0, y) + k * (x1 - x0);
    assert Surface(a, b, e, g, x0 + dx, y) == Surface(a, b, e, g, x0, y) + k * dx;
    AlongALine(Surface(a, b, e, g, x0, y), k, dx, x1 - x0);
  }

  lemma DownTheColumn(a: real, b: real, e: real, g: real, x: real, y0: real, y1: real, dy: real)
    requires y1 == y0 + 1.0 || (dy == 0.0 && y1 == y0)
    ensures Surface(a, b, e, g, x, y0) * (1.0 - dy) + Surface(a, b, e, g, x, y1) * dy == Surface(a, b, e, g, x, y0 + dy)
  {
    var k := e + g * x;
    assert Surface(a, b, e, g, x, y1) == Surface(a, b, e, g, x, y0) + k * (y1 - y0);
    assert Surface(a, b, e, g, x, y0 + dy) == Surface(a, b, e, g, x, y0) + k * dy;
    AlongALine(Surface(a, b, e, g, x, y0), k, dy, y1 - y0);
  }

  /** It passes through every post exactly, the posts lying row by row. */
  lemma SampleMeetsItsPosts(heights: seq<Sample>, row: nat, col: nat)
    requires PlausibleHeights(heights) && row < TILE_SIZE && col < TILE_SIZE
    ensures Bilinear(heights, col as real, row as real) == Post(heights, row, col) == heights[row * 256 + col].m
  {
    assert Post(heights, row, col) == heights[row * 256 + col].m;
    hide Post;
    assert (col as real).Floor == col && (row as real).Floor == row;
  }

  lemma Factor(a: real, b: real, c: real, d: real, dx: real, dy: real)
    ensures a * (1.0 - dx) * (1.0 - dy) + b * dx * (1.0 - dy) + c * (1.0 - dx) * dy + d * dx * dy
            == (a * (1.0 - dx) + b * dx) * (1.0 - dy) + (c * (1.0 - dx) + d * dx) * dy
  {
  }

  /** A height is known exactly where a tile is resident, and is always a plausible one. */
  lemma SampleIsKnownAndPlausible(r: Resident, geo: Geometry, origin: Origin, at: Position)
    requires Usable(r)
    ensures SampleMsl(r, geo, origin, at).Some? <==>
            r.zoom.Some? && Centre(geo, at, origin, r.zoom.value) in r.tiles
    ensures SampleMsl(r, geo, origin, at).Some? ==>
            MIN_ELEVATION_M <= SampleMsl(r, geo, origin, at).value <= MAX_ELEVATION_M
  {
    if SampleMsl(r, geo, origin, at).Some? {
      var coord := Centre(geo, at, origin, r.zoom.value);
      var raw := geo.inTile(at, origin, coord);
      forall row, col | row in {Clamp(raw.1).Floor, Next(Clamp(raw.1).Floor)} && col in {Clamp(raw.0).Floor, Next(Clamp(raw.0).Floor)}
        ensures MIN_ELEVATION_M <= Post(r.tiles[coord].heights, row, col) <= MAX_ELEVATION_M
      {
        assert Plausible(r.tiles[coord].heights[row * TILE_SIZE + col]);
      }
      SampleBetweenItsPosts(r.tiles[coord].heights, Clamp(raw.0), Clamp(raw.1), MIN_ELEVATION_M, MAX_ELEVATION_M);
    }
  }

  /** The height is read at the position inside the covering tile, columns along x and rows along y, held
      to the tile's edges. */
  lemma SampleIsReadInTheCoveringTile(r: Resident, geo: Geometry, origin: Origin, at: Position,
                                      a: real, b: real, e: real, g: real)
    requires Usable(r) && r.zoom.Some?
    requires var coord := Centre(geo, at, origin, r.zoom.value);
             coord in r.tiles && CellOn(r.tiles[coord].heights, Clamp(geo.inTile(at, origin, coord).0),
                                        Clamp(geo.inTile(at, origin, coord).1), a, b, e, g)
    ensures var (x, y) := geo.inTile(at, origin, Centre(geo, at, origin, r.zoom.value));
            SampleMsl(r, geo, origin, at) == Some(Surface(a, b, e, g,
              if x < 0.0 then 0.0 else if x > 255.0 then 255.0 else x, if y < 0.0 then 0.0 else if y > 255.0 then 255.0 else y))
  {
    hide Bilinear, CellOn, Surface;
    var coord := Centre(geo, at, origin, r.zoom.value);
    var raw := geo.inTile(at, origin, coord);
    SampleIsTheSurface(r.tiles[coord].heights, Clamp(raw.0), Clamp(raw.1), a, b, e, g);
  }

  function SampleMsl(r: Resident, geo: Geometry, origin: Origin, at: Position): Option<real>
    requires Usable(r)
  {
    if r.zoom.None? then None
    else
      var coord := Centre(geo, at, origin, r.zoom.value);
      if coord !in r.tiles then None
      else
        var raw := geo.inTile(at, origin, coord);
        Some(Bilinear(r.tiles[coord].heights, Clamp(raw.0), Clamp(raw.1)))
  }
}
