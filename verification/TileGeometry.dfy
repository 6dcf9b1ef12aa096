/** Tile coordinates, and the geometry the cache only ever uses through its results. */
module TileGeometry {
  import opened Uint

  const TILE_SIZE: nat := 256
  const SAMPLES: nat := 65_536
  const MAX_ZOOM: nat := 24
  const MIN_ELEVATION_M: real := -12_000.0
  const MAX_ELEVATION_M: real := 12_000.0
  const MAX_ORIGIN_DISTANCE_M: real := 200_000.0
  const SAME_ORIGIN_METERS: real := 1.0

  datatype TileCoord = TileCoord(x: U32, y: U32, z: U32)
  datatype Origin = Origin(lat: real, lon: real)
  datatype Position = Position(north: real, east: real)
  datatype Column = Column(x: U32, y: U32)

  /** A decoded f32 sample. */
  datatype Sample = Finite(m: real) | NonFinite

  /** The Mercator and flat-earth conversions, as functions of what they are given. `inTile` is the
      position inside a tile in sample units, before it is clamped. */
  datatype Geometry = Geometry(
    column: (Position, Origin, U32) -> Column,
    cornerDistance: (Origin, TileCoord) -> real,
    originDistance: (Origin, Origin) -> real,
    inTile: (Position, Origin, TileCoord) -> (real, real))

  /** The tile under a position, at a zoom. */
  function Centre(geo: Geometry, at: Position, origin: Origin, z: U32): (t: TileCoord)
    ensures t.x == geo.column(at, origin, z).x && t.y == geo.column(at, origin, z).y && t.z == z
  {
    var c := geo.column(at, origin, z);
    TileCoord(c.x, c.y, z)
  }

  function Pow2(n: nat): (p: nat)
    ensures p >= 1
  {
    if n == 0 then 1 else 2 * Pow2(n - 1)
  }

  /** A tile of its zoom's grid. */
  predicate OnGrid(c: TileCoord) { c.z <= MAX_ZOOM && c.x < Pow2(c.z) && c.y < Pow2(c.z) }

  lemma {:induction false} GridsMultiply(a: nat, b: nat)
    ensures Pow2(a + b) == Pow2(a) * Pow2(b)
  {
    if b > 0 {
      GridsMultiply(a, b - 1);
    }
  }

  lemma GridOfThree()
    ensures Pow2(3) == 8
  {
  }

  lemma GridFitsU32(z: U32)
    requires z <= MAX_ZOOM
    ensures Pow2(z) <= U32_MAX
  {
    hide Pow2;
    GridOfThree();
    GridsMultiply(3, 3);
    GridsMultiply(6, 6);
    GridsMultiply(12, 12);
    GridsMultiply(z, MAX_ZOOM - z);
    MulMonotone(1, Pow2(MAX_ZOOM - z), Pow2(z));
  }

  /** Squared distance between two tiles, in tiles. */
  function Dist2(a: TileCoord, b: TileCoord): (d: nat) {
    var dx, dy := a.x - b.x, a.y - b.y;
    Square(dx);
    Square(dy);
    dx * dx + dy * dy
  }

  lemma Square(n: int)
    ensures n * n >= 0
    ensures n != 0 ==> n * n >= 1
  {
    if n > 0 { MulMonotone(1, n, n); } else if n < 0 { MulMonotone(1, -n, -n); }
  }

  lemma SquareBound(n: int, r: int)
    requires r >= 0
    ensures -r <= n <= r ==> n * n <= r * r
    ensures n > r || n < -r ==> n * n >= (r + 1) * (r + 1)
  {
    var m := if n >= 0 then n else -n;
    assert n * n == m * m;
    if m <= r {
      MulMonotone(m, r, m);
      MulMonotone(m, r, r);
    } else {
      MulMonotone(r + 1, m, m);
      MulMonotone(r + 1, m, r + 1);
    }
  }

  /** Within `r` columns and rows of `centre`, at its zoom. */
  predicate InRing(c: TileCoord, centre: TileCoord, r: nat) {
    && c.z == centre.z
    && centre.x - r <= c.x <= centre.x + r
    && centre.y - r <= c.y <= centre.y + r
  }

  /** Every tile of the ring is nearer than `2r^2`, every other tile of the zoom at least `(r+1)^2` away. */
  lemma RingDistance(c: TileCoord, centre: TileCoord, r: nat)
    requires c.z == centre.z
    ensures InRing(c, centre, r) ==> Dist2(c, centre) <= 2 * (r * r)
    ensures !InRing(c, centre, r) ==> Dist2(c, centre) >= (r + 1) * (r + 1)
    ensures Dist2(c, centre) == 0 <==> c == centre
  {
    var dx, dy := c.x - centre.x, c.y - centre.y;
    SquareBound(dx, r);
    SquareBound(dy, r);
    Square(dx);
    Square(dy);
  }

  // ----- how many tiles a ring holds -----

  function Rows(centre: TileCoord, r: nat, rows: nat): set<TileCoord>
    requires rows <= 2 * r + 1
  {
    set x: U32, y: U32 | centre.x - r <= x <= centre.x + r && centre.y - r <= y < centre.y - r + rows
      :: TileCoord(x, y, centre.z)
  }

  function Row(centre: TileCoord, r: nat, y: U32, width: nat): set<TileCoord>
    requires width <= 2 * r + 1
  {
    set x: U32 | centre.x - r <= x < centre.x - r + width :: TileCoord(x, y, centre.z)
  }

  lemma {:induction false} RowSize(centre: TileCoord, r: nat, y: U32, width: nat)
    requires width <= 2 * r + 1
    ensures |Row(centre, r, y, width)| <= width
    ensures centre.x >= r && centre.x + r <= U32_MAX ==> |Row(centre, r, y, width)| == width
  {
    if width > 0 {
      RowSize(centre, r, y, width - 1);
      var x := centre.x - r + width - 1;
      if 0 <= x <= U32_MAX {
        assert Row(centre, r, y, width) == Row(centre, r, y, width - 1) + {TileCoord(x, y, centre.z)};
      } else {
        assert Row(centre, r, y, width) == Row(centre, r, y, width - 1);
      }
    }
  }

  lemma {:induction false} RowsSize(centre: TileCoord, r: nat, rows: nat)
    requires rows <= 2 * r + 1
    ensures |Rows(centre, r, rows)| <= rows * (2 * r + 1)
    ensures centre.x >= r && centre.x + r <= U32_MAX && centre.y >= r && centre.y + r <= U32_MAX ==>
            |Rows(centre, r, rows)| == rows * (2 * r + 1)
  {
    if rows > 0 {
      RowsSize(centre, r, rows - 1);
      assert rows * (2 * r + 1) == (rows - 1) * (2 * r + 1) + (2 * r + 1);
      var y := centre.y - r + rows - 1;
      var above := Rows(centre, r, rows - 1);
      if 0 <= y <= U32_MAX {
        RowSize(centre, r, y, 2 * r + 1);
        assert Rows(centre, r, rows) == above + Row(centre, r, y, 2 * r + 1);
        assert above !! Row(centre, r, y, 2 * r + 1);
      } else {
        assert Rows(centre, r, rows) == above;
      }
    }
  }

  /** The ring around a tile, as a set. */
  function Ring(centre: TileCoord, r: nat): set<TileCoord> { Rows(centre, r, 2 * r + 1) }

  /** The whole ring lies on the grid of its zoom. */
  predicate Interior(centre: TileCoord, r: nat) { r <= centre.x && r <= centre.y && BelowHighEdge(centre, r) }

  /** Only columns and rows below zero, which the query folds onto the edge, may be cut off. */
  predicate BelowHighEdge(centre: TileCoord, r: nat) {
    centre.z <= MAX_ZOOM && centre.x + r < Pow2(centre.z) && centre.y + r < Pow2(centre.z)
  }

  /** At most `(2r+1)^2` tiles, exactly that many inside the grid; all of them are tiles of the grid
      exactly when the far corner is. */
  lemma RingSize(centre: TileCoord, r: nat)
    requires centre.x + r <= U32_MAX && centre.y + r <= U32_MAX
    ensures |Ring(centre, r)| <= (2 * r + 1) * (2 * r + 1)
    ensures Interior(centre, r) ==> |Ring(centre, r)| == (2 * r + 1) * (2 * r + 1)
    ensures (forall c :: c in Ring(centre, r) ==> OnGrid(c)) <==> BelowHighEdge(centre, r)
  {
    hide Pow2;
    RowsSize(centre, r, 2 * r + 1);
    RingIsInRing(centre, r);
    if BelowHighEdge(centre, r) { GridFitsU32(centre.z); }
    assert InRing(TileCoord(centre.x + r, centre.y + r, centre.z), centre, r);
  }

  lemma RingIsInRing(centre: TileCoord, r: nat)
    ensures forall c :: c in Ring(centre, r) <==> InRing(c, centre, r)
  {
    forall c ensures c in Ring(centre, r) <==> InRing(c, centre, r) {
      assert c == TileCoord(c.x, c.y, c.z);
    }
  }
}
