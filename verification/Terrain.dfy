/** The terrain residency cache: ingress validation, one zoom, farthest-first eviction, the
    missing-ring query, and the bilinear sample the physics collides against. */
module Terrain {
  import opened Uint
  import opened Wrappers
  import opened TileGeometry

  datatype Rejection =
    | UnsupportedTileSize(declared: U32)
    | WrongSampleCount(got: nat)
    | CoordOutOfRange
    | TooFarFromOrigin(metres: real)
    | ImplausibleElevation(index: nat, value: Sample)
    | NoOrigin

  datatype Tile = Tile(coord: TileCoord, heights: seq<Sample>, approximate: bool)
  datatype Entry = Entry(heights: seq<Sample>, approximate: bool)
  datatype Report = Report(accepted: nat, rejected: seq<(TileCoord, Rejection)>, evicted: nat)

  // ----- validation -----

  predicate Plausible(s: Sample) { s.Finite? && MIN_ELEVATION_M <= s.m <= MAX_ELEVATION_M }

  predicate PlausibleHeights(heights: seq<Sample>) {
    |heights| == SAMPLES && forall i :: 0 <= i < |heights| ==> Plausible(heights[i])
  }

  /** What a tile must be to reach the physics. */
  predicate Acceptable(geo: Geometry, origin: Origin, t: Tile) {
    && OnGrid(t.coord)
    && geo.cornerDistance(origin, t.coord) <= MAX_ORIGIN_DISTANCE_M
    && PlausibleHeights(t.heights)
  }

  /** The first reason, in the order the checks are made, why a tile is refused. */
  ghost predicate FirstReason(geo: Geometry, origin: Origin, t: Tile, r: Rejection) {
    match r
    case WrongSampleCount(got) => got == |t.heights| != SAMPLES
    case CoordOutOfRange => |t.heights| == SAMPLES && !OnGrid(t.coord)
    case TooFarFromOrigin(metres) =>
      |t.heights| == SAMPLES && OnGrid(t.coord)
      && metres == geo.cornerDistance(origin, t.coord) > MAX_ORIGIN_DISTANCE_M
    case ImplausibleElevation(i, value) =>
      && |t.heights| == SAMPLES && OnGrid(t.coord)
      && geo.cornerDistance(origin, t.coord) <= MAX_ORIGIN_DISTANCE_M
      && i < |t.heights| && value == t.heights[i] && !Plausible(value)
      && forall k :: 0 <= k < i ==> Plausible(t.heights[k])
    case _ => false
  }

  method ValidateTile(geo: Geometry, origin: Origin, t: Tile) returns (r: Option<Rejection>)
    ensures r.None? <==> Acceptable(geo, origin, t)
    ensures r.None? <==>
              && t.coord.z <= 24 && t.coord.x < Pow2(t.coord.z) && t.coord.y < Pow2(t.coord.z)
              && geo.cornerDistance(origin, t.coord) <= 200_000.0
              && |t.heights| == 256 * 256 && forall h <- t.heights :: h.Finite? && -12_000.0 <= h.m <= 12_000.0
    ensures r.Some? ==> FirstReason(geo, origin, t, r.value)
    ensures r.Some? && r.value.WrongSampleCount? <==> |t.heights| != 65_536
    ensures r.Some? && r.value.CoordOutOfRange? <==> |t.heights| == 65_536 && !OnGrid(t.coord)
    ensures r.Some? && r.value.TooFarFromOrigin? <==>
            |t.heights| == 65_536 && OnGrid(t.coord) && geo.cornerDistance(origin, t.coord) > 200_000.0
  {
    if |t.heights| != SAMPLES {
      return Some(WrongSampleCount(|t.heights|));
    }
    if t.coord.z > MAX_ZOOM {
      return Some(CoordOutOfRange);
    }
    var n := Pow2(t.coord.z);
    if t.coord.x >= n || t.coord.y >= n {
      return Some(CoordOutOfRange);
    }
    var metres := geo.cornerDistance(origin, t.coord);
    if metres > MAX_ORIGIN_DISTANCE_M {
      return Some(TooFarFromOrigin(metres));
    }
    var index := 0;
    while index < |t.heights|
      invariant 0 <= index <= |t.heights|
      invariant forall k :: 0 <= k < index ==> Plausible(t.heights[k])
    {
      if !Plausible(t.heights[index]) {
        return Some(ImplausibleElevation(index, t.heights[index]));
      }
      index := index + 1;
    }
    return None;
  }

  lemma OneReasonOnly(geo: Geometry, origin: Origin, t: Tile, r: Rejection, r': Rejection)
    requires FirstReason(geo, origin, t, r) && FirstReason(geo, origin, t, r')
    ensures r == r' && !Acceptable(geo, origin, t)
  {
    if r.ImplausibleElevation? {
      assert r'.ImplausibleElevation?;
      assert !(r.index < r'.index) && !(r'.index < r.index);
    }
  }

  // ----- ingestion -----

  datatype Resident = Resident(zoom: Option<U32>, tiles: map<TileCoord, Entry>)

  /** A tile at another zoom replaces the whole set. */
  function IngestOne(r: Resident, t: Tile): Resident {
    var kept := if r.zoom == Some(t.coord.z) then r.tiles else map[];
    Resident(Some(t.coord.z), kept[t.coord := Entry(t.heights, t.approximate)])
  }

  function Ingest(r: Resident, batch: seq<Tile>): Resident {
    if batch == [] then r else IngestOne(Ingest(r, batch[..|batch| - 1]), batch[|batch| - 1])
  }

  /** The tiles of a batch that pass, in order. */
  function Passing(geo: Geometry, origin: Origin, batch: seq<Tile>): seq<Tile> {
    if batch == [] then []
    else Passing(geo, origin, batch[..|batch| - 1])
         + if Acceptable(geo, origin, batch[|batch| - 1]) then [batch[|batch| - 1]] else []
  }

  /** `rejected` names every tile of the batch that does not pass, in order, with its first reason. */
  ghost predicate Rejects(geo: Geometry, origin: Origin, batch: seq<Tile>, rejected: seq<(TileCoord, Rejection)>)
  {
    if batch == [] then rejected == []
    else
      var before, t := batch[..|batch| - 1], batch[|batch| - 1];
      if Acceptable(geo, origin, t) then Rejects(geo, origin, before, rejected)
      else
        && rejected != []
        && rejected[|rejected| - 1].0 == t.coord && FirstReason(geo, origin, t, rejected[|rejected| - 1].1)
        && Rejects(geo, origin, before, rejected[..|rejected| - 1])
  }

  /** Refusals keep the order of the batch: every stretch without an acceptable tile is named tile by
      tile, behind what was named before it. */
  lemma {:induction false} RefusalsAreInOrder(geo: Geometry, origin: Origin, before: seq<Tile>, stretch: seq<Tile>,
                                              rejected: seq<(TileCoord, Rejection)>)
    requires Rejects(geo, origin, before + stretch, rejected) && forall t <- stretch :: !Acceptable(geo, origin, t)
    ensures |rejected| >= |stretch| && Rejects(geo, origin, before, rejected[..|rejected| - |stretch|])
    ensures forall i :: 0 <= i < |stretch| ==>
              && rejected[|rejected| - |stretch| + i].0 == stretch[i].coord
              && FirstReason(geo, origin, stretch[i], rejected[|rejected| - |stretch| + i].1)
    decreases |stretch|
  {
    hide FirstReason, Acceptable;
    if stretch == [] {
      assert before + stretch == before && rejected[..|rejected| - 0] == rejected;
    } else {
      var n := |stretch| - 1;
      assert (before + stretch)[..|before + stretch| - 1] == before + stretch[..n];
      assert stretch[n] in stretch && (before + stretch)[|before + stretch| - 1] == stretch[n];
      RefusalsAreInOrder(geo, origin, before, stretch[..n], rejected[..|rejected| - 1]);
      assert rejected[..|rejected| - 1][..|rejected| - 1 - n] == rejected[..|rejected| - |stretch|];
      forall i | 0 <= i < |stretch|
        ensures rejected[|rejected| - |stretch| + i].0 == stretch[i].coord
        ensures FirstReason(geo, origin, stretch[i], rejected[|rejected| - |stretch| + i].1)
      {
        if i < n {
          assert rejected[..|rejected| - 1][|rejected| - 1 - n + i] == rejected[|rejected| - |stretch| + i];
          assert stretch[..n][i] == stretch[i];
        }
      }
    }
  }

  /** Every tile of the batch is named, in order, with the one reason. */
  ghost predicate AllRefused(batch: seq<Tile>, rejected: seq<(TileCoord, Rejection)>, reason: Rejection) {
    |rejected| == |batch| && forall i :: 0 <= i < |batch| ==> rejected[i] == (batch[i].coord, reason)
  }

  ghost predicate OneZoom(r: Resident) {
    && (r.zoom.None? <==> r.tiles == map[])
    && forall c :: c in r.tiles ==> r.zoom == Some(c.z)
  }

  ghost predicate Usable(r: Resident) {
    OneZoom(r) && forall c :: c in r.tiles ==> OnGrid(c) && PlausibleHeights(r.tiles[c].heights)
  }

  lemma {:induction false} IngestKeepsUsable(geo: Geometry, origin: Origin, r: Resident, batch: seq<Tile>)
    requires Usable(r) && forall t <- batch :: Acceptable(geo, origin, t)
    ensures Usable(Ingest(r, batch))
  {
    if batch != [] {
      var before, t := batch[..|batch| - 1], batch[|batch| - 1];
      assert t in batch && forall u <- before :: u in batch;
      IngestKeepsUsable(geo, origin, r, before);
      assert t.coord in Ingest(r, batch).tiles;
    }
  }

  /** The last tile decides the zoom, and a tile not overwritten or cleared by a later one is held. */
  lemma {:induction false} IngestedTileIsHeld(r: Resident, batch: seq<Tile>, i: nat)
    requires i < |batch| && forall k :: i < k < |batch| ==> batch[k].coord.z == batch[i].coord.z
    requires forall k :: i < k < |batch| ==> batch[k].coord != batch[i].coord
    ensures var full := Ingest(r, batch);
            && full.zoom == Some(batch[i].coord.z)
            && batch[i].coord in full.tiles
            && full.tiles[batch[i].coord] == Entry(batch[i].heights, batch[i].approximate)
  {
    var before := batch[..|batch| - 1];
    if i < |batch| - 1 {
      IngestedTileIsHeld(r, before, i);
    }
  }

  /** Nothing is held that was neither there before nor sent. */
  lemma {:induction false} HeldWasThereOrSent(r: Resident, batch: seq<Tile>, c: TileCoord)
    requires c in Ingest(r, batch).tiles
    ensures || (c in r.tiles && r.tiles[c] == Ingest(r, batch).tiles[c])
            || exists t <- batch :: t.coord == c && Ingest(r, batch).tiles[c] == Entry(t.heights, t.approximate)
  {
    if batch != [] {
      var before, last := batch[..|batch| - 1], batch[|batch| - 1];
      assert batch == before + [last];
      if c != last.coord {
        HeldWasThereOrSent(r, before, c);
      } else {
        assert last in batch;
      }
    }
  }

  lemma {:induction false} PassingIsAcceptable(geo: Geometry, origin: Origin, batch: seq<Tile>)
    ensures forall t <- Passing(geo, origin, batch) :: t in batch && Acceptable(geo, origin, t)
    ensures forall t <- batch :: Acceptable(geo, origin, t) ==> t in Passing(geo, origin, batch)
  {
    if batch != [] {
      PassingIsAcceptable(geo, origin, batch[..|batch| - 1]);
      assert batch == batch[..|batch| - 1] + [batch[|batch| - 1]];
    }
  }

  // ----- eviction -----

  /** `after` is `before` cut down to the bound, its entries unchanged. */
  ghost predicate EvictionOf(before: map<TileCoord, Entry>, after: map<TileCoord, Entry>, centre: TileCoord, bound: nat) {
    Cut(before.Keys, after.Keys, centre, bound) && forall c :: c in after ==> after[c] == before[c]
  }

  /** `kept` is `keys` cut down to the bound, nothing kept being farther than anything dropped. Ties may
      fall either way. */
  ghost predicate Cut(keys: set<TileCoord>, kept: set<TileCoord>, centre: TileCoord, bound: nat) {
    kept <= keys && |kept| == Min(|keys|, bound) && FarthestFirst(keys - kept, kept, centre)
  }

  ghost predicate FarthestFirst(dropped: set<TileCoord>, kept: set<TileCoord>, centre: TileCoord) {
    forall d, k :: d in dropped && k in kept ==> Dist2(k, centre) <= Dist2(d, centre)
  }

  ghost predicate Farthest(c: TileCoord, keys: set<TileCoord>, centre: TileCoord) {
    c in keys && forall k :: k in keys ==> Dist2(k, centre) <= Dist2(c, centre)
  }

  lemma {:induction false} FarthestExists(keys: set<TileCoord>, centre: TileCoord)
    requires keys != {}
    ensures exists c :: Farthest(c, keys, centre)
    decreases |keys|
  {
    hide Dist2;
    var k :| k in keys;
    var rest := keys - {k};
    if rest == {} {
      assert keys == {k};
      assert Farthest(k, keys, centre);
    } else {
      FarthestExists(rest, centre);
      var f :| Farthest(f, rest, centre);
      assert Farthest(if Dist2(f, centre) >= Dist2(k, centre) then f else k, keys, centre);
    }
  }

  /** Drops the farthest tiles one after another until the bound holds. */
  method EvictToBound(tiles: map<TileCoord, Entry>, centre: TileCoord, bound: nat)
    returns (kept: map<TileCoord, Entry>, evicted: nat)
    ensures EvictionOf(tiles, kept, centre, bound) && evicted == |tiles| - |kept|
  {
    kept, evicted := tiles, 0;
    var excess := if |tiles| > bound then |tiles| - bound else 0;
    while evicted < excess
      invariant 0 <= evicted <= excess && |kept| == |tiles| - evicted
      invariant kept.Keys <= tiles.Keys && forall c :: c in kept ==> kept[c] == tiles[c]
      invariant FarthestFirst(tiles.Keys - kept.Keys, kept.Keys, centre)
    {
      FarthestExists(kept.Keys, centre);
      ghost var f :| Farthest(f, kept.Keys, centre);
      var victim :| victim in kept && forall k :: k in kept ==> Dist2(k, centre) <= Dist2(victim, centre);
      ghost var before := kept;
      kept := map c | c in kept && c != victim :: kept[c];
      assert kept.Keys == before.Keys - {victim};
      evicted := evicted + 1;
    }
  }

  /** The tile under the vehicle is the last thing dropped. */
  lemma VehicleTileStays(before: map<TileCoord, Entry>, after: map<TileCoord, Entry>, centre: TileCoord, bound: nat)
    requires EvictionOf(before, after, centre, bound) && bound >= 1
    requires (forall c :: c in before ==> c.z == centre.z) && centre in before
    ensures centre in after
  {
    assert |before| >= 1 by { assert before.Keys != {}; }
    if centre !in after {
      var k := SomeKey(after);
      RingDistance(k, centre, 0);
      RingDistance(centre, centre, 0);
    }
  }

  lemma SomeKey(m: map<TileCoord, Entry>) returns (k: TileCoord)
    requires |m| >= 1
    ensures k in m
  {
    assert m.Keys != {};
    k :| k in m.Keys;
  }

  // ----- the cache -----

  class TerrainCache {
    const geo: Geometry
    const maxResident: nat
    var zoom: Option<U32>
    var tiles: map<TileCoord, Entry>
    var origin: Origin
    var originElevation: Option<real>
    var hasOrigin: bool
    var vehicle: Position

    function Residency(): Resident
      reads this
    {
      Resident(zoom, tiles)
    }

    ghost predicate Valid()
      reads this
    {
      Usable(Residency()) && |tiles| <= maxResident && maxResident >= 1 && (!hasOrigin ==> tiles == map[])
    }

    constructor (geo: Geometry, maxResident: nat)
      ensures Valid() && this.geo == geo && this.maxResident == Max(maxResident, 1)
      ensures tiles == map[] && zoom == None && !hasOrigin
    {
      this.geo, this.maxResident := geo, Max(maxResident, 1);
      zoom, tiles, hasOrigin, originElevation := None, map[], false, None;
      origin, vehicle := Origin(0.0, 0.0), Position(0.0, 0.0);
    }

    /** Anchors the cache; a real move drops what described the old place. */
    method SetOrigin(to: Origin, elevation: Option<real>)
      requires Valid()
      modifies this
      ensures Valid() && hasOrigin && origin == to && originElevation == elevation && vehicle == Position(0.0, 0.0)
      ensures Residency() == if old(hasOrigin && geo.originDistance(origin, to) > 1.0) then Resident(None, map[]) else old(Residency())
      ensures old(hasOrigin && !IsAnchoredTo(to)) <==> old(hasOrigin && geo.originDistance(origin, to) > 1.0)
    {
      if hasOrigin && geo.originDistance(origin, to) > SAME_ORIGIN_METERS {
        tiles, zoom := map[], None;
      }
      origin, originElevation, hasOrigin := to, elevation, true;
      vehicle := Position(0.0, 0.0);
    }

    /** Whether a frame sent for `o` may be accepted: what `SetOrigin` would not have dropped, and nothing
        before there is an origin. */
    predicate IsAnchoredTo(o: Origin)
      reads this
    {
      hasOrigin && geo.originDistance(origin, o) <= SAME_ORIGIN_METERS
    }

    method SetVehicle(at: Position)
      requires Valid()
      modifies this`vehicle
      ensures Valid() && vehicle == at
    {
      vehicle := at;
    }

    /** The tiles of a batch that reach the cache. */
    ghost function Accepted(tileSize: U32, batch: seq<Tile>): seq<Tile>
      reads this
    {
      if tileSize != TILE_SIZE || !hasOrigin then [] else Passing(geo, origin, batch)
    }

    method InsertTiles(tileSize: U32, batch: seq<Tile>) returns (report: Report)
      requires Valid()
      modifies this`zoom, this`tiles
      ensures Valid()
      ensures report.accepted + |report.rejected| == |batch|
      ensures report.accepted == |old(Accepted(tileSize, batch))|
      ensures tileSize == TILE_SIZE && hasOrigin ==> Rejects(geo, origin, batch, report.rejected)
      ensures tileSize != TILE_SIZE ==> AllRefused(batch, report.rejected, UnsupportedTileSize(tileSize))
      ensures tileSize == TILE_SIZE && !hasOrigin ==> AllRefused(batch, report.rejected, NoOrigin)
      ensures BoundedTo(Ingest(old(Residency()), old(Accepted(tileSize, batch))))
      ensures report.evicted == |Ingest(old(Residency()), old(Accepted(tileSize, batch))).tiles| - |tiles|
    {
      hide EvictionOf, Ingest, Rejects, Passing, Acceptable, OneZoom, Usable;
      if tileSize != TILE_SIZE || !hasOrigin {
        NothingIngested(Residency());
        if zoom.Some? { NothingToEvict(tiles, Centre(geo, vehicle, origin, zoom.value), maxResident); }
        var reason := if tileSize != TILE_SIZE then UnsupportedTileSize(tileSize) else NoOrigin;
        var refused := seq(|batch|, i requires 0 <= i < |batch| => (batch[i].coord, reason));
        return Report(0, refused, 0);
      }
      var valid, rejected := Validate(batch);
      PassingIsAcceptable(geo, origin, batch);
      IngestKeepsUsable(geo, origin, Residency(), valid);
      Store(valid);
      var evicted := Bound();
      report := Report(|valid|, rejected, evicted);
    }

    /** The cache holds `full` cut down to the resident bound around the vehicle. */
    ghost predicate BoundedTo(full: Resident)
      reads this
    {
      && zoom == full.zoom
      && if zoom.None? then tiles == full.tiles
         else EvictionOf(full.tiles, tiles, Centre(geo, vehicle, origin, zoom.value), maxResident)
    }

    /** Stores validated tiles one by one. */
    method Store(valid: seq<Tile>)
      modifies this`zoom, this`tiles
      ensures Residency() == Ingest(old(Residency()), valid)
    {
      var n := 0;
      assert valid[..0] == [];
      while n < |valid|
        invariant 0 <= n <= |valid| && Residency() == Ingest(old(Residency()), valid[..n])
      {
        var t := valid[n];
        assert valid[..n + 1][..n] == valid[..n];
        if zoom != Some(t.coord.z) {
          tiles, zoom := map[], Some(t.coord.z);
        }
        tiles := tiles[t.coord := Entry(t.heights, t.approximate)];
        n := n + 1;
      }
      assert valid[..n] == valid;
    }

    /** Evicts down to the bound. */
    method Bound() returns (evicted: nat)
      requires Usable(Residency()) && maxResident >= 1 && hasOrigin
      modifies this`tiles
      ensures Valid() && BoundedTo(old(Residency())) && evicted == old(|tiles|) - |tiles|
    {
      evicted := 0;
      if zoom.Some? {
        var kept;
        kept, evicted := EvictToBound(tiles, Centre(geo, vehicle, origin, zoom.value), maxResident);
        KeptIsUsable(Residency(), kept, Centre(geo, vehicle, origin, zoom.value), maxResident);
        tiles := kept;
      }
    }

    method Validate(batch: seq<Tile>) returns (valid: seq<Tile>, rejected: seq<(TileCoord, Rejection)>)
      ensures valid == Passing(geo, origin, batch) && Rejects(geo, origin, batch, rejected)
      ensures |valid| + |rejected| == |batch|
    {
      valid, rejected := [], [];
      var n := 0;
      assert batch[..0] == [];
      while n < |batch|
        invariant 0 <= n <= |batch| && |valid| + |rejected| == n
        invariant valid == Passing(geo, origin, batch[..n]) && Rejects(geo, origin, batch[..n], rejected)
      {
        assert batch[..n + 1][..n] == batch[..n];
        var verdict := ValidateTile(geo, origin, batch[n]);
        match verdict {
          case None => valid := valid + [batch[n]];
          case Some(reason) =>
            ghost var before := rejected;
            rejected := rejected + [(batch[n].coord, reason)];
            assert rejected[..|rejected| - 1] == before;
        }
        n := n + 1;
      }
      assert batch[..n] == batch;
    }

    /** What the physics wants within `radius` tiles and does not hold: all of it, nothing else, and
        inside the grid each coordinate once, row by row. */
    method MissingAroundVehicle(radius: U32) returns (missing: seq<TileCoord>)
      requires Valid()
      ensures zoom.None? || !hasOrigin ==> missing == []
      ensures zoom.Some? && hasOrigin ==>
                var centre := Centre(geo, vehicle, origin, zoom.value);
                centre.x + radius <= U32_MAX && centre.y + radius <= U32_MAX ==>
                  && (forall c :: c in missing <==> InRing(c, centre, radius) && c !in tiles)
                  && (radius <= centre.x && radius <= centre.y ==>
                        forall i, j :: 0 <= i < j < |missing| ==>
                          missing[i].y < missing[j].y || (missing[i].y == missing[j].y && missing[i].x < missing[j].x))
    {
      missing := [];
      if zoom.None? || !hasOrigin {
        return;
      }
      var centre := Centre(geo, vehicle, origin, zoom.value);
      var r: int := radius;
      var dy := -r;
      while dy <= radius
        invariant -r <= dy <= radius + 1
        invariant InGrid(centre, radius) ==> forall c :: c in missing <==> Visited(c, centre, radius, dy) && c !in tiles
        invariant InGrid(centre, radius) && radius <= centre.x && radius <= centre.y ==> RowMajor(missing)
      {
        var row := MissingInRow(centre, radius, dy);
        missing := missing + row;
        dy := dy + 1;
      }
    }

    /** One row of the query. */
    method MissingInRow(centre: TileCoord, r: int, dy: int) returns (row: seq<TileCoord>)
      requires 0 <= r <= U32_MAX && -r <= dy <= r
      ensures InGrid(centre, r) ==>
                forall c :: c in row <==> InRing(c, centre, r) && c.y == Max(centre.y + dy, 0) && c !in tiles
      ensures InGrid(centre, r) && r <= centre.x && r <= centre.y ==> RowMajor(row)
    {
      row := [];
      var dx := -r;
      while dx <= r
        invariant -r <= dx <= r + 1
        invariant InGrid(centre, r) ==> forall c :: c in row <==> InPartOfRow(c, centre, r, dy, dx) && c !in tiles
        invariant InGrid(centre, r) && r <= centre.x && r <= centre.y ==> RowMajor(row)
      {
        var coord := TileCoord(AsU32(Max(centre.x + dx, 0)), AsU32(Max(centre.y + dy, 0)), centre.z);
        if coord !in tiles {
          if InGrid(centre, r) && r <= centre.x && r <= centre.y { NextInTheRow(row, coord); }
          row := row + [coord];
        }
        dx := dx + 1;
      }
    }
  }

  /** `as u32` from a wider integer. */
  function AsU32(v: nat): U32 { v % (U32_MAX + 1) }

  predicate InGrid(centre: TileCoord, r: nat) { centre.x + r <= U32_MAX && centre.y + r <= U32_MAX }

  ghost predicate RowMajor(s: seq<TileCoord>) {
    forall i, j :: 0 <= i < j < |s| ==> s[i].y < s[j].y || (s[i].y == s[j].y && s[i].x < s[j].x)
  }

  lemma NextInTheRow(row: seq<TileCoord>, next: TileCoord)
    requires RowMajor(row) && forall c <- row :: c.y == next.y && c.x < next.x
    ensures RowMajor(row + [next])
  {
    forall i | 0 <= i < |row| ensures row[i].y == next.y && row[i].x < next.x {
      assert row[i] in row;
    }
  }

  /** In a row of the ring visited before offset `dy`; offsets below the grid fold onto its edge. */
  ghost predicate Visited(c: TileCoord, centre: TileCoord, r: int, dy: int)
    requires r >= 0
  {
    InRing(c, centre, r) && dy > -r && c.y <= Max(centre.y + dy - 1, 0)
  }

  /** In the row of offset `dy`, visited before offset `dx`. */
  ghost predicate InPartOfRow(c: TileCoord, centre: TileCoord, r: int, dy: int, dx: int)
    requires r >= 0
  {
    InRing(c, centre, r) && c.y == Max(centre.y + dy, 0) && dx > -r && c.x <= Max(centre.x + dx - 1, 0)
  }

  lemma NothingIngested(r: Resident)
    ensures Ingest(r, []) == r
  {
  }

  lemma NothingToEvict(tiles: map<TileCoord, Entry>, centre: TileCoord, bound: nat)
    requires |tiles| <= bound
    ensures EvictionOf(tiles, tiles, centre, bound)
  {
  }

  lemma KeptIsUsable(full: Resident, kept: map<TileCoord, Entry>, centre: TileCoord, bound: nat)
    requires Usable(full) && full.zoom.Some? && bound >= 1 && EvictionOf(full.tiles, kept, centre, bound)
    ensures Usable(Resident(full.zoom, kept))
  {
    assert |full.tiles| >= 1 by {
      assert full.tiles != map[];
      assert full.tiles.Keys != {};
    }
    var k := SomeKey(kept);
  }
}
