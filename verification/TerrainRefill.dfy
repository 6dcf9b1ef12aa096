/** Answering the missing-ring query, and exactly when that leaves nothing missing. */
module TerrainRefill {
  import opened Uint
  import opened Wrappers
  import opened TileGeometry
  import opened Terrain

  /** Squared distance from the centre of a ring to its corners. */
  function CornerReach(r: nat): nat {
    MulNonNegative(r, r);
    2 * (r * r)
  }

  // ----- what eviction may and must keep -----

  /** The tiles no farther from the centre than `d`. */
  function Within(keys: set<TileCoord>, centre: TileCoord, d: nat): set<TileCoord> {
    set k | k in keys && Dist2(k, centre) <= d
  }

  /** The tiles nearer than `d`. */
  function Nearer(keys: set<TileCoord>, centre: TileCoord, d: nat): set<TileCoord> {
    set k | k in keys && Dist2(k, centre) < d
  }

  lemma SubsetSize<T>(a: set<T>, b: set<T>)
    requires a <= b
    ensures |a| <= |b|
    ensures |a| == |b| ==> a == b
  {
    assert b == a + (b - a);
    assert |b| == |a| + |b - a|;
  }

  lemma {:induction false} CutExists(keys: set<TileCoord>, centre: TileCoord, bound: nat) returns (kept: set<TileCoord>)
    ensures Cut(keys, kept, centre, bound)
    decreases |keys|
  {
    hide Dist2;
    kept := keys;
    if |keys| > bound {
      FarthestExists(keys, centre);
      var f :| Farthest(f, keys, centre);
      kept := CutExists(keys - {f}, centre, bound);
    }
  }

  /** Some tie order cuts through `near` first: it keeps all of it when it fits, and nothing else when
      it does not. */
  lemma CutThrough(keys: set<TileCoord>, near: set<TileCoord>, centre: TileCoord, bound: nat)
    returns (kept: set<TileCoord>)
    requires near <= keys && FarthestFirst(keys - near, near, centre)
    ensures Cut(keys, kept, centre, bound)
    ensures |near| <= bound ==> near <= kept
    ensures |near| >= bound ==> kept <= near
  {
    hide Dist2;
    SubsetSize(near, keys);
    if |near| >= bound {
      kept := CutExists(near, centre, bound);
      SubsetSize(kept, near);
    } else {
      var rest := CutExists(keys - near, centre, bound - |near|);
      kept := near + rest;
    }
  }

  /** One tile is safe under every tie order exactly when the bound holds it with every tile at most as
      far, and under some exactly when the bound holds it with every nearer one. */
  lemma TileIsSafeExactlyWhen(keys: set<TileCoord>, centre: TileCoord, bound: nat, c: TileCoord)
    requires c in keys
    ensures (forall kept :: Cut(keys, kept, centre, bound) ==> c in kept) <==>
            |Within(keys, centre, Dist2(c, centre))| <= bound
    ensures (exists kept :: Cut(keys, kept, centre, bound) && c in kept) <==>
            |Nearer(keys, centre, Dist2(c, centre))| < bound
  {
    hide Dist2;
    var within, nearer := Within(keys, centre, Dist2(c, centre)), Nearer(keys, centre, Dist2(c, centre));
    if |within| <= bound {
      forall kept | Cut(keys, kept, centre, bound) ensures c in kept {
        if c !in kept {
          SubsetSize(kept, within - {c});
          SubsetSize(kept + {c}, keys);
        }
      }
    } else {
      var kept := CutThrough(keys, within - {c}, centre, bound);
    }
    if |nearer| < bound {
      var kept := CutThrough(keys, nearer + {c}, centre, bound);
    } else {
      forall kept | Cut(keys, kept, centre, bound) ensures c !in kept {
        if c in kept {
          SubsetSize(nearer + {c}, kept);
        }
      }
    }
  }

  ghost predicate RingResident(tiles: map<TileCoord, Entry>, centre: TileCoord, r: nat) {
    forall c :: InRing(c, centre, r) ==> c in tiles
  }

  lemma CutOfAMap(before: map<TileCoord, Entry>, kept: set<TileCoord>, centre: TileCoord, bound: nat)
    returns (after: map<TileCoord, Entry>)
    requires Cut(before.Keys, kept, centre, bound)
    ensures EvictionOf(before, after, centre, bound) && after.Keys == kept
  {
    after := map c | c in kept :: before[c];
    assert after.Keys == kept;
  }

  lemma CornerIsFarthest(centre: TileCoord, corner: TileCoord, r: nat)
    requires corner.x == centre.x + r && corner.y == centre.y + r && corner.z == centre.z
    ensures InRing(corner, centre, r) && Dist2(corner, centre) == CornerReach(r)
    ensures forall c :: InRing(c, centre, r) ==> Dist2(c, centre) <= CornerReach(r)
  {
    forall c | InRing(c, centre, r) ensures Dist2(c, centre) <= CornerReach(r) {
      RingDistance(c, centre, r);
    }
    var dx, dy := corner.x - centre.x, corner.y - centre.y;
    assert dx == r && dy == r;
  }

  /** What the bound must hold for a resident ring to survive whatever the ties: every tile as near as
      its corners. */
  lemma EvictionSparesTheRing(before: map<TileCoord, Entry>, centre: TileCoord, bound: nat, r: nat)
    requires RingResident(before, centre, r) && InGrid(centre, r)
    ensures (forall after :: EvictionOf(before, after, centre, bound) ==> RingResident(after, centre, r)) <==>
            |Within(before.Keys, centre, CornerReach(r))| <= bound
  {
    hide Dist2;
    var corner := TileCoord(centre.x + r, centre.y + r, centre.z);
    CornerIsFarthest(centre, corner, r);
    var within := Within(before.Keys, centre, CornerReach(r));
    TileIsSafeExactlyWhen(before.Keys, centre, bound, corner);
    if |within| <= bound {
      forall after, c | EvictionOf(before, after, centre, bound) && InRing(c, centre, r) ensures c in after {
        SubsetSize(Within(before.Keys, centre, Dist2(c, centre)), within);
        TileIsSafeExactlyWhen(before.Keys, centre, bound, c);
      }
    } else {
      var kept :| Cut(before.Keys, kept, centre, bound) && corner !in kept;
      var after := CutOfAMap(before, kept, centre, bound);
    }
  }

  /** And for it to survive if the ties fall well: the ring and every tile nearer than its corners. */
  lemma EvictionCanSpareTheRing(before: map<TileCoord, Entry>, centre: TileCoord, bound: nat, r: nat)
    requires RingResident(before, centre, r) && InGrid(centre, r)
    ensures (exists after :: EvictionOf(before, after, centre, bound) && RingResident(after, centre, r)) <==>
            |Nearer(before.Keys, centre, CornerReach(r)) + Ring(centre, r)| <= bound
  {
    hide Dist2;
    var corner := TileCoord(centre.x + r, centre.y + r, centre.z);
    CornerIsFarthest(centre, corner, r);
    RingIsInRing(centre, r);
    var core := Nearer(before.Keys, centre, CornerReach(r)) + Ring(centre, r);
    if |core| <= bound {
      var kept := CutThrough(before.Keys, core, centre, bound);
      var after := CutOfAMap(before, kept, centre, bound);
      assert RingResident(after, centre, r);
    } else {
      forall after | EvictionOf(before, after, centre, bound) ensures !RingResident(after, centre, r) {
        if RingResident(after, centre, r) {
          assert corner in after;
          SubsetSize(core, after.Keys);
        }
      }
    }
  }

  // ----- answering the query -----

  function Coords(batch: seq<Tile>): set<TileCoord> { set t | t in batch :: t.coord }

  lemma {:induction false} IngestedAtOneZoom(r: Resident, batch: seq<Tile>, z: U32)
    requires OneZoom(r) && r.zoom == Some(z) && forall t <- batch :: t.coord.z == z
    ensures var full := Ingest(r, batch);
            OneZoom(full) && full.zoom == Some(z) && full.tiles.Keys == r.tiles.Keys + Coords(batch)
  {
    if batch != [] {
      var before, last := batch[..|batch| - 1], batch[|batch| - 1];
      assert batch == before + [last];
      IngestedAtOneZoom(r, before, z);
      assert Coords(batch) == Coords(before) + {last.coord};
    }
  }

  /** The batch answers the query: a tile of the resident zoom for every coordinate missing. */
  ghost predicate Answers(batch: seq<Tile>, tiles: map<TileCoord, Entry>, centre: TileCoord, r: nat) {
    && (forall t <- batch :: t.coord.z == centre.z)
    && forall c :: InRing(c, centre, r) && c !in tiles ==> c in Coords(batch)
  }

  /** Refill converges: answering the query once leaves the ring resident under every tie order exactly
      when the bound holds all that is then held within twice the squared radius, and under some tie
      order exactly when it holds the ring and what is nearer than that. */
  lemma RefillConvergesExactlyWhen(r: Resident, batch: seq<Tile>, centre: TileCoord, bound: nat, radius: nat)
    requires OneZoom(r) && r.zoom == Some(centre.z) && Answers(batch, r.tiles, centre, radius) && InGrid(centre, radius)
    ensures var held, full := r.tiles.Keys + Coords(batch), Ingest(r, batch).tiles;
            && ((forall after :: EvictionOf(full, after, centre, bound) ==> RingResident(after, centre, radius)) <==>
                |Within(held, centre, CornerReach(radius))| <= bound)
            && ((exists after :: EvictionOf(full, after, centre, bound) && RingResident(after, centre, radius)) <==>
                |Nearer(held, centre, CornerReach(radius)) + Ring(centre, radius)| <= bound)
  {
    IngestedAtOneZoom(r, batch, centre.z);
    var full := Ingest(r, batch).tiles;
    EvictionSparesTheRing(full, centre, bound, radius);
    EvictionCanSpareTheRing(full, centre, bound, radius);
  }

  /** What one round leaves, whatever the ties. */
  lemma RoundSettles(r: Resident, batch: seq<Tile>, after: map<TileCoord, Entry>, centre: TileCoord, bound: nat, radius: nat)
    requires OneZoom(r) && r.zoom == Some(centre.z) && Answers(batch, r.tiles, centre, radius) && InGrid(centre, radius)
    requires EvictionOf(Ingest(r, batch).tiles, after, centre, bound)
    ensures var held := r.tiles.Keys + Coords(batch);
            && (|Within(held, centre, CornerReach(radius))| <= bound ==> RingResident(after, centre, radius))
            && (|Nearer(held, centre, CornerReach(radius)) + Ring(centre, radius)| > bound ==>
                  !RingResident(after, centre, radius))
  {
    hide Within, Nearer, Ring, EvictionOf, Answers, Ingest, OneZoom, RingResident, Coords;
    RefillConvergesExactlyWhen(r, batch, centre, bound, radius);
  }

  lemma ZoomOfAnswer(r: Resident, batch: seq<Tile>, centre: TileCoord, radius: nat)
    requires OneZoom(r) && r.zoom == Some(centre.z) && Answers(batch, r.tiles, centre, radius)
    ensures Ingest(r, batch).zoom == Some(centre.z)
  {
    IngestedAtOneZoom(r, batch, centre.z);
  }

  // ----- radii and bounds -----

  /** The tiles `dy` rows from the centre and at most `w` columns. */
  function Strip(centre: TileCoord, dy: int, w: nat): set<TileCoord> {
    set x: U32, y: U32 | centre.x - w <= x <= centre.x + w && y == centre.y + dy :: TileCoord(x, y, centre.z)
  }

  lemma StripSize(centre: TileCoord, dy: int, w: nat)
    ensures |Strip(centre, dy, w)| <= 2 * w + 1
  {
    if 0 <= centre.y + dy <= U32_MAX {
      RowSize(centre, w, centre.y + dy, 2 * w + 1);
      assert Strip(centre, dy, w) == Row(centre, w, centre.y + dy, 2 * w + 1);
    } else {
      assert Strip(centre, dy, w) == {};
    }
  }

  /** The strips of equal width on both sides of the centre row. */
  lemma StripsSize(centre: TileCoord, dy: int, w: nat)
    ensures |Strip(centre, dy, w) + Strip(centre, -dy, w)| <= 4 * w + 2
  {
    StripSize(centre, dy, w);
    StripSize(centre, -dy, w);
  }

  /** No more than 61 tiles of a zoom lie as near as the corners of a ring of radius three. */
  lemma NearAtRadiusThree(keys: set<TileCoord>, centre: TileCoord)
    requires forall k :: k in keys ==> k.z == centre.z
    ensures |Within(keys, centre, 18)| <= 61
  {
    var s0, s1, s2 := Strip(centre, 0, 4), Strip(centre, 1, 4) + Strip(centre, -1, 4), Strip(centre, 2, 3) + Strip(centre, -2, 3);
    var s3, s4 := Strip(centre, 3, 3) + Strip(centre, -3, 3), Strip(centre, 4, 1) + Strip(centre, -4, 1);
    StripSize(centre, 0, 4);
    StripsSize(centre, 1, 4);
    StripsSize(centre, 2, 3);
    StripsSize(centre, 3, 3);
    StripsSize(centre, 4, 1);
    forall k | k in Within(keys, centre, 18) ensures k in s0 + s1 + s2 + s3 + s4 {
      InAStrip(k, centre);
      assert k == TileCoord(k.x, k.y, centre.z);
    }
    SubsetSize(Within(keys, centre, 18), s0 + s1 + s2 + s3 + s4);
  }

  lemma InAStrip(k: TileCoord, centre: TileCoord)
    requires Dist2(k, centre) <= 18
    ensures var dx, dy := k.x - centre.x, k.y - centre.y;
            -4 <= dy <= 4 && (if -1 <= dy <= 1 then -4 <= dx <= 4 else if -3 <= dy <= 3 then -3 <= dx <= 3 else -1 <= dx <= 1)
  {
    var dx, dy := k.x - centre.x, k.y - centre.y;
    Square(dx);
    Square(dy);
    SquareBound(dx, 4);
    SquareBound(dy, 4);
    SquareBound(dx, 3);
    SquareBound(dx, 1);
    SquareBound(dy, 1);
    SquareBound(dy, 3);
  }

  /** Up to radius two the tiles as near as the corners are the ring itself. */
  lemma NearUpToRadiusTwo(keys: set<TileCoord>, centre: TileCoord, r: nat)
    requires r <= 2 && InGrid(centre, r) && forall k :: k in keys ==> k.z == centre.z
    ensures |Within(keys, centre, CornerReach(r))| <= (2 * r + 1) * (2 * r + 1)
  {
    RingSize(centre, r);
    RingIsInRing(centre, r);
    forall k | k in Within(keys, centre, CornerReach(r)) ensures k in Ring(centre, r) {
      RingDistance(k, centre, r);
    }
    SubsetSize(Within(keys, centre, CornerReach(r)), Ring(centre, r));
  }

  lemma HeldAtOneZoom(r: Resident, batch: seq<Tile>, centre: TileCoord, radius: nat)
    requires OneZoom(r) && r.zoom == Some(centre.z) && Answers(batch, r.tiles, centre, radius)
    ensures forall k :: k in r.tiles.Keys + Coords(batch) ==> k.z == centre.z
  {
  }

  /** Whatever else is resident, refilling converges at radius up to two under a bound that covers the
      ring, and at radius three under 61 tiles, so under the default bound. */
  lemma RefillConverges(r: Resident, batch: seq<Tile>, after: map<TileCoord, Entry>,
                        centre: TileCoord, bound: nat, radius: nat)
    requires OneZoom(r) && r.zoom == Some(centre.z) && Answers(batch, r.tiles, centre, radius) && InGrid(centre, radius)
    requires EvictionOf(Ingest(r, batch).tiles, after, centre, bound)
    requires (radius <= 2 && (2 * radius + 1) * (2 * radius + 1) <= bound) || (radius == 3 && bound >= 61)
    ensures RingResident(after, centre, radius)
  {
    hide Within, Nearer, Ring, EvictionOf, Answers, Ingest, OneZoom, RingResident, Coords;
    var held := r.tiles.Keys + Coords(batch);
    HeldAtOneZoom(r, batch, centre, radius);
    if radius <= 2 { NearUpToRadiusTwo(held, centre, radius); } else { NearAtRadiusThree(held, centre); }
    RefillConvergesExactlyWhen(r, batch, centre, bound, radius);
  }

  /** From radius three on a bound that exactly covers the ring is too small under every tie order: one
      tile just outside is nearer than the corners, and each answer costs a ring tile. */
  lemma RefillNeverSettlesPastTwo(r: Resident, batch: seq<Tile>, after: map<TileCoord, Entry>,
                                  centre: TileCoord, outside: TileCoord, radius: nat)
    requires radius >= 3 && Interior(centre, radius) && InGrid(centre, radius)
    requires OneZoom(r) && r.zoom == Some(centre.z) && Answers(batch, r.tiles, centre, radius)
    requires outside.z == centre.z && outside.y == centre.y && outside.x == centre.x + radius + 1
    requires outside in r.tiles
    requires EvictionOf(Ingest(r, batch).tiles, after, centre, (2 * radius + 1) * (2 * radius + 1))
    ensures !RingResident(after, centre, radius)
  {
    hide Dist2, EvictionOf, Pow2, CornerReach;
    var held, ring := r.tiles.Keys + Coords(batch), Ring(centre, radius);
    RingSize(centre, radius);
    RingIsInRing(centre, radius);
    JustOutsideIsNearer(centre, outside, radius);
    SubsetSize(ring + {outside}, Nearer(held, centre, CornerReach(radius)) + ring);
    RefillConvergesExactlyWhen(r, batch, centre, (2 * radius + 1) * (2 * radius + 1), radius);
  }

  lemma JustOutsideIsNearer(centre: TileCoord, outside: TileCoord, r: nat)
    requires r >= 3 && outside.x == centre.x + r + 1 && outside.y == centre.y
    ensures Dist2(outside, centre) < CornerReach(r)
  {
    MulMonotone(3, r, r);
    var dx, dy := outside.x - centre.x, outside.y - centre.y;
    assert dx == r + 1 && dy == 0 && dx * dx == r * r + 2 * r + 1 && dy * dy == 0;
  }

  // ----- the cache -----

  /** One round of the refill loop on the cache itself: the sender answers what was missing with
      acceptable tiles; the cache then asks for nothing if its bound holds all that is as near as the
      corners, and must ask again if it does not hold the ring and what is nearer. */
  method RefillRound(cache: TerrainCache, batch: seq<Tile>, radius: U32) returns (missing: seq<TileCoord>)
    requires cache.Valid() && cache.zoom.Some? && cache.hasOrigin
    requires var centre := Centre(cache.geo, cache.vehicle, cache.origin, cache.zoom.value);
             InGrid(centre, radius) && Answers(batch, cache.tiles, centre, radius)
    requires forall t <- batch :: Acceptable(cache.geo, cache.origin, t)
    modifies cache
    ensures cache.Valid()
    ensures var centre := Centre(cache.geo, cache.vehicle, cache.origin, old(cache.zoom).value);
            var held := old(cache.tiles).Keys + Coords(batch);
            && (|Within(held, centre, CornerReach(radius))| <= cache.maxResident ==> missing == [])
            && (|Nearer(held, centre, CornerReach(radius)) + Ring(centre, radius)| > cache.maxResident ==> missing != [])
  {
    hide Within, Nearer, Ring, EvictionOf, Answers, InRing, Coords, Ingest, RingResident, Acceptable;
    ghost var before, centre := cache.Residency(), Centre(cache.geo, cache.vehicle, cache.origin, cache.zoom.value);
    AllPass(cache.geo, cache.origin, batch);
    ZoomOfAnswer(before, batch, centre, radius);
    var report := cache.InsertTiles(TILE_SIZE, batch);
    RoundSettles(before, batch, cache.tiles, centre, cache.maxResident, radius);
    missing := cache.MissingAroundVehicle(radius);
    NothingMissing(missing, cache.tiles, centre, radius);
  }

  lemma FirstIsIn(s: seq<TileCoord>)
    ensures s == [] || s[0] in s
  {
  }

  lemma NothingMissing(missing: seq<TileCoord>, tiles: map<TileCoord, Entry>, centre: TileCoord, r: nat)
    requires forall c :: c in missing <==> InRing(c, centre, r) && c !in tiles
    ensures missing == [] <==> RingResident(tiles, centre, r)
  {
    FirstIsIn(missing);
  }

  lemma {:induction false} AllPass(geo: Geometry, origin: Origin, batch: seq<Tile>)
    requires forall t <- batch :: Acceptable(geo, origin, t)
    ensures Passing(geo, origin, batch) == batch
  {
    if batch != [] {
      assert batch == batch[..|batch| - 1] + [batch[|batch| - 1]];
      AllPass(geo, origin, batch[..|batch| - 1]);
    }
  }

  // ----- whether the query can be answered at all -----

  /** Some batch of tiles the cache would accept answers the query. */
  ghost predicate Answerable(geo: Geometry, origin: Origin, tiles: map<TileCoord, Entry>, centre: TileCoord, r: nat) {
    exists batch: seq<Tile> :: (forall t <- batch :: Acceptable(geo, origin, t)) && Answers(batch, tiles, centre, r)
  }

  /** A flat tile. */
  function Flat(c: TileCoord): Tile { Tile(c, seq(SAMPLES, _ => Finite(0.0)), false) }

  lemma {:induction false} FlatTiles(coords: set<TileCoord>) returns (batch: seq<Tile>)
    ensures forall t <- batch :: t == Flat(t.coord) && t.coord in coords
    ensures Coords(batch) == coords
    decreases |coords|
  {
    batch := [];
    if coords != {} {
      var c :| c in coords;
      var rest := FlatTiles(coords - {c});
      batch := rest + [Flat(c)];
      assert Coords(batch) == Coords(rest) + {c};
    }
  }

  /** Acceptable tiles can answer the query exactly when the ring does not reach past the high edge of
      the zoom's grid, whose columns and rows the query names and validation refuses, and every missing
      tile is near enough to the origin. */
  lemma AnswerableExactlyWhen(geo: Geometry, origin: Origin, r: Resident, centre: TileCoord, radius: nat)
    requires Usable(r) && r.zoom == Some(centre.z) && InGrid(centre, radius)
    ensures Answerable(geo, origin, r.tiles, centre, radius) <==>
            BelowHighEdge(centre, radius)
            && forall c :: InRing(c, centre, radius) && c !in r.tiles ==> geo.cornerDistance(origin, c) <= MAX_ORIGIN_DISTANCE_M
  {
    hide Pow2, PlausibleHeights;
    var ring := Ring(centre, radius);
    RingSize(centre, radius);
    RingIsInRing(centre, radius);
    if Answerable(geo, origin, r.tiles, centre, radius) {
      var batch: seq<Tile> :| (forall t <- batch :: Acceptable(geo, origin, t)) && Answers(batch, r.tiles, centre, radius);
      forall c | InRing(c, centre, radius)
        ensures OnGrid(c) && (c in r.tiles || geo.cornerDistance(origin, c) <= MAX_ORIGIN_DISTANCE_M)
      {
        if c !in r.tiles {
          var t: Tile :| t in batch && t.coord == c;
        }
      }
    }
    if BelowHighEdge(centre, radius)
       && forall c :: InRing(c, centre, radius) && c !in r.tiles ==> geo.cornerDistance(origin, c) <= MAX_ORIGIN_DISTANCE_M
    {
      var batch := FlatTiles(ring - r.tiles.Keys);
      forall t | t in batch ensures Acceptable(geo, origin, t) {
        FlatIsPlausible(t.coord);
      }
      assert Answers(batch, r.tiles, centre, radius);
    }
  }

  lemma FlatIsPlausible(c: TileCoord)
    ensures PlausibleHeights(Flat(c).heights)
  {
  }
}
