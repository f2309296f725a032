/** The uniform grid of tower-aoi (struct map, struct tile): its geometry,
    row-major tile addressing, position-to-tile lookup, the clamped square
    window of a watcher, and the tile array built by tile_init.

    Positions are integers. The source stores them as floats and converts
    `pos / tile_len` to int, which truncates toward zero; `TruncDiv` is that
    conversion for integer positions. A tile pointer `&tiles[i]` is modelled
    by the index i. */
module Grid {
  import opened Base
  import opened SlotTable

  datatype Point = Point(x: int, y: int)

  /** The geometry fields of struct map. */
  datatype Geometry = Geometry(realWidth: int, realHigh: int, width: int, high: int,
                               maxX: int, maxY: int, tileLen: int, tileSz: int)

  /** Bottom-left and top-right tile coordinates of a window (calc_rect's
      bl and tr out-parameters). */
  datatype Rect = Rect(blX: int, blY: int, trX: int, trY: int)

  /** What _aoi_new guarantees about a geometry. */
  ghost predicate Wf(g: Geometry)
  {
    g.tileLen > 0 && g.maxX >= -1 && g.maxY >= -1 &&
    g.width == (g.maxX + 1) * g.tileLen && g.high == (g.maxY + 1) * g.tileLen &&
    g.tileSz == (g.maxX + 1) * (g.maxY + 1)
  }

  /** The geometry computed by _aoi_new: whole tiles only. */
  function NewGeometry(realWidth: nat, realHigh: nat, tileLen: nat): (g: Geometry)
    requires tileLen > 0
    ensures Wf(g) && g.tileLen == tileLen && g.tileSz >= 0
    ensures g.maxX == realWidth / tileLen - 1 && g.maxY == realHigh / tileLen - 1
    ensures 0 <= g.width <= realWidth < g.width + tileLen && g.width % tileLen == 0
    ensures 0 <= g.high <= realHigh < g.high + tileLen && g.high % tileLen == 0
  {
    var maxX := realWidth / tileLen - 1;
    var maxY := realHigh / tileLen - 1;
    var width := (maxX + 1) * tileLen;
    var high := (maxY + 1) * tileLen;
    WholeTiles(realWidth, tileLen);
    WholeTiles(realHigh, tileLen);
    assert (maxX + 1) * (maxY + 1) >= 0;
    Geometry(realWidth, realHigh, width, high, maxX, maxY, tileLen, (maxX + 1) * (maxY + 1))
  }

  /** Rounding an extent down to whole tiles. */
  lemma WholeTiles(extent: nat, tileLen: nat)
    requires tileLen > 0
    ensures var w := (extent / tileLen) * tileLen;
      0 <= w <= extent < w + tileLen && w % tileLen == 0
  {
    var q := extent / tileLen;
    assert extent == tileLen * q + extent % tileLen;
    assert q * tileLen == tileLen * q;
    DivModUnique(q * tileLen, tileLen, q, 0);
  }

  /** C's conversion of `a / b` to int for b > 0: truncation toward zero. */
  function TruncDiv(a: int, b: int): int
    requires b > 0
  {
    if a >= 0 then a / b else -((-a) / b)
  }

  /** Column and row of the tile a position falls in (tile_withpos). */
  function Column(g: Geometry, p: Point): int
    requires g.tileLen > 0
  {
    TruncDiv(p.x, g.tileLen)
  }

  function Row(g: Geometry, p: Point): int
    requires g.tileLen > 0
  {
    TruncDiv(p.y, g.tileLen)
  }

  /** The position's tile is not before the start of the tile array; the
      source only checks upper bounds, so a negative column or row would
      index outside the array. */
  predicate NotBeforeGrid(g: Geometry, p: Point)
    requires g.tileLen > 0
  {
    Column(g, p) >= 0 && Row(g, p) >= 0
  }

  /** Row-major address of tile (r, c). */
  function TileIndex(g: Geometry, r: int, c: int): int
  {
    r * (g.maxX + 1) + c
  }

  /** Column and row of the tile at index k (0 in a grid without columns). */
  function ColOf(g: Geometry, k: int): int
  {
    if g.maxX < 0 then 0 else k % (g.maxX + 1)
  }

  function RowOf(g: Geometry, k: int): int
  {
    if g.maxX < 0 then 0 else k / (g.maxX + 1)
  }

  /** tile_withrc: NULL when c or r is beyond the last column or row; only
      upper bounds are checked. */
  function TileWithRC(g: Geometry, r: int, c: int): Option<int>
  {
    if c > g.maxX || r > g.maxY then None else Some(TileIndex(g, r, c))
  }

  /** tile_withpos: divide each coordinate by the tile length. */
  function TileWithPos(g: Geometry, p: Point): Option<int>
    requires g.tileLen > 0
  {
    var x := Column(g, p);
    var y := Row(g, p);
    if x > g.maxX || y > g.maxY then None else TileWithRC(g, y, x)
  }

  function Max(a: int, b: int): int { if a < b then b else a }
  function Min(a: int, b: int): int { if a < b then a else b }

  /** calc_rect: the window of `range` tiles around the position's tile,
      clamped below at 0 and above at the last index; None (-1) when the
      position has no tile. The tile's x and y are those tile_init stamped
      on it, which are the position's column and row (Map.Valid). */
  function CalcRect(g: Geometry, p: Point, range: int): (r: Option<Rect>)
    requires g.tileLen > 0
    ensures r.Some? ==> 0 <= r.value.blX && r.value.trX <= g.maxX &&
                        0 <= r.value.blY && r.value.trY <= g.maxY
  {
    match TileWithPos(g, p)
    case None => None
    case Some(_) =>
      var tx, ty := Column(g, p), Row(g, p);
      var blx := if tx - range < 0 then 0 else tx - range;
      var bly := if ty - range < 0 then 0 else ty - range;
      var trx := if tx + range > g.maxX then g.maxX else tx + range;
      var try_ := if ty + range > g.maxY then g.maxY else ty + range;
      Some(Rect(blx, bly, trx, try_))
  }

  /** A window lies inside the grid (calc_rect's clamping guarantees it). */
  ghost predicate InsideGrid(g: Geometry, r: Rect)
  {
    0 <= r.blX && r.trX <= g.maxX && 0 <= r.blY && r.trY <= g.maxY
  }

  /** Tile (row, col) lies in the window: independent interval tests. */
  predicate InRect(r: Rect, row: int, col: int)
  {
    r.blX <= col <= r.trX && r.blY <= row <= r.trY
  }

  /** The tiles of row y from column lo up to hi - 1, in the order the
      watcher loops visit them (x inner). */
  function RowTiles(g: Geometry, y: int, lo: int, hi: int): seq<int>
  {
    if hi <= lo then [] else seq(hi - lo, i requires 0 <= i < hi - lo => TileIndex(g, y, lo + i))
  }

  /** The tiles of the window's rows r.blY up to hi - 1 (y outer). */
  function RowsTiles(g: Geometry, r: Rect, hi: int): seq<int>
    decreases hi - r.blY
  {
    if hi <= r.blY then [] else RowsTiles(g, r, hi - 1) + RowTiles(g, hi - 1, r.blX, r.trX + 1)
  }

  /** Every tile of the window, in visiting order. */
  function RectTiles(g: Geometry, r: Rect): seq<int>
  {
    RowsTiles(g, r, r.trY + 1)
  }

  /** Tile k lies in the skip window, if there is one (the `continue` test
      of update_watcher's loops). */
  predicate Skipped(g: Geometry, skip: Option<Rect>, k: int)
  {
    skip.Some? && InRect(skip.value, RowOf(g, k), ColOf(g, k))
  }

  /** The tiles of ts not skipped, in order. */
  function Kept(g: Geometry, ts: seq<int>, skip: Option<Rect>): seq<int>
  {
    if ts == [] then []
    else Kept(g, ts[..|ts| - 1], skip) +
         (if Skipped(g, skip, ts[|ts| - 1]) then [] else [ts[|ts| - 1]])
  }

  // ---------------------------------------------------------------------
  // Lemmas about the geometry

  /** Row-major addresses decode back to their row and column. */
  lemma TileIndexDecode(g: Geometry, r: int, c: int)
    requires 0 <= c <= g.maxX && 0 <= r
    ensures RowOf(g, TileIndex(g, r, c)) == r && ColOf(g, TileIndex(g, r, c)) == c
  {
    DivModUnique(TileIndex(g, r, c), g.maxX + 1, r, c);
  }

  /** Every index of the tile array is the address of a tile in the grid. */
  lemma TileIndexEncode(g: Geometry, k: int)
    requires Wf(g) && 0 <= k < g.tileSz
    ensures g.maxX >= 0 && g.maxY >= 0
    ensures 0 <= RowOf(g, k) <= g.maxY && 0 <= ColOf(g, k) <= g.maxX
    ensures TileIndex(g, RowOf(g, k), ColOf(g, k)) == k
  {
    var w, h := g.maxX + 1, g.maxY + 1;
    ProductPositive(w, h);
    var r, c := k / w, k % w;
    assert k == w * r + c;
    if r >= h {
      MulMono(w, h, r);
    }
  }

  lemma ProductPositive(a: int, b: int)
    requires a >= 0 && b >= 0 && a * b > 0
    ensures a > 0 && b > 0
  {
  }

  lemma MulMono(w: int, a: int, b: int)
    requires w >= 0 && a <= b
    ensures w * a <= w * b
  {
    assert w * b - w * a == w * (b - a);
  }

  /** tile_withrc: NULL exactly beyond the last column or row; otherwise an
      index into the tile array, and different in-grid (r, c) get
      different tiles. */
  lemma TileWithRCSpec(g: Geometry, r: int, c: int)
    requires Wf(g)
    ensures TileWithRC(g, r, c).None? <==> c > g.maxX || r > g.maxY
    ensures 0 <= r <= g.maxY && 0 <= c <= g.maxX ==>
      TileWithRC(g, r, c) == Some(TileIndex(g, r, c)) &&
      0 <= TileIndex(g, r, c) < g.tileSz &&
      RowOf(g, TileIndex(g, r, c)) == r && ColOf(g, TileIndex(g, r, c)) == c
  {
    if 0 <= r <= g.maxY && 0 <= c <= g.maxX {
      TileIndexDecode(g, r, c);
      var w := g.maxX + 1;
      assert r * w <= g.maxY * w by {
        assert g.maxY * w - r * w == (g.maxY - r) * w;
      }
      assert g.tileSz == g.maxY * w + w;
    }
  }

  /** A position inside [0, width) x [0, high) always has a tile, and it is
      the tile of its column and row; a non-negative position has a tile
      only inside those bounds. */
  lemma TileWithPosSpec(g: Geometry, p: Point)
    requires Wf(g) && p.x >= 0 && p.y >= 0
    ensures TileWithPos(g, p).Some? <==> p.x < g.width && p.y < g.high
    ensures TileWithPos(g, p).Some? ==>
      var k := TileWithPos(g, p).value;
      0 <= k < g.tileSz && RowOf(g, k) == p.y / g.tileLen && ColOf(g, k) == p.x / g.tileLen
  {
    assert Column(g, p) == p.x / g.tileLen && Row(g, p) == p.y / g.tileLen;
    TileOfPos(g, p);
    AxisInside(p.x, g.tileLen, g.maxX);
    AxisInside(p.y, g.tileLen, g.maxY);
  }

  /** tile_withpos for any position whose column and row are not negative:
      a tile exactly when both are within the last index, and then the tile
      at that column and row. */
  lemma TileOfPos(g: Geometry, p: Point)
    requires Wf(g) && NotBeforeGrid(g, p)
    ensures TileWithPos(g, p).Some? <==> Column(g, p) <= g.maxX && Row(g, p) <= g.maxY
    ensures TileWithPos(g, p).Some? ==>
      var k := TileWithPos(g, p).value;
      0 <= k < g.tileSz && RowOf(g, k) == Row(g, p) && ColOf(g, k) == Column(g, p)
  {
    TileWithRCSpec(g, Row(g, p), Column(g, p));
  }

  /** Along one axis: the coordinate's tile is at most the last index
      exactly when the coordinate is below the whole-tile extent. */
  lemma AxisInside(v: nat, t: int, last: int)
    requires t > 0
    ensures v / t <= last <==> v < (last + 1) * t
  {
    var c, r := v / t, v % t;
    assert v == t * c + r && 0 <= r < t;
    assert (last + 1) * t == t * (last + 1);
    if c <= last {
      MulMono(t, c + 1, last + 1);
      assert t * (c + 1) == t * c + t;
    } else {
      MulMono(t, last + 1, c);
    }
  }

  /** calc_rect fails exactly when the position has no tile; otherwise each
      axis is max(0, tile - range) .. min(max index, tile + range), which
      brackets the position's own tile when range >= 0. */
  lemma CalcRectSpec(g: Geometry, p: Point, range: int)
    requires Wf(g) && NotBeforeGrid(g, p)
    ensures CalcRect(g, p, range).None? <==> TileWithPos(g, p).None?
    ensures CalcRect(g, p, range).Some? ==>
      var r := CalcRect(g, p, range).value;
      var tx, ty := Column(g, p), Row(g, p);
      r.blX == Max(0, tx - range) && r.trX == Min(g.maxX, tx + range) &&
      r.blY == Max(0, ty - range) && r.trY == Min(g.maxY, ty + range) &&
      (range >= 0 ==> 0 <= r.blX <= tx <= r.trX <= g.maxX && 0 <= r.blY <= ty <= r.trY <= g.maxY) &&
      InRect(r, ty, tx) == (range >= 0)
  {
  }

  /** Within row y, the tiles of columns lo .. hi-1 are a run of indices. */
  lemma RowSpan(g: Geometry, y: int, lo: int, hi: int, k: int)
    requires Wf(g) && 0 <= y <= g.maxY && 0 <= lo && hi <= g.maxX + 1 && 0 <= k < g.tileSz
    ensures y * (g.maxX + 1) + lo <= k < y * (g.maxX + 1) + hi <==>
            RowOf(g, k) == y && lo <= ColOf(g, k) < hi
    ensures RowOf(g, k) == y ==> ColOf(g, k) == k - y * (g.maxX + 1)
  {
    TileIndexEncode(g, k);
    var w := g.maxX + 1;
    if RowOf(g, k) == y {
      assert k == y * w + ColOf(g, k);
    }
    if y * w + lo <= k < y * w + hi {
      assert k == w * y + (k - y * w);
      DivModUnique(k, w, y, k - y * w);
    }
  }

  /** Membership in one row's run of tiles. */
  lemma RowTilesMembers(g: Geometry, y: int, lo: int, hi: int, k: int)
    requires Wf(g) && 0 <= y <= g.maxY && 0 <= lo && hi <= g.maxX + 1
    ensures k in RowTiles(g, y, lo, hi) <==>
      0 <= k < g.tileSz && RowOf(g, k) == y && lo <= ColOf(g, k) < hi
  {
    var ts := RowTiles(g, y, lo, hi);
    if k in ts {
      var i :| 0 <= i < |ts| && ts[i] == k;
      TileWithRCSpec(g, y, lo + i);
      TileIndexDecode(g, y, lo + i);
    }
    if 0 <= k < g.tileSz && RowOf(g, k) == y && lo <= ColOf(g, k) < hi {
      TileIndexEncode(g, k);
      assert ts[ColOf(g, k) - lo] == k;
    }
  }

  /** Membership in the first rows of a window. */
  lemma {:induction false} RowsTilesMembers(g: Geometry, r: Rect, hi: int, k: int)
    requires Wf(g) && InsideGrid(g, r) && hi <= g.maxY + 1
    ensures k in RowsTiles(g, r, hi) <==>
      0 <= k < g.tileSz && r.blY <= RowOf(g, k) < hi && r.blX <= ColOf(g, k) <= r.trX
    decreases hi - r.blY
  {
    if hi > r.blY {
      RowsTilesMembers(g, r, hi - 1, k);
      RowTilesMembers(g, hi - 1, r.blX, r.trX + 1, k);
    }
  }

  /** The watcher loops visit exactly the tiles of the window. */
  lemma RectTilesMembers(g: Geometry, r: Rect, k: int)
    requires Wf(g) && InsideGrid(g, r)
    ensures k in RectTiles(g, r) <==> 0 <= k < g.tileSz && InRect(r, RowOf(g, k), ColOf(g, k))
  {
    RowsTilesMembers(g, r, r.trY + 1, k);
  }

  /** Membership in the filtered sequence of tiles. */
  lemma {:induction false} KeptMembers(g: Geometry, ts: seq<int>, skip: Option<Rect>, k: int)
    ensures k in Kept(g, ts, skip) <==> k in ts && !Skipped(g, skip, k)
  {
    if ts != [] {
      var init := ts[..|ts| - 1];
      KeptMembers(g, init, skip, k);
      assert ts == init + [ts[|ts| - 1]];
    }
  }

  /** Without a skip window nothing is filtered out. */
  lemma {:induction false} KeptAll(g: Geometry, ts: seq<int>)
    ensures Kept(g, ts, None) == ts
  {
    if ts != [] {
      KeptAll(g, ts[..|ts| - 1]);
      assert ts == ts[..|ts| - 1] + [ts[|ts| - 1]];
    }
  }

  /** Filtering one more tile. */
  lemma KeptSnoc(g: Geometry, ts: seq<int>, k: int, skip: Option<Rect>)
    ensures Kept(g, ts + [k], skip) ==
      Kept(g, ts, skip) + (if Skipped(g, skip, k) then [] else [k])
  {
    assert (ts + [k])[..|ts|] == ts;
  }

  /** One more step along a row of a window: tile (y, x) is kept unless it
      lies in the skip window. */
  lemma RowStep(g: Geometry, y: int, lo: int, x: int, skip: Option<Rect>)
    requires Wf(g) && 0 <= y <= g.maxY && 0 <= x <= g.maxX && lo <= x
    ensures Kept(g, RowTiles(g, y, lo, x + 1), skip) ==
      Kept(g, RowTiles(g, y, lo, x), skip) +
      (if skip.Some? && InRect(skip.value, y, x) then [] else [TileIndex(g, y, x)])
  {
    TileIndexDecode(g, y, x);
    assert RowTiles(g, y, lo, x + 1) == RowTiles(g, y, lo, x) + [TileIndex(g, y, x)];
    KeptSnoc(g, RowTiles(g, y, lo, x), TileIndex(g, y, x), skip);
  }

  /** Filtering distributes over concatenation. */
  lemma {:induction false} KeptAppend(g: Geometry, a: seq<int>, b: seq<int>, skip: Option<Rect>)
    ensures Kept(g, a + b, skip) == Kept(g, a, skip) + Kept(g, b, skip)
    decreases |b|
  {
    if b != [] {
      var init, last := b[..|b| - 1], b[|b| - 1];
      assert b == init + [last];
      assert a + b == (a + init) + [last];
      KeptAppend(g, a, init, skip);
      KeptSnoc(g, a + init, last, skip);
      KeptSnoc(g, init, last, skip);
    } else {
      assert a + b == a;
    }
  }

  // ---------------------------------------------------------------------

  /** struct tile: its coordinates and its two tables. */
  class Tile {
    const x: int
    const y: int
    const markers: Table
    const watchers: Table

    constructor (x: int, y: int)
      ensures this.x == x && this.y == y
      ensures fresh(markers) && fresh(watchers) && markers != watchers
      ensures markers.IsNew() && watchers.IsNew()
    {
      this.x := x;
      this.y := y;
      markers := new Table();
      watchers := new Table();
    }
  }

  /** Tile t, at array index k, carries the coordinates of k and two
      different tables. */
  ghost predicate Stamped(g: Geometry, t: Tile, k: int)
  {
    g.maxX >= 0 && t.x == ColOf(g, k) && t.y == RowOf(g, k) && t.markers != t.watchers
  }

  /** Two tiles share no table. */
  ghost predicate Apart(a: Tile, b: Tile)
  {
    a.markers != b.markers && a.watchers != b.watchers &&
    a.markers != b.watchers && a.watchers != b.markers
  }

  /** Both tables of t are as table_create left them. */
  ghost predicate EmptyTables(t: Tile)
    reads t.markers, t.watchers
  {
    t.markers.IsNew() && t.watchers.IsNew()
  }

  /** The invariant of the tile array: every tile present, stamped with its
      own column and row, and all 2 * tile_sz tables valid and distinct. */
  ghost predicate TilesValid(g: Geometry, tiles: array<Tile?>, tables: set<Table>)
    reads tiles, tables
  {
    TilesLaidOut(g, tiles, tables) && TablesValid(tiles)
  }

  /** The part of the invariant that no table operation can break. */
  ghost predicate TilesLaidOut(g: Geometry, tiles: array<Tile?>, tables: set<Table>)
    reads tiles
  {
    Wf(g) && tiles.Length == g.tileSz &&
    (forall k :: 0 <= k < tiles.Length ==>
       tiles[k] != null && Stamped(g, tiles[k], k) &&
       tiles[k].markers in tables && tiles[k].watchers in tables) &&
    (forall i, j :: 0 <= i < tiles.Length && 0 <= j < tiles.Length && i != j ==>
       Apart(tiles[i], tiles[j]))
  }

  /** Every table of every tile keeps the slot table's invariant. */
  ghost predicate TablesValid(tiles: array<Tile?>)
    reads tiles, set k | 0 <= k < tiles.Length && tiles[k] != null :: tiles[k].markers,
          set k | 0 <= k < tiles.Length && tiles[k] != null :: tiles[k].watchers
  {
    forall k :: 0 <= k < tiles.Length && tiles[k] != null ==>
      tiles[k].markers.Valid() && tiles[k].watchers.Valid()
  }

  /** tile_init: for each column x, for each row y, stamp tile (y, x) with
      its coordinates and two new tables. */
  method TileInit(g: Geometry) returns (tiles: array<Tile?>, ghost tables: set<Table>)
    requires Wf(g) && g.tileSz >= 0
    ensures fresh(tiles) && TilesValid(g, tiles, tables)
    ensures forall k :: 0 <= k < tiles.Length ==> EmptyTables(tiles[k])
  {
    tiles := new Tile?[g.tileSz](_ => null);
    tables := {};
    forall k | 0 <= k < tiles.Length ensures ColOf(g, k) >= 0 && RowOf(g, k) >= 0 {
      TileIndexEncode(g, k);
    }
    var x := 0;
    while x <= g.maxX
      invariant 0 <= x <= g.maxX + 1
      invariant ColumnsStamped(g, tiles, tables, x, 0)
    {
      tables := StampColumn(g, tiles, tables, x);
      NextColumn(g, tiles, tables, x);
      x := x + 1;
    }
    AllStamped(g, tiles, tables);
  }

  /** Finishing column x is starting column x + 1. */
  lemma NextColumn(g: Geometry, tiles: array<Tile?>, tables: set<Table>, x: int)
    requires Wf(g) && 0 <= x <= g.maxX && ColumnsStamped(g, tiles, tables, x, g.maxY + 1)
    ensures ColumnsStamped(g, tiles, tables, x + 1, 0)
  {
    forall k | 0 <= k < tiles.Length
      ensures tiles[k] != null <==> ColOf(g, k) < x + 1 || (ColOf(g, k) == x + 1 && RowOf(g, k) < 0)
    {
      TileIndexEncode(g, k);
    }
  }

  /** Once every column is stamped, the tile array keeps its invariant and
      every table is new. */
  lemma AllStamped(g: Geometry, tiles: array<Tile?>, tables: set<Table>)
    requires Wf(g) && ColumnsStamped(g, tiles, tables, g.maxX + 1, 0)
    ensures TilesValid(g, tiles, tables)
    ensures forall k :: 0 <= k < tiles.Length ==> EmptyTables(tiles[k])
  {
    forall k | 0 <= k < tiles.Length ensures tiles[k] != null {
      TileIndexEncode(g, k);
    }
    NewSlotsEmpty();
  }

  /** Part-way through tile_init: exactly the tiles before column x, and
      the first y tiles of column x, are stamped, each with two empty
      tables of their own recorded in `tables`. */
  ghost predicate ColumnsStamped(g: Geometry, tiles: array<Tile?>, tables: set<Table>, x: int, y: int)
    reads tiles, tables
  {
    tiles.Length == g.tileSz &&
    (forall k :: 0 <= k < tiles.Length ==>
      (tiles[k] != null <==> ColOf(g, k) < x || (ColOf(g, k) == x && RowOf(g, k) < y))) &&
    (forall k :: 0 <= k < tiles.Length && tiles[k] != null ==>
      Stamped(g, tiles[k], k) && tiles[k].markers in tables && tiles[k].watchers in tables &&
      EmptyTables(tiles[k])) &&
    (forall i, j :: 0 <= i < tiles.Length && 0 <= j < tiles.Length && i != j &&
                    tiles[i] != null && tiles[j] != null ==>
      Apart(tiles[i], tiles[j]))
  }

  /** The inner loop of tile_init: every row y of column x. */
  method StampColumn(g: Geometry, tiles: array<Tile?>, ghost tables: set<Table>, x: int)
    returns (ghost tables': set<Table>)
    requires Wf(g) && 0 <= x <= g.maxX && ColumnsStamped(g, tiles, tables, x, 0)
    modifies tiles
    ensures ColumnsStamped(g, tiles, tables', x, g.maxY + 1)
  {
    var n := tiles.Length;
    tables' := tables;
    var y := 0;
    while y <= g.maxY
      invariant 0 <= y <= g.maxY + 1
      invariant ColumnsStamped(g, tiles, tables', x, y)
    {
      TileWithRCSpec(g, y, x);
      var k0 := TileWithRC(g, y, x).value;
      forall k | 0 <= k < n ensures TileIndex(g, RowOf(g, k), ColOf(g, k)) == k {
        TileIndexEncode(g, k);
      }
      assert tiles[k0] == null;
      var tl := new Tile(x, y);
      assert tl.markers !in tables' && tl.watchers !in tables';
      ghost var before := tables';
      tiles[k0] := tl;
      tables' := tables' + {tl.markers, tl.watchers};
      forall k | 0 <= k < n
        ensures tiles[k] != null <==> ColOf(g, k) < x || (ColOf(g, k) == x && RowOf(g, k) < y + 1)
      {
      }
      forall k | 0 <= k < n && tiles[k] != null
        ensures Stamped(g, tiles[k], k) && tiles[k].markers in tables' && tiles[k].watchers in tables'
        ensures EmptyTables(tiles[k])
      {
      }
      forall i, j | 0 <= i < n && 0 <= j < n && i != j && tiles[i] != null && tiles[j] != null
        ensures Apart(tiles[i], tiles[j])
      {
        if i != k0 && j != k0 {
        } else if i == k0 {
          assert tiles[j].markers in before && tiles[j].watchers in before;
        } else {
          assert tiles[i].markers in before && tiles[i].watchers in before;
        }
      }
      y := y + 1;
    }
  }

  /** Every table of a view keeps the slot table's invariant. */
  ghost predicate AllNoChains(V: seq<seq<Slot>>)
  {
    forall k :: 0 <= k < |V| ==> NoChains(V[k])
  }

  /** struct map: the geometry and the tile array. */

  class Map {
    const geo: Geometry
    const tiles: array<Tile?>
    ghost const tables: set<Table>
    /** The slots of every markers / watchers table, tile by tile. */
    ghost var markerSlots: seq<seq<Slot>>
    ghost var watcherSlots: seq<seq<Slot>>

    ghost predicate Valid()
      reads this, tiles, tables
    {
      TilesValid(geo, tiles, tables) &&
      |markerSlots| == tiles.Length && |watcherSlots| == tiles.Length &&
      (forall k :: 0 <= k < tiles.Length ==>
         markerSlots[k] == tiles[k].markers.slots && watcherSlots[k] == tiles[k].watchers.slots)
    }

    /** The geometry part of _aoi_new followed by tile_init. */
    constructor (realWidth: nat, realHigh: nat, tileLen: nat)
      requires tileLen > 0
      ensures Valid() && geo == NewGeometry(realWidth, realHigh, tileLen)
      ensures forall k :: 0 <= k < |markerSlots| ==> markerSlots[k] == NewSlots()
      ensures forall k :: 0 <= k < |watcherSlots| ==> watcherSlots[k] == NewSlots()
    {
      var g := NewGeometry(realWidth, realHigh, tileLen);
      var ts, made := TileInit(g);
      geo := g;
      tiles := ts;
      tables := made;
      markerSlots := seq(ts.Length, _ => NewSlots());
      watcherSlots := seq(ts.Length, _ => NewSlots());
    }

    /** Every table of the map keeps the slot table's invariant. */
    lemma ViewsNoChains()
      requires Valid()
      ensures AllNoChains(markerSlots) && AllNoChains(watcherSlots)
    {
    }

    /** table_insert into the markers table of tile k; every other table
        keeps its slots. */
    method InsertMarker(k: int, id: nat, h: nat)
      requires Valid() && 0 <= k < tiles.Length
      modifies this, tables
      ensures Valid()
      ensures markerSlots == old(markerSlots)[k := InsertSlots(old(markerSlots)[k], id, h)]
      ensures watcherSlots == old(watcherSlots)
    {
      var tb := tiles[k].markers;
      tb.Insert(id, h);
      markerSlots := markerSlots[k := tb.slots];
      forall j | 0 <= j < tiles.Length
        ensures tiles[j].markers.Valid() && tiles[j].watchers.Valid()
        ensures markerSlots[j] == tiles[j].markers.slots && watcherSlots[j] == tiles[j].watchers.slots
      {
        if j != k {
          assert Apart(tiles[j], tiles[k]);
        }
      }
    }

    /** table_delete from the markers table of tile k. */
    method DeleteMarker(k: int, id: nat)
      requires Valid() && 0 <= k < tiles.Length
      modifies this, tables
      ensures Valid()
      ensures markerSlots == old(markerSlots)[k := DeleteSlots(old(markerSlots)[k], id)]
      ensures watcherSlots == old(watcherSlots)
    {
      var tb := tiles[k].markers;
      var _ := tb.Delete(id);
      markerSlots := markerSlots[k := tb.slots];
      forall j | 0 <= j < tiles.Length
        ensures tiles[j].markers.Valid() && tiles[j].watchers.Valid()
        ensures markerSlots[j] == tiles[j].markers.slots && watcherSlots[j] == tiles[j].watchers.slots
      {
        if j != k {
          assert Apart(tiles[j], tiles[k]);
        }
      }
    }

    /** table_insert into the watchers table of tile k. */
    method InsertWatcher(k: int, id: nat, h: nat)
      requires Valid() && 0 <= k < tiles.Length
      modifies this, tables
      ensures Valid()
      ensures watcherSlots == old(watcherSlots)[k := InsertSlots(old(watcherSlots)[k], id, h)]
      ensures markerSlots == old(markerSlots)
    {
      var tb := tiles[k].watchers;
      tb.Insert(id, h);
      watcherSlots := watcherSlots[k := tb.slots];
      forall j | 0 <= j < tiles.Length
        ensures tiles[j].markers.Valid() && tiles[j].watchers.Valid()
        ensures markerSlots[j] == tiles[j].markers.slots && watcherSlots[j] == tiles[j].watchers.slots
      {
        if j != k {
          assert Apart(tiles[j], tiles[k]);
        }
      }
    }

    /** table_delete from the watchers table of tile k. */
    method DeleteWatcher(k: int, id: nat)
      requires Valid() && 0 <= k < tiles.Length
      modifies this, tables
      ensures Valid()
      ensures watcherSlots == old(watcherSlots)[k := DeleteSlots(old(watcherSlots)[k], id)]
      ensures markerSlots == old(markerSlots)
    {
      var tb := tiles[k].watchers;
      var _ := tb.Delete(id);
      watcherSlots := watcherSlots[k := tb.slots];
      forall j | 0 <= j < tiles.Length
        ensures tiles[j].markers.Valid() && tiles[j].watchers.Valid()
        ensures markerSlots[j] == tiles[j].markers.slots && watcherSlots[j] == tiles[j].watchers.slots
      {
        if j != k {
          assert Apart(tiles[j], tiles[k]);
        }
      }
    }

    /** make_table of the markers / watchers table of tile k. */
    method SnapshotMarkers(k: int) returns (ids: seq<int>)
      requires Valid() && 0 <= k < tiles.Length
      ensures ids == LiveIds(markerSlots[k])
    {
      ids := tiles[k].markers.Snapshot();
    }

    method SnapshotWatchers(k: int) returns (ids: seq<int>)
      requires Valid() && 0 <= k < tiles.Length
      ensures ids == LiveIds(watcherSlots[k])
    {
      ids := tiles[k].watchers.Snapshot();
    }
  }
}
