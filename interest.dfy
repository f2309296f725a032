/** The interest engine: an object is a marker (it can be seen), a watcher
    (it sees every marker within `range` tiles of its own tile) or both.
    A marker is recorded, under its id, in the markers table of the tile
    it stands on; a watcher in the watchers table of every tile of its
    window. Each operation also hands back snapshots (make_table) of the
    opposite tables it touched: the watchers that now see a marker, the
    markers a watcher now sees.

    Every operation is specified by a function on the slots of all
    markers tables (M) and all watchers tables (W), tile by tile; the
    methods on a Map are proved to move its tables exactly as those
    functions say, and the lemmas state what the functions do to the
    entries of the tables. */
module Interest {
  import opened Base
  import opened SlotTable
  import opened Grid

  /** The `type` bits of an object: MARKER (1), WATCHER (2) or both (3). */
  datatype Kind = Marker | Watcher | WatcherMarker

  /** `type & MARKER` */
  predicate HasMarker(k: Kind) { k != Watcher }

  /** `type & WATCHER` */
  predicate HasWatcher(k: Kind) { k != Marker }

  /** struct object: its id, its position and the half-width of its window
      in tiles. */
  datatype Entity = Entity(id: nat, cur: Point, range: int, kind: Kind)

  /** A view of the tables of every tile of a geometry. */
  ghost predicate IsView(g: Geometry, V: seq<seq<Slot>>)
  {
    Wf(g) && |V| == g.tileSz && AllNoChains(V)
  }

  // ---------------------------------------------------------------------
  // Markers: specification

  /** add_marker on the markers tables: insert into the table of the
      position's tile, if it has one. */
  function MarkerEnter(g: Geometry, p: Point, id: nat, h: nat, M: seq<seq<Slot>>): (M': seq<seq<Slot>>)
    requires IsView(g, M) && NotBeforeGrid(g, p)
    ensures IsView(g, M')
  {
    TileOfPos(g, p);
    match TileWithPos(g, p)
    case None => M
    case Some(t) => InsertSlotsSpec(M[t], id, h); M[t := InsertSlots(M[t], id, h)]
  }

  /** remove_marker on the markers tables. */
  function MarkerLeave(g: Geometry, p: Point, id: nat, M: seq<seq<Slot>>): (M': seq<seq<Slot>>)
    requires IsView(g, M) && NotBeforeGrid(g, p)
    ensures IsView(g, M')
  {
    TileOfPos(g, p);
    match TileWithPos(g, p)
    case None => M
    case Some(t) => DeleteSlotsSpec(M[t], id); M[t := DeleteSlots(M[t], id)]
  }

  /** update_marker on the markers tables: nothing unless both positions
      have tiles and the tiles differ; then a delete from the old tile's
      table and an insert into the new one's. */
  function MarkerMove(g: Geometry, p: Point, np: Point, id: nat, h: nat, M: seq<seq<Slot>>): (M': seq<seq<Slot>>)
    requires IsView(g, M) && NotBeforeGrid(g, p) && NotBeforeGrid(g, np)
    ensures IsView(g, M')
  {
    var o, n := TileWithPos(g, p), TileWithPos(g, np);
    if o.None? || n.None? || o == n then M
    else MarkerEnter(g, np, id, h, MarkerLeave(g, p, id, M))
  }

  /** The snapshot of the watchers table of the position's tile. */
  function WatchersAt(g: Geometry, p: Point, W: seq<seq<Slot>>): seq<int>
    requires IsView(g, W) && NotBeforeGrid(g, p)
  {
    TileOfPos(g, p);
    match TileWithPos(g, p)
    case None => []
    case Some(t) => LiveIds(W[t])
  }

  // ---------------------------------------------------------------------
  // Markers: the operations on a Map

  /** add_marker: insert the object into the markers table of its tile and
      snapshot that tile's watchers; -1 when the position is past the grid. */
  method AddMarker(m: Map, h: nat, obj: Entity) returns (status: int, watchers: seq<int>)
    requires m.Valid() && NotBeforeGrid(m.geo, obj.cur)
    modifies m, m.tables
    ensures m.Valid() && IsView(m.geo, old(m.markerSlots))
    ensures m.markerSlots == MarkerEnter(m.geo, obj.cur, obj.id, h, old(m.markerSlots))
    ensures m.watcherSlots == old(m.watcherSlots)
    ensures status == if TileWithPos(m.geo, obj.cur).None? then -1 else 0
    ensures watchers == WatchersAt(m.geo, obj.cur, m.watcherSlots)
  {
    m.ViewsNoChains();
    TileOfPos(m.geo, obj.cur);
    var tl := TileWithPos(m.geo, obj.cur);
    if tl.None? {
      return -1, [];
    }
    var t := tl.value;
    m.InsertMarker(t, obj.id, h);
    watchers := m.SnapshotWatchers(t);
    status := 0;
  }

  /** remove_marker: delete the object from the markers table of its tile
      and snapshot that tile's watchers. */
  method RemoveMarker(m: Map, obj: Entity) returns (status: int, watchers: seq<int>)
    requires m.Valid() && NotBeforeGrid(m.geo, obj.cur)
    modifies m, m.tables
    ensures m.Valid() && IsView(m.geo, old(m.markerSlots))
    ensures m.markerSlots == MarkerLeave(m.geo, obj.cur, obj.id, old(m.markerSlots))
    ensures m.watcherSlots == old(m.watcherSlots)
    ensures status == if TileWithPos(m.geo, obj.cur).None? then -1 else 0
    ensures watchers == WatchersAt(m.geo, obj.cur, m.watcherSlots)
  {
    m.ViewsNoChains();
    TileOfPos(m.geo, obj.cur);
    var tl := TileWithPos(m.geo, obj.cur);
    if tl.None? {
      return -1, [];
    }
    var t := tl.value;
    m.DeleteMarker(t, obj.id);
    watchers := m.SnapshotWatchers(t);
    status := 0;
  }

  /** The table work of update_marker between two different tiles: delete
      from the old tile's markers table, snapshot its watchers, insert into
      the new tile's markers table, snapshot its watchers. */
  method MoveMarker(m: Map, o: int, n: int, id: nat, h: nat)
    returns (oldWatchers: seq<int>, newWatchers: seq<int>)
    requires m.Valid() && 0 <= o < m.tiles.Length && 0 <= n < m.tiles.Length && o != n
    modifies m, m.tables
    ensures m.Valid()
    ensures m.markerSlots ==
      old(m.markerSlots)[o := DeleteSlots(old(m.markerSlots)[o], id)][n := InsertSlots(old(m.markerSlots)[n], id, h)]
    ensures m.watcherSlots == old(m.watcherSlots)
    ensures oldWatchers == LiveIds(m.watcherSlots[o]) && newWatchers == LiveIds(m.watcherSlots[n])
  {
    ghost var M0, W0 := m.markerSlots, m.watcherSlots;
    m.DeleteMarker(o, id);
    ghost var M1 := m.markerSlots;
    assert M1 == M0[o := DeleteSlots(M0[o], id)];
    oldWatchers := m.SnapshotWatchers(o);
    m.InsertMarker(n, id, h);
    assert M1[n] == M0[n];
    assert m.markerSlots == M1[n := InsertSlots(M0[n], id, h)];
    newWatchers := m.SnapshotWatchers(n);
  }

  /** The two watchers snapshots update_marker hands back: the watchers of
      the old tile and of the new one, or none when either position has no
      tile or both lie on the same tile. */
  function MarkerMoveSnaps(g: Geometry, p: Point, np: Point, W: seq<seq<Slot>>): (seq<int>, seq<int>)
    requires IsView(g, W) && NotBeforeGrid(g, p) && NotBeforeGrid(g, np)
  {
    var o, n := TileWithPos(g, p), TileWithPos(g, np);
    if o.None? || n.None? || o == n then ([], []) else (WatchersAt(g, p, W), WatchersAt(g, np, W))
  }

  /** update_marker: the object leaves the markers table of its old tile
      and enters that of its new tile, and the watchers of both tiles are
      snapshot (old tile first). The new position is written into the
      object before the new tile is checked, so it sticks even when that
      check fails; moving within one tile changes no table. */
  method UpdateMarker(m: Map, h: nat, obj: Entity, np: Point)
    returns (status: int, obj': Entity, oldWatchers: seq<int>, newWatchers: seq<int>)
    requires m.Valid() && NotBeforeGrid(m.geo, obj.cur) && NotBeforeGrid(m.geo, np)
    modifies m, m.tables
    ensures m.Valid() && IsView(m.geo, old(m.markerSlots))
    ensures m.markerSlots == MarkerMove(m.geo, obj.cur, np, obj.id, h, old(m.markerSlots))
    ensures m.watcherSlots == old(m.watcherSlots)
    ensures obj' == if TileWithPos(m.geo, obj.cur).None? then obj else obj.(cur := np)
    ensures status == if TileWithPos(m.geo, obj.cur).None? || TileWithPos(m.geo, np).None? then -1 else 0
    ensures (oldWatchers, newWatchers) == MarkerMoveSnaps(m.geo, obj.cur, np, old(m.watcherSlots))
  {
    m.ViewsNoChains();
    TileOfPos(m.geo, obj.cur);
    TileOfPos(m.geo, np);
    ghost var M0, W0 := m.markerSlots, m.watcherSlots;
    var otl := TileWithPos(m.geo, obj.cur);
    if otl.None? {
      assert MarkerMove(m.geo, obj.cur, np, obj.id, h, M0) == M0;
      return -1, obj, [], [];
    }
    obj' := obj.(cur := np);
    var ntl := TileWithPos(m.geo, obj'.cur);
    if ntl.None? || otl == ntl {
      assert MarkerMove(m.geo, obj.cur, np, obj.id, h, M0) == M0;
      status := if ntl.None? then -1 else 0;
      return status, obj', [], [];
    }
    oldWatchers, newWatchers := MoveMarker(m, otl.value, ntl.value, obj.id, h);
    assert m.markerSlots == MarkerMove(m.geo, obj.cur, np, obj.id, h, M0);
    status := 0;
  }

  // ---------------------------------------------------------------------
  // Markers: properties

  /** add_marker stores the object in its tile's markers table when the
      table's main slot for it is free (InsertOutcome), and no other table
      changes. */
  lemma MarkerEnterEntries(g: Geometry, p: Point, id: nat, h: nat, M: seq<seq<Slot>>, k: int)
    requires IsView(g, M) && NotBeforeGrid(g, p) && 0 <= k < |M|
    ensures Entries(MarkerEnter(g, p, id, h, M)[k]) ==
      if TileWithPos(g, p) == Some(k) then InsertOutcome(M[k], id, h) else Entries(M[k])
  {
    if TileWithPos(g, p) == Some(k) {
      InsertSlotsSpec(M[k], id, h);
    }
  }

  /** remove_marker takes the object out of its tile's markers table and
      out of no other. */
  lemma MarkerLeaveEntries(g: Geometry, p: Point, id: nat, M: seq<seq<Slot>>, k: int)
    requires IsView(g, M) && NotBeforeGrid(g, p) && 0 <= k < |M|
    ensures Entries(MarkerLeave(g, p, id, M)[k]) ==
      if TileWithPos(g, p) == Some(k) then Entries(M[k]) - {id} else Entries(M[k])
  {
    if TileWithPos(g, p) == Some(k) {
      DeleteSlotsSpec(M[k], id);
    }
  }

  /** Leaving undoes entering: a marker that enters at p and then leaves
      from p leaves every markers table with the entries it had, provided
      the id was not already in the tile's table. */
  lemma MarkerEnterLeave(g: Geometry, p: Point, id: nat, h: nat, M: seq<seq<Slot>>, k: int)
    requires IsView(g, M) && NotBeforeGrid(g, p) && 0 <= k < |M|
    requires TileWithPos(g, p) == Some(k) ==> id !in Entries(M[k])
    ensures Entries(MarkerLeave(g, p, id, MarkerEnter(g, p, id, h, M))[k]) == Entries(M[k])
  {
    var M1 := MarkerEnter(g, p, id, h, M);
    MarkerEnterEntries(g, p, id, h, M, k);
    MarkerLeaveEntries(g, p, id, M1, k);
    if TileWithPos(g, p) == Some(k) {
      MapAddRemove(Entries(M[k]), id, h);
    }
  }

  /** update_marker changes the markers tables exactly when both positions
      have tiles and the tiles differ. */
  lemma MarkerMoveChanges(g: Geometry, p: Point, np: Point, id: nat, h: nat, M: seq<seq<Slot>>)
    requires IsView(g, M) && NotBeforeGrid(g, p) && NotBeforeGrid(g, np)
    ensures var o, n := TileWithPos(g, p), TileWithPos(g, np);
      MarkerMove(g, p, np, id, h, M) != M <==> o.Some? && n.Some? && o != n
  {
    TileOfPos(g, p);
    TileOfPos(g, np);
    var o, n := TileWithPos(g, p), TileWithPos(g, np);
    if o.Some? && n.Some? && o != n {
      var t := n.value;
      var L := MarkerLeave(g, p, id, M);
      assert L[t] == M[t];
      assert MarkerMove(g, p, np, id, h, M)[t] == InsertSlots(M[t], id, h);
      InsertChangesSlots(M[t], id, h);
    }
  }

  /** Where update_marker moves the object: out of the old tile's markers
      table, into the new one's, and no other table changes. */
  lemma MarkerMoveEntries(g: Geometry, p: Point, np: Point, id: nat, h: nat, M: seq<seq<Slot>>, k: int)
    requires IsView(g, M) && NotBeforeGrid(g, p) && NotBeforeGrid(g, np) && 0 <= k < |M|
    ensures var o, n := TileWithPos(g, p), TileWithPos(g, np);
      Entries(MarkerMove(g, p, np, id, h, M)[k]) ==
        if o.None? || n.None? || o == n then Entries(M[k])
        else if o == Some(k) then Entries(M[k]) - {id}
        else if n == Some(k) then InsertOutcome(M[k], id, h)
        else Entries(M[k])
  {
    var o, n := TileWithPos(g, p), TileWithPos(g, np);
    if !(o.None? || n.None? || o == n) {
      MarkerLeaveEntries(g, p, id, M, k);
      MarkerEnterEntries(g, np, id, h, MarkerLeave(g, p, id, M), k);
    }
  }

  // ---------------------------------------------------------------------
  // Watchers: specification

  /** What the watcher loops do to a tile's watchers table: table_insert
      or table_delete of the object. */
  datatype Edit = Enter | Leave

  /** The slots of a watchers table after the edit. */
  function EditSlots(s: seq<Slot>, e: Edit, id: nat, h: nat): (r: seq<Slot>)
    requires NoChains(s)
    ensures NoChains(r)
  {
    match e
    case Enter => InsertSlotsSpec(s, id, h); InsertSlots(s, id, h)
    case Leave => DeleteSlotsSpec(s, id); DeleteSlots(s, id)
  }

  /** The entries of a watchers table after the edit. */
  ghost function EditOutcome(s: seq<Slot>, e: Edit, id: nat, h: nat): map<int, nat>
    requires NoChains(s)
  {
    match e
    case Enter => InsertOutcome(s, id, h)
    case Leave => Entries(s) - {id}
  }

  lemma EditSlotsEntries(s: seq<Slot>, e: Edit, id: nat, h: nat)
    requires NoChains(s)
    ensures Entries(EditSlots(s, e, id, h)) == EditOutcome(s, e, id, h)
  {
    match e
    case Enter => InsertSlotsSpec(s, id, h);
    case Leave => DeleteSlotsSpec(s, id);
  }

  /** Tile k belongs to window r and not to the skip window: the tiles the
      loops over r edit. */
  predicate Covers(g: Geometry, r: Rect, skip: Option<Rect>, k: int)
  {
    InRect(r, RowOf(g, k), ColOf(g, k)) && !Skipped(g, skip, k)
  }

  /** The watchers tables after the loops over window r, skipping `skip`,
      applied the edit to every tile they reached. */
  function WindowEdit(g: Geometry, r: Rect, skip: Option<Rect>, e: Edit, id: nat, h: nat,
                      W: seq<seq<Slot>>): (W': seq<seq<Slot>>)
    requires AllNoChains(W)
    ensures |W'| == |W| && AllNoChains(W')
  {
    seq(|W|, k requires 0 <= k < |W| => if Covers(g, r, skip, k) then EditSlots(W[k], e, id, h) else W[k])
  }

  /** add_watcher on the watchers tables: insert into every tile of the
      calc_rect window. */
  function WatcherEnter(g: Geometry, p: Point, range: int, id: nat, h: nat, W: seq<seq<Slot>>): (W': seq<seq<Slot>>)
    requires IsView(g, W) && NotBeforeGrid(g, p)
    ensures IsView(g, W')
  {
    match CalcRect(g, p, range)
    case None => W
    case Some(r) => WindowEdit(g, r, None, Enter, id, h, W)
  }

  /** remove_watcher on the watchers tables. */
  function WatcherLeave(g: Geometry, p: Point, range: int, id: nat, W: seq<seq<Slot>>): (W': seq<seq<Slot>>)
    requires IsView(g, W) && NotBeforeGrid(g, p)
    ensures IsView(g, W')
  {
    match CalcRect(g, p, range)
    case None => W
    case Some(r) => WindowEdit(g, r, None, Leave, id, 0, W)
  }

  /** The other edit. */
  function Opposite(e: Edit): Edit
  {
    if e == Enter then Leave else Enter
  }

  /** The loops of update_watcher on the watchers tables, once the object
      has changed tile: the first runs over the tiles of the new window
      that are not in the old one and applies `into`, the second over the
      tiles of the old window that are not in the new one and applies the
      opposite edit. Nothing changes when either position has no tile or
      both have the same one. */
  function WatcherShift(g: Geometry, p: Point, np: Point, range: int, id: nat, h: nat, into: Edit,
                        W: seq<seq<Slot>>): (W': seq<seq<Slot>>)
    requires IsView(g, W) && NotBeforeGrid(g, p) && NotBeforeGrid(g, np)
    ensures IsView(g, W')
  {
    var o, n := TileWithPos(g, p), TileWithPos(g, np);
    if o.None? || n.None? || o == n then W
    else
      CalcRectSpec(g, p, range);
      CalcRectSpec(g, np, range);
      var or, nr := CalcRect(g, p, range).value, CalcRect(g, np, range).value;
      WindowEdit(g, or, Some(nr), Opposite(into), id, h, WindowEdit(g, nr, Some(or), into, id, h, W))
  }

  /** update_watcher on the watchers tables, as written: its first loop
      DELETES the object from the tiles that come into the window, its
      second INSERTS it into the tiles that leave the window. */
  function WatcherMove(g: Geometry, p: Point, np: Point, range: int, id: nat, h: nat,
                       W: seq<seq<Slot>>): (W': seq<seq<Slot>>)
    requires IsView(g, W) && NotBeforeGrid(g, p) && NotBeforeGrid(g, np)
    ensures IsView(g, W')
  {
    WatcherShift(g, p, np, range, id, h, Leave, W)
  }

  /** update_watcher with its two edits the right way round: insert into
      the tiles that come into the window, delete from those that leave it. */
  function WatcherMoveIntended(g: Geometry, p: Point, np: Point, range: int, id: nat, h: nat,
                               W: seq<seq<Slot>>): (W': seq<seq<Slot>>)
    requires IsView(g, W) && NotBeforeGrid(g, p) && NotBeforeGrid(g, np)
    ensures IsView(g, W')
  {
    WatcherShift(g, p, np, range, id, h, Enter, W)
  }

  /** make_table of the markers table of tile k (empty for an index
      outside M). */
  function Snap(M: seq<seq<Slot>>, k: int): seq<int>
  {
    if 0 <= k < |M| then LiveIds(M[k]) else []
  }

  /** make_table of the markers table of each tile of ts, in order. */
  function Snaps(M: seq<seq<Slot>>, ts: seq<int>): (r: seq<seq<int>>)
    ensures |r| == |ts|
  {
    seq(|ts|, i requires 0 <= i < |ts| => Snap(M, ts[i]))
  }

  /** S holds, tile by tile, make_table of the markers tables M. */
  ghost predicate SnapsOf(S: seq<seq<int>>, M: seq<seq<Slot>>)
  {
    |S| == |M| && forall k {:trigger LiveIds(M[k])} :: 0 <= k < |M| ==> S[k] == LiveIds(M[k])
  }

  /** Entry k of S (empty for an index outside S). */
  function At(S: seq<seq<int>>, k: int): seq<int>
  {
    if 0 <= k < |S| then S[k] else []
  }

  /** The markers snapshots add_watcher takes: one per tile of its window,
      row by row. */
  function MarkersInWindow(g: Geometry, p: Point, range: int, M: seq<seq<Slot>>): seq<seq<int>>
    requires g.tileLen > 0
  {
    match CalcRect(g, p, range)
    case None => []
    case Some(r) => Snaps(M, RectTiles(g, r))
  }

  // ---------------------------------------------------------------------
  // Walking a window

  lemma SnapsSnoc(M: seq<seq<Slot>>, ts: seq<int>, k: int)
    ensures Snaps(M, ts + [k]) == Snaps(M, ts) + [Snap(M, k)]
  {
  }

  lemma SnapsAppend(M: seq<seq<Slot>>, a: seq<int>, b: seq<int>)
    ensures Snaps(M, a + b) == Snaps(M, a) + Snaps(M, b)
  {
  }

  /** The snapshots taken along a row grow by one for each tile kept. */
  lemma RowSnapsStep(S: seq<seq<int>>, M: seq<seq<Slot>>, g: Geometry, y: int, lo: int, x: int,
                     skip: Option<Rect>, prev: seq<seq<int>>, next: seq<seq<int>>)
    requires SnapsOf(S, M) && Wf(g) && 0 <= y <= g.maxY && 0 < x <= g.maxX + 1 && lo < x
    requires prev == Snaps(M, Kept(g, RowTiles(g, y, lo, x - 1), skip))
    requires next == if skip.Some? && InRect(skip.value, y, x - 1) then prev
                     else prev + [At(S, TileIndex(g, y, x - 1))]
    ensures next == Snaps(M, Kept(g, RowTiles(g, y, lo, x), skip))
  {
    RowStep(g, y, lo, x - 1, skip);
    if !(skip.Some? && InRect(skip.value, y, x - 1)) {
      SnapsSnoc(M, Kept(g, RowTiles(g, y, lo, x - 1), skip), TileIndex(g, y, x - 1));
    }
  }

  /** The markers snapshots the inner loop takes along row y, from column
      lo up to column x - 1: one per tile outside the skip window. */
  function RowSnaps(S: seq<seq<int>>, g: Geometry, y: int, lo: int, x: int, skip: Option<Rect>): seq<seq<int>>
    decreases x - lo
  {
    if x <= lo then []
    else RowSnaps(S, g, y, lo, x - 1, skip) +
         (if skip.Some? && InRect(skip.value, y, x - 1) then [] else [At(S, TileIndex(g, y, x - 1))])
  }

  /** The markers snapshots the loops over window r take in the rows below y. */
  function WindowSnaps(S: seq<seq<int>>, g: Geometry, r: Rect, y: int, skip: Option<Rect>): seq<seq<int>>
    decreases y - r.blY
  {
    if y <= r.blY then []
    else WindowSnaps(S, g, r, y - 1, skip) + RowSnaps(S, g, y - 1, r.blX, r.trX + 1, skip)
  }

  /** Along a row, the loop's snapshots are those of the row's tiles that
      are not skipped, in order. */
  lemma {:induction false} RowSnapsKept(S: seq<seq<int>>, M: seq<seq<Slot>>, g: Geometry, y: int, lo: int, x: int,
                                        skip: Option<Rect>)
    requires SnapsOf(S, M) && Wf(g) && 0 <= y <= g.maxY && 0 <= lo && x <= g.maxX + 1
    ensures RowSnaps(S, g, y, lo, x, skip) == Snaps(M, Kept(g, RowTiles(g, y, lo, x), skip))
    decreases x - lo
  {
    if x > lo {
      RowSnapsKept(S, M, g, y, lo, x - 1, skip);
      RowSnapsStep(S, M, g, y, lo, x, skip, RowSnaps(S, g, y, lo, x - 1, skip), RowSnaps(S, g, y, lo, x, skip));
    }
  }

  /** Over a window, the loops' snapshots are those of its tiles that are
      not skipped, in visiting order. */
  lemma {:induction false} WindowSnapsKept(S: seq<seq<int>>, M: seq<seq<Slot>>, g: Geometry, r: Rect, y: int,
                                           skip: Option<Rect>)
    requires SnapsOf(S, M) && Wf(g) && InsideGrid(g, r) && y <= r.trY + 1
    ensures WindowSnaps(S, g, r, y, skip) == Snaps(M, Kept(g, RowsTiles(g, r, y), skip))
    decreases y - r.blY
  {
    if y > r.blY {
      var prev, more := WindowSnaps(S, g, r, y - 1, skip), RowSnaps(S, g, y - 1, r.blX, r.trX + 1, skip);
      WindowSnapsKept(S, M, g, r, y - 1, skip);
      RowSnapsKept(S, M, g, y - 1, r.blX, r.trX + 1, skip);
      RowsSnapsStep(M, g, r, y, skip, prev, more);
      assert WindowSnaps(S, g, r, y, skip) == prev + more;
    }
  }

  /** Over the whole window, the loops' snapshots are those of the window's
      tiles that are not skipped, in visiting order. */
  lemma WindowSnapsRect(S: seq<seq<int>>, M: seq<seq<Slot>>, g: Geometry, r: Rect, skip: Option<Rect>)
    requires SnapsOf(S, M) && Wf(g) && InsideGrid(g, r)
    ensures WindowSnaps(S, g, r, Max(r.blY, r.trY + 1), skip) == Snaps(M, Kept(g, RectTiles(g, r), skip))
  {
    WindowSnapsKept(S, M, g, r, r.trY + 1, skip);
  }

  /** The snapshots taken over the first rows grow by those of the next row. */
  lemma RowsSnapsStep(M: seq<seq<Slot>>, g: Geometry, r: Rect, y: int, skip: Option<Rect>,
                      prev: seq<seq<int>>, more: seq<seq<int>>)
    requires y > r.blY
    requires prev == Snaps(M, Kept(g, RowsTiles(g, r, y - 1), skip))
    requires more == Snaps(M, Kept(g, RowTiles(g, y - 1, r.blX, r.trX + 1), skip))
    ensures prev + more == Snaps(M, Kept(g, RowsTiles(g, r, y), skip))
  {
    var a, b := RowsTiles(g, r, y - 1), RowTiles(g, y - 1, r.blX, r.trX + 1);
    assert RowsTiles(g, r, y) == a + b;
    KeptAppend(g, a, b, skip);
    SnapsAppend(M, Kept(g, a, skip), Kept(g, b, skip));
  }

  /** Tile k lies in a row of window r below row y, and is not skipped. */
  predicate RowsDone(g: Geometry, r: Rect, y: int, skip: Option<Rect>, k: int)
  {
    r.blY <= RowOf(g, k) < y && r.blX <= ColOf(g, k) <= r.trX && !Skipped(g, skip, k)
  }

  /** Tile k lies in row y at a column in lo .. x-1, and is not skipped
      (stated on the index, which runs along the row). */
  predicate RowDone(g: Geometry, y: int, lo: int, x: int, skip: Option<Rect>, k: int)
  {
    var base := y * (g.maxX + 1);
    base + lo <= k < base + x && !(skip.Some? && InRect(skip.value, y, k - base))
  }

  /** The watchers tables W when the walk over window r reaches tile
      (y, x): every tile already passed holds its edited table from W1,
      every other tile its table from W0. */
  ghost predicate Walked(g: Geometry, r: Rect, skip: Option<Rect>, y: int, x: int,
                         W0: seq<seq<Slot>>, W1: seq<seq<Slot>>, W: seq<seq<Slot>>)
  {
    |W0| == |W| && |W1| == |W| &&
    forall k :: 0 <= k < |W| ==>
      W[k] == if RowsDone(g, r, y, skip, k) || RowDone(g, y, r.blX, x, skip, k) then W1[k] else W0[k]
  }

  /** W1 holds, tile by tile, what the edit makes of the watchers tables W0. */
  ghost predicate Targets(W0: seq<seq<Slot>>, W1: seq<seq<Slot>>, e: Edit, id: nat, h: nat)
  {
    |W1| == |W0| &&
    forall k :: 0 <= k < |W0| ==> NoChains(W0[k]) && W1[k] == EditSlots(W0[k], e, id, h)
  }

  /** Editing tile (y, x) advances the walk by one tile. */
  lemma EditedStep(g: Geometry, r: Rect, skip: Option<Rect>, y: int, x: int,
                   W0: seq<seq<Slot>>, W1: seq<seq<Slot>>, W: seq<seq<Slot>>)
    requires Wf(g) && InsideGrid(g, r) && r.blY <= y <= r.trY && r.blX <= x <= r.trX
    requires Walked(g, r, skip, y, x, W0, W1, W) && |W| == g.tileSz
    requires !(skip.Some? && InRect(skip.value, y, x))
    ensures 0 <= TileIndex(g, y, x) < |W| && W[TileIndex(g, y, x)] == W0[TileIndex(g, y, x)]
    ensures Walked(g, r, skip, y, x + 1, W0, W1, W[TileIndex(g, y, x) := W1[TileIndex(g, y, x)]])
  {
    TileWithRCSpec(g, y, x);
    var k := TileIndex(g, y, x);
    assert k - y * (g.maxX + 1) == x;
    assert !RowsDone(g, r, y, skip, k) && !RowDone(g, y, r.blX, x, skip, k);
    forall j | 0 <= j < |W| && j != k
      ensures RowDone(g, y, r.blX, x + 1, skip, j) == RowDone(g, y, r.blX, x, skip, j)
    {
    }
  }

  /** Passing a skipped tile changes nothing. */
  lemma SkippedStep(g: Geometry, r: Rect, skip: Option<Rect>, y: int, x: int,
                    W0: seq<seq<Slot>>, W1: seq<seq<Slot>>, W: seq<seq<Slot>>)
    requires Walked(g, r, skip, y, x, W0, W1, W)
    requires skip.Some? && InRect(skip.value, y, x)
    ensures Walked(g, r, skip, y, x + 1, W0, W1, W)
  {
    assert forall k :: RowDone(g, y, r.blX, x + 1, skip, k) == RowDone(g, y, r.blX, x, skip, k);
  }

  /** Finishing row y is starting row y + 1. */
  lemma NextRow(g: Geometry, r: Rect, skip: Option<Rect>, y: int,
                W0: seq<seq<Slot>>, W1: seq<seq<Slot>>, W: seq<seq<Slot>>)
    requires Wf(g) && InsideGrid(g, r) && r.blY <= y <= r.trY && |W| == g.tileSz
    requires Walked(g, r, skip, y, r.trX + 1, W0, W1, W)
    ensures Walked(g, r, skip, y + 1, r.blX, W0, W1, W)
  {
    forall k | 0 <= k < |W|
      ensures W[k] == if RowsDone(g, r, y + 1, skip, k) || RowDone(g, y + 1, r.blX, r.blX, skip, k)
                      then W1[k] else W0[k]
    {
      RowSpan(g, y, r.blX, r.trX + 1, k);
      assert !RowDone(g, y + 1, r.blX, r.blX, skip, k);
      assert RowsDone(g, r, y + 1, skip, k) <==>
             RowsDone(g, r, y, skip, k) || RowDone(g, y, r.blX, r.trX + 1, skip, k);
    }
  }

  /** The state of the walk in the map: no markers table has changed and
      the watchers tables are Walked. */
  ghost predicate WalkState(m: Map, M0: seq<seq<Slot>>, W0: seq<seq<Slot>>, W1: seq<seq<Slot>>,
                            r: Rect, y: int, x: int, skip: Option<Rect>)
    reads m, m.tiles, m.tables
  {
    m.Valid() && m.markerSlots == M0 && Walked(m.geo, r, skip, y, x, W0, W1, m.watcherSlots)
  }

  /** One step of the inner loop: a tile inside `skip` is passed over
      (`continue`); any other has its watchers table edited and its
      markers table snapshot. */
  method EditTile(m: Map, ghost S: seq<seq<int>>, ghost M0: seq<seq<Slot>>, ghost W0: seq<seq<Slot>>, ghost W1: seq<seq<Slot>>,
                  e: Edit, id: nat, h: nat, r: Rect, y: int, x: int, skip: Option<Rect>)
    returns (snap: seq<int>)
    requires WalkState(m, M0, W0, W1, r, y, x, skip) && Targets(W0, W1, e, id, h) && SnapsOf(S, M0)
    requires InsideGrid(m.geo, r) && r.blY <= y <= r.trY && r.blX <= x <= r.trX
    modifies m, m.tables
    ensures WalkState(m, M0, W0, W1, r, y, x + 1, skip)
    ensures !(skip.Some? && InRect(skip.value, y, x)) ==> snap == At(S, TileIndex(m.geo, y, x))
  {
    var g := m.geo;
    if skip.Some? && InRect(skip.value, y, x) {
      SkippedStep(g, r, skip, y, x, W0, W1, m.watcherSlots);
      return [];
    }
    TileWithRCSpec(g, y, x);
    var tl := TileWithRC(g, y, x);
    if tl.None? {
      // calc_rect clamps the window into the grid.
      assert false;
      return;
    }
    ghost var W := m.watcherSlots;
    EditedStep(g, r, skip, y, x, W0, W1, W);
    var k := tl.value;
    if e == Enter {
      m.InsertWatcher(k, id, h);
      assert W1[k] == InsertSlots(W[k], id, h);
    } else {
      m.DeleteWatcher(k, id);
      assert W1[k] == DeleteSlots(W[k], id);
    }
    assert m.watcherSlots == W[k := W1[k]];
    snap := m.SnapshotMarkers(k);
  }

  /** The inner loop of the watcher loops: tiles (y, r.blX) .. (y, r.trX),
      left to right. */
  method EditRow(m: Map, ghost S: seq<seq<int>>, ghost M0: seq<seq<Slot>>, ghost W0: seq<seq<Slot>>, ghost W1: seq<seq<Slot>>,
                 e: Edit, id: nat, h: nat, r: Rect, y: int, skip: Option<Rect>)
    returns (snaps: seq<seq<int>>)
    requires WalkState(m, M0, W0, W1, r, y, r.blX, skip) && Targets(W0, W1, e, id, h) && SnapsOf(S, M0)
    requires InsideGrid(m.geo, r) && r.blY <= y <= r.trY
    modifies m, m.tables
    ensures WalkState(m, M0, W0, W1, r, y, r.trX + 1, skip)
    ensures snaps == RowSnaps(S, m.geo, y, r.blX, r.trX + 1, skip)
  {
    snaps := [];
    var x := r.blX;
    while x <= r.trX
      invariant r.blX <= x && (x <= r.trX + 1 || x == r.blX)
      invariant WalkState(m, M0, W0, W1, r, y, x, skip)
      invariant snaps == RowSnaps(S, m.geo, y, r.blX, x, skip)
    {
      var snap := EditTile(m, S, M0, W0, W1, e, id, h, r, y, x, skip);
      if !(skip.Some? && InRect(skip.value, y, x)) {
        snaps := snaps + [snap];
      }
      x := x + 1;
    }
  }

  /** Every watchers table edited. */
  ghost function EditAll(W0: seq<seq<Slot>>, e: Edit, id: nat, h: nat): (W1: seq<seq<Slot>>)
    requires AllNoChains(W0)
    ensures Targets(W0, W1, e, id, h)
  {
    seq(|W0|, k requires 0 <= k < |W0| => EditSlots(W0[k], e, id, h))
  }

  /** A walk past the last row of window r has applied exactly WindowEdit. */
  lemma WalkDone(g: Geometry, r: Rect, skip: Option<Rect>, e: Edit, id: nat, h: nat,
                 W0: seq<seq<Slot>>, W1: seq<seq<Slot>>, W: seq<seq<Slot>>)
    requires Targets(W0, W1, e, id, h) && InsideGrid(g, r)
    requires Walked(g, r, skip, Max(r.blY, r.trY + 1), r.blX, W0, W1, W)
    ensures W == WindowEdit(g, r, skip, e, id, h, W0)
  {
    assert forall k :: RowsDone(g, r, Max(r.blY, r.trY + 1), skip, k) == Covers(g, r, skip, k);
  }

  /** One step of the outer loop: row y is walked and its snapshots are
      appended to those of the rows below. */
  method EditNextRow(m: Map, ghost S: seq<seq<int>>, ghost M0: seq<seq<Slot>>, ghost W0: seq<seq<Slot>>, ghost W1: seq<seq<Slot>>,
                     e: Edit, id: nat, h: nat, r: Rect, y: int, skip: Option<Rect>, snaps: seq<seq<int>>)
    returns (snaps': seq<seq<int>>)
    requires WalkState(m, M0, W0, W1, r, y, r.blX, skip) && Targets(W0, W1, e, id, h) && SnapsOf(S, M0)
    requires InsideGrid(m.geo, r) && r.blY <= y <= r.trY
    requires snaps == WindowSnaps(S, m.geo, r, y, skip)
    modifies m, m.tables
    ensures WalkState(m, M0, W0, W1, r, y + 1, r.blX, skip)
    ensures snaps' == WindowSnaps(S, m.geo, r, y + 1, skip)
  {
    var more := EditRow(m, S, M0, W0, W1, e, id, h, r, y, skip);
    NextRow(m.geo, r, skip, y, W0, W1, m.watcherSlots);
    snaps' := snaps + more;
  }

  /** The outer loop of the watcher loops: rows r.blY .. r.trY, bottom to
      top. It ends past the last row, or where it started when the window
      has no rows. */
  method EditRows(m: Map, ghost S: seq<seq<int>>, ghost M0: seq<seq<Slot>>, ghost W0: seq<seq<Slot>>, ghost W1: seq<seq<Slot>>,
                  e: Edit, id: nat, h: nat, r: Rect, skip: Option<Rect>)
    returns (snaps: seq<seq<int>>)
    requires WalkState(m, M0, W0, W1, r, r.blY, r.blX, skip) && Targets(W0, W1, e, id, h) && SnapsOf(S, M0)
    requires InsideGrid(m.geo, r)
    modifies m, m.tables
    ensures WalkState(m, M0, W0, W1, r, Max(r.blY, r.trY + 1), r.blX, skip)
    ensures snaps == WindowSnaps(S, m.geo, r, Max(r.blY, r.trY + 1), skip)
  {
    snaps := [];
    var y := r.blY;
    while y <= r.trY
      invariant r.blY <= y <= Max(r.blY, r.trY + 1)
      invariant WalkState(m, M0, W0, W1, r, y, r.blX, skip) && snaps == WindowSnaps(S, m.geo, r, y, skip)
    {
      snaps := EditNextRow(m, S, M0, W0, W1, e, id, h, r, y, skip, snaps);
      y := y + 1;
    }
  }

  /** The watcher loops of add_watcher, remove_watcher and update_watcher:
      rows r.blY .. r.trY bottom to top, each left to right, skipping the
      tiles inside `skip`. Every tile reached has its watchers table edited
      and its markers table snapshot, in that order of visit; nothing else
      changes. */
  method EditWindow(m: Map, e: Edit, id: nat, h: nat, r: Rect, skip: Option<Rect>)
    returns (snaps: seq<seq<int>>)
    requires m.Valid() && InsideGrid(m.geo, r)
    modifies m, m.tables
    ensures m.Valid() && m.markerSlots == old(m.markerSlots)
    ensures m.watcherSlots == WindowEdit(m.geo, r, skip, e, id, h, old(m.watcherSlots))
    ensures snaps == Snaps(old(m.markerSlots), Kept(m.geo, RectTiles(m.geo, r), skip))
  {
    m.ViewsNoChains();
    ghost var M0, W0 := m.markerSlots, m.watcherSlots;
    ghost var W1 := EditAll(W0, e, id, h);
    ghost var S := seq(|M0|, k requires 0 <= k < |M0| => LiveIds(M0[k]));
    snaps := EditRows(m, S, M0, W0, W1, e, id, h, r, skip);
    WalkDone(m.geo, r, skip, e, id, h, W0, W1, m.watcherSlots);
    WindowSnapsRect(S, M0, m.geo, r, skip);
  }

  // ---------------------------------------------------------------------
  // Watchers: the operations on a Map

  /** add_watcher: insert the object into the watchers table of every tile
      of its window, snapshotting each tile's markers; -1 when the position
      has no tile. */
  method AddWatcher(m: Map, h: nat, obj: Entity) returns (status: int, markers: seq<seq<int>>)
    requires m.Valid() && NotBeforeGrid(m.geo, obj.cur)
    modifies m, m.tables
    ensures m.Valid() && IsView(m.geo, old(m.watcherSlots))
    ensures m.markerSlots == old(m.markerSlots)
    ensures m.watcherSlots == WatcherEnter(m.geo, obj.cur, obj.range, obj.id, h, old(m.watcherSlots))
    ensures status == if TileWithPos(m.geo, obj.cur).None? then -1 else 0
    ensures markers == MarkersInWindow(m.geo, obj.cur, obj.range, m.markerSlots)
  {
    CalcRectSpec(m.geo, obj.cur, obj.range);
    var rect := CalcRect(m.geo, obj.cur, obj.range);
    if rect.None? {
      return -1, [];
    }
    KeptAll(m.geo, RectTiles(m.geo, rect.value));
    markers := EditWindow(m, Enter, obj.id, h, rect.value, None);
    status := 0;
  }

  /** remove_watcher: delete the object from the watchers table of every
      tile of its window; it takes no snapshot. */
  method RemoveWatcher(m: Map, obj: Entity) returns (status: int)
    requires m.Valid() && NotBeforeGrid(m.geo, obj.cur)
    modifies m, m.tables
    ensures m.Valid() && IsView(m.geo, old(m.watcherSlots))
    ensures m.markerSlots == old(m.markerSlots)
    ensures m.watcherSlots == WatcherLeave(m.geo, obj.cur, obj.range, obj.id, old(m.watcherSlots))
    ensures status == if TileWithPos(m.geo, obj.cur).None? then -1 else 0
  {
    CalcRectSpec(m.geo, obj.cur, obj.range);
    var rect := CalcRect(m.geo, obj.cur, obj.range);
    if rect.None? {
      return -1;
    }
    var _ := EditWindow(m, Leave, obj.id, 0, rect.value, None);
    status := 0;
  }

  /** The two markers snapshots update_watcher hands back: those of the
      tiles only in the new window and those of the tiles only in the old
      one, or none when either position has no tile or both lie on the
      same tile. */
  function WatcherMoveSnaps(g: Geometry, p: Point, np: Point, range: int, M: seq<seq<Slot>>)
    : (seq<seq<int>>, seq<seq<int>>)
    requires g.tileLen > 0
  {
    var o, n := TileWithPos(g, p), TileWithPos(g, np);
    if o.None? || n.None? || o == n then ([], [])
    else match (CalcRect(g, p, range), CalcRect(g, np, range))
      case (Some(or), Some(nr)) =>
        (Snaps(M, Kept(g, RectTiles(g, nr), Some(or))), Snaps(M, Kept(g, RectTiles(g, or), Some(nr))))
      case _ => ([], [])
  }

  /** update_watcher. The new position is written into the object before
      the new tile is checked, so it sticks even when that check fails.
      The first loop's snapshots cover the tiles that come into the
      window, the second's those that leave it. `into` is the edit of the
      first loop: Leave as written (WatcherMove), Enter as intended
      (WatcherMoveIntended). */
  method UpdateWatcher(m: Map, h: nat, obj: Entity, np: Point, into: Edit)
    returns (status: int, obj': Entity, newOnly: seq<seq<int>>, oldOnly: seq<seq<int>>)
    requires m.Valid() && NotBeforeGrid(m.geo, obj.cur) && NotBeforeGrid(m.geo, np)
    modifies m, m.tables
    ensures m.Valid() && IsView(m.geo, old(m.watcherSlots))
    ensures m.markerSlots == old(m.markerSlots)
    ensures m.watcherSlots == WatcherShift(m.geo, obj.cur, np, obj.range, obj.id, h, into, old(m.watcherSlots))
    ensures obj' == if TileWithPos(m.geo, obj.cur).None? then obj else obj.(cur := np)
    ensures status == if TileWithPos(m.geo, obj.cur).None? || TileWithPos(m.geo, np).None? then -1 else 0
    ensures (newOnly, oldOnly) == WatcherMoveSnaps(m.geo, obj.cur, np, obj.range, m.markerSlots)
  {
    var g := m.geo;
    TileOfPos(g, obj.cur);
    TileOfPos(g, np);
    CalcRectSpec(g, obj.cur, obj.range);
    CalcRectSpec(g, np, obj.range);
    var op := obj.cur;
    var otl := TileWithPos(g, obj.cur);
    if otl.None? {
      return -1, obj, [], [];
    }
    obj' := obj.(cur := np);
    var ntl := TileWithPos(g, obj'.cur);
    if ntl.None? {
      return -1, obj', [], [];
    }
    if otl == ntl {
      return 0, obj', [], [];
    }
    var orect := CalcRect(g, op, obj.range);
    if orect.None? {
      // The old position has a tile, so calc_rect succeeds.
      assert false;
      return;
    }
    var nrect := CalcRect(g, obj'.cur, obj.range);
    if nrect.None? {
      assert false;
      return;
    }
    var or, nr := orect.value, nrect.value;
    newOnly := EditWindow(m, into, obj.id, h, nr, Some(or));
    oldOnly := EditWindow(m, Opposite(into), obj.id, h, or, Some(nr));
    status := 0;
  }

  // ---------------------------------------------------------------------
  // Watchers: properties

  /** A window edit applies the edit to the tables of the covered tiles
      and leaves every other table as it was. */
  lemma WindowEditEntries(g: Geometry, r: Rect, skip: Option<Rect>, e: Edit, id: nat, h: nat,
                          W: seq<seq<Slot>>, k: int)
    requires AllNoChains(W) && 0 <= k < |W|
    ensures Entries(WindowEdit(g, r, skip, e, id, h, W)[k]) ==
      if Covers(g, r, skip, k) then EditOutcome(W[k], e, id, h) else Entries(W[k])
  {
    if Covers(g, r, skip, k) {
      EditSlotsEntries(W[k], e, id, h);
    }
  }

  /** add_watcher inserts the object into the watchers table of exactly
      the tiles of its window (each insert stored when the table's main
      slot for it is free). */
  lemma WatcherEnterEntries(g: Geometry, p: Point, range: int, id: nat, h: nat, W: seq<seq<Slot>>, k: int)
    requires IsView(g, W) && NotBeforeGrid(g, p) && 0 <= k < |W|
    ensures var r := CalcRect(g, p, range);
      Entries(WatcherEnter(g, p, range, id, h, W)[k]) ==
        if r.Some? && InRect(r.value, RowOf(g, k), ColOf(g, k)) then InsertOutcome(W[k], id, h)
        else Entries(W[k])
  {
    if CalcRect(g, p, range).Some? {
      WindowEditEntries(g, CalcRect(g, p, range).value, None, Enter, id, h, W, k);
    }
  }

  /** remove_watcher deletes the object from exactly the tiles of its window. */
  lemma WatcherLeaveEntries(g: Geometry, p: Point, range: int, id: nat, W: seq<seq<Slot>>, k: int)
    requires IsView(g, W) && NotBeforeGrid(g, p) && 0 <= k < |W|
    ensures var r := CalcRect(g, p, range);
      Entries(WatcherLeave(g, p, range, id, W)[k]) ==
        if r.Some? && InRect(r.value, RowOf(g, k), ColOf(g, k)) then Entries(W[k]) - {id}
        else Entries(W[k])
  {
    if CalcRect(g, p, range).Some? {
      WindowEditEntries(g, CalcRect(g, p, range).value, None, Leave, id, 0, W, k);
    }
  }

  /** Leaving undoes entering: a watcher that enters at p and leaves from
      p leaves every watchers table with the entries it had, provided its
      id was in none of them. */
  lemma WatcherEnterLeave(g: Geometry, p: Point, range: int, id: nat, h: nat, W: seq<seq<Slot>>, k: int)
    requires IsView(g, W) && NotBeforeGrid(g, p) && 0 <= k < |W| && id !in Entries(W[k])
    ensures Entries(WatcherLeave(g, p, range, id, WatcherEnter(g, p, range, id, h, W))[k]) == Entries(W[k])
  {
    var W1 := WatcherEnter(g, p, range, id, h, W);
    WatcherEnterEntries(g, p, range, id, h, W, k);
    WatcherLeaveEntries(g, p, range, id, W1, k);
    var r := CalcRect(g, p, range);
    if r.Some? && InRect(r.value, RowOf(g, k), ColOf(g, k)) {
      MapAddRemove(Entries(W[k]), id, h);
    }
  }

  /** Tile k lies in window r. */
  predicate InWindow(g: Geometry, r: Rect, k: int)
  {
    InRect(r, RowOf(g, k), ColOf(g, k))
  }

  /** The watcher id is registered in the watchers table of exactly the
      tiles of window r. */
  ghost predicate Registered(g: Geometry, W: seq<seq<Slot>>, id: nat, r: Rect)
    requires AllNoChains(W)
  {
    forall k :: 0 <= k < |W| ==> (id in Entries(W[k]) <==> InWindow(g, r, k))
  }

  /** The main slot for id in table s is free, so an insert stores it. */
  predicate MainFree(s: seq<Slot>, id: nat)
  {
    |s| > 0 && s[id % |s|].obj.Null?
  }

  /** What update_watcher, as written, does to the watchers table of each
      tile once the object changes tile: a tile that comes into the window
      loses the object, a tile that leaves the window gets it inserted, and
      every other table keeps its entries. */
  lemma WatcherMoveEntries(g: Geometry, p: Point, np: Point, range: int, id: nat, h: nat,
                           W: seq<seq<Slot>>, k: int)
    requires IsView(g, W) && NotBeforeGrid(g, p) && NotBeforeGrid(g, np) && 0 <= k < |W|
    requires TileWithPos(g, p).Some? && TileWithPos(g, np).Some? && TileWithPos(g, p) != TileWithPos(g, np)
    ensures CalcRect(g, p, range).Some? && CalcRect(g, np, range).Some?
    ensures var or, nr := CalcRect(g, p, range).value, CalcRect(g, np, range).value;
      Entries(WatcherMove(g, p, np, range, id, h, W)[k]) ==
        if InWindow(g, nr, k) && !InWindow(g, or, k) then Entries(W[k]) - {id}
        else if InWindow(g, or, k) && !InWindow(g, nr, k) then InsertOutcome(W[k], id, h)
        else Entries(W[k])
  {
    CalcRectSpec(g, p, range);
    CalcRectSpec(g, np, range);
    var or, nr := CalcRect(g, p, range).value, CalcRect(g, np, range).value;
    var W1 := WindowEdit(g, nr, Some(or), Leave, id, h, W);
    WindowEditEntries(g, nr, Some(or), Leave, id, h, W, k);
    WindowEditEntries(g, or, Some(nr), Enter, id, h, W1, k);
  }

  /** What the intended update_watcher does to each watchers table: a tile
      that comes into the window gets the object inserted, a tile that
      leaves the window loses it, every other table keeps its entries. */
  lemma WatcherMoveIntendedEntries(g: Geometry, p: Point, np: Point, range: int, id: nat, h: nat,
                                   W: seq<seq<Slot>>, k: int)
    requires IsView(g, W) && NotBeforeGrid(g, p) && NotBeforeGrid(g, np) && 0 <= k < |W|
    requires TileWithPos(g, p).Some? && TileWithPos(g, np).Some? && TileWithPos(g, p) != TileWithPos(g, np)
    ensures CalcRect(g, p, range).Some? && CalcRect(g, np, range).Some?
    ensures var or, nr := CalcRect(g, p, range).value, CalcRect(g, np, range).value;
      Entries(WatcherMoveIntended(g, p, np, range, id, h, W)[k]) ==
        if InWindow(g, nr, k) && !InWindow(g, or, k) then InsertOutcome(W[k], id, h)
        else if InWindow(g, or, k) && !InWindow(g, nr, k) then Entries(W[k]) - {id}
        else Entries(W[k])
  {
    CalcRectSpec(g, p, range);
    CalcRectSpec(g, np, range);
    var or, nr := CalcRect(g, p, range).value, CalcRect(g, np, range).value;
    var W1 := WindowEdit(g, nr, Some(or), Enter, id, h, W);
    WindowEditEntries(g, nr, Some(or), Enter, id, h, W, k);
    WindowEditEntries(g, or, Some(nr), Leave, id, h, W1, k);
  }

  /** The intended update_watcher keeps a watcher registered on exactly its
      window: registered on the old window before, on the new one after,
      provided no table coming into the window has its main slot for the
      id taken by another object. */
  lemma WatcherMoveIntendedFollows(g: Geometry, p: Point, np: Point, range: int, id: nat, h: nat,
                                   W: seq<seq<Slot>>)
    requires IsView(g, W) && NotBeforeGrid(g, p) && NotBeforeGrid(g, np)
    requires TileWithPos(g, p).Some? && TileWithPos(g, np).Some? && TileWithPos(g, p) != TileWithPos(g, np)
    requires CalcRect(g, p, range).Some? && CalcRect(g, np, range).Some?
    requires Registered(g, W, id, CalcRect(g, p, range).value)
    requires forall k :: 0 <= k < |W| && InWindow(g, CalcRect(g, np, range).value, k) ==> MainFree(W[k], id) || id in Entries(W[k])
    ensures Registered(g, WatcherMoveIntended(g, p, np, range, id, h, W), id, CalcRect(g, np, range).value)
  {
    var or, nr := CalcRect(g, p, range).value, CalcRect(g, np, range).value;
    var W' := WatcherMoveIntended(g, p, np, range, id, h, W);
    forall k | 0 <= k < |W'|
      ensures id in Entries(W'[k]) <==> InWindow(g, nr, k)
    {
      WatcherMoveIntendedEntries(g, p, np, range, id, h, W, k);
    }
  }

  /** The same situation under update_watcher as written: the watcher is
      missing from every table that comes into its window and is still in
      every table that leaves it. With range 0 its window is its own tile,
      so after a move to another tile it is registered on the tile it left
      and not on the tile it stands on. */
  lemma WatcherMoveStale(g: Geometry, p: Point, np: Point, range: int, id: nat, h: nat,
                         W: seq<seq<Slot>>)
    requires IsView(g, W) && NotBeforeGrid(g, p) && NotBeforeGrid(g, np)
    requires TileWithPos(g, p).Some? && TileWithPos(g, np).Some? && TileWithPos(g, p) != TileWithPos(g, np)
    requires CalcRect(g, p, range).Some? && CalcRect(g, np, range).Some?
    requires Registered(g, W, id, CalcRect(g, p, range).value)
    ensures var or, nr, W' := CalcRect(g, p, range).value, CalcRect(g, np, range).value,
                              WatcherMove(g, p, np, range, id, h, W);
      forall k :: 0 <= k < |W'| ==>
        (InWindow(g, nr, k) && !InWindow(g, or, k) ==> id !in Entries(W'[k])) &&
        (InWindow(g, or, k) && !InWindow(g, nr, k) ==> id in Entries(W'[k]))
    ensures range == 0 ==>
      var o, n, W' := TileWithPos(g, p).value, TileWithPos(g, np).value,
                      WatcherMove(g, p, np, range, id, h, W);
      0 <= o < |W'| && 0 <= n < |W'| && id in Entries(W'[o]) && id !in Entries(W'[n])
  {
    var or, nr := CalcRect(g, p, range).value, CalcRect(g, np, range).value;
    var W' := WatcherMove(g, p, np, range, id, h, W);
    forall k | 0 <= k < |W'|
      ensures InWindow(g, nr, k) && !InWindow(g, or, k) ==> id !in Entries(W'[k])
      ensures InWindow(g, or, k) && !InWindow(g, nr, k) ==> id in Entries(W'[k])
    {
      WatcherMoveEntries(g, p, np, range, id, h, W, k);
    }
    if range == 0 {
      var o, n := TileWithPos(g, p).value, TileWithPos(g, np).value;
      TileOfPos(g, p);
      TileOfPos(g, np);
      CalcRectSpec(g, p, range);
      CalcRectSpec(g, np, range);
      TileIndexEncode(g, o);
      TileIndexEncode(g, n);
      assert InWindow(g, or, o) && !InWindow(g, nr, o);
      assert InWindow(g, nr, n) && !InWindow(g, or, n);
    }
  }
}
