/** The object operations of the interest engine: an object is entered,
    moved and removed as a marker when its kind has the MARKER bit, then
    as a watcher when it has the WATCHER bit, in that order. Each hands
    back the snapshots of the marker and watcher operations it ran. */
module Objects {
  import opened Base
  import opened SlotTable
  import opened Grid
  import opened Interest

  /** add_object: add_marker, then add_watcher. The watchers snapshot is
      taken before the object is a watcher; the markers snapshots after it
      is a marker, so an object of both kinds sees itself. */
  method AddObject(m: Map, h: nat, obj: Entity) returns (watchers: seq<int>, markers: seq<seq<int>>)
    requires m.Valid() && NotBeforeGrid(m.geo, obj.cur)
    modifies m, m.tables
    ensures m.Valid() && IsView(m.geo, old(m.markerSlots)) && IsView(m.geo, old(m.watcherSlots))
    ensures m.markerSlots ==
      if HasMarker(obj.kind) then MarkerEnter(m.geo, obj.cur, obj.id, h, old(m.markerSlots)) else old(m.markerSlots)
    ensures m.watcherSlots ==
      if HasWatcher(obj.kind) then WatcherEnter(m.geo, obj.cur, obj.range, obj.id, h, old(m.watcherSlots))
      else old(m.watcherSlots)
    ensures watchers == if HasMarker(obj.kind) then WatchersAt(m.geo, obj.cur, old(m.watcherSlots)) else []
    ensures markers == if HasWatcher(obj.kind) then MarkersInWindow(m.geo, obj.cur, obj.range, m.markerSlots) else []
  {
    m.ViewsNoChains();
    watchers, markers := [], [];
    if HasMarker(obj.kind) {
      var _, w := AddMarker(m, h, obj);
      watchers := w;
    }
    if HasWatcher(obj.kind) {
      var _, ms := AddWatcher(m, h, obj);
      markers := ms;
    }
  }

  /** remove_object: remove_marker, then remove_watcher. The watchers
      snapshot is taken while an object of both kinds is still a watcher. */
  method RemoveObject(m: Map, obj: Entity) returns (watchers: seq<int>)
    requires m.Valid() && NotBeforeGrid(m.geo, obj.cur)
    modifies m, m.tables
    ensures m.Valid() && IsView(m.geo, old(m.markerSlots)) && IsView(m.geo, old(m.watcherSlots))
    ensures m.markerSlots ==
      if HasMarker(obj.kind) then MarkerLeave(m.geo, obj.cur, obj.id, old(m.markerSlots)) else old(m.markerSlots)
    ensures m.watcherSlots ==
      if HasWatcher(obj.kind) then WatcherLeave(m.geo, obj.cur, obj.range, obj.id, old(m.watcherSlots))
      else old(m.watcherSlots)
    ensures watchers == if HasMarker(obj.kind) then WatchersAt(m.geo, obj.cur, old(m.watcherSlots)) else []
  {
    m.ViewsNoChains();
    watchers := [];
    if HasMarker(obj.kind) {
      var _, w := RemoveMarker(m, obj);
      watchers := w;
    }
    if HasWatcher(obj.kind) {
      var _ := RemoveWatcher(m, obj);
    }
  }

  /** The position update_watcher starts from inside update_object: the
      marker step has already written the new position into the object
      when the old position has a tile. */
  function WatcherStart(g: Geometry, obj: Entity, np: Point): (p: Point)
    requires g.tileLen > 0
    ensures p == obj.cur || p == np
  {
    if HasMarker(obj.kind) && TileWithPos(g, obj.cur).Some? then np else obj.cur
  }

  /** update_object, as written: update_marker, then update_watcher on the
      object update_marker has already moved, with the swapped edits of
      update_watcher. For an object of both kinds whose old position has a
      tile, update_watcher therefore starts at the new position and changes
      no watchers table: the watcher stays registered on its old window. */
  method UpdateObject(m: Map, h: nat, obj: Entity, np: Point)
    returns (obj': Entity, oldWatchers: seq<int>, newWatchers: seq<int>,
             newOnly: seq<seq<int>>, oldOnly: seq<seq<int>>)
    requires m.Valid() && NotBeforeGrid(m.geo, obj.cur) && NotBeforeGrid(m.geo, np)
    modifies m, m.tables
    ensures m.Valid() && IsView(m.geo, old(m.markerSlots)) && IsView(m.geo, old(m.watcherSlots))
    ensures obj' == if TileWithPos(m.geo, obj.cur).None? then obj else obj.(cur := np)
    ensures m.markerSlots ==
      if HasMarker(obj.kind) then MarkerMove(m.geo, obj.cur, np, obj.id, h, old(m.markerSlots))
      else old(m.markerSlots)
    ensures m.watcherSlots ==
      if HasWatcher(obj.kind)
      then WatcherMove(m.geo, WatcherStart(m.geo, obj, np), np, obj.range, obj.id, h, old(m.watcherSlots))
      else old(m.watcherSlots)
    ensures (oldWatchers, newWatchers) ==
      if HasMarker(obj.kind) then MarkerMoveSnaps(m.geo, obj.cur, np, old(m.watcherSlots)) else ([], [])
    ensures (newOnly, oldOnly) ==
      if HasWatcher(obj.kind) then WatcherMoveSnaps(m.geo, WatcherStart(m.geo, obj, np), np, obj.range, m.markerSlots)
      else ([], [])
    ensures obj.kind == WatcherMarker ==> m.watcherSlots == old(m.watcherSlots) && newOnly == [] && oldOnly == []
  {
    m.ViewsNoChains();
    obj', oldWatchers, newWatchers, newOnly, oldOnly := obj, [], [], [], [];
    if HasMarker(obj.kind) {
      var _, o, ow, nw := UpdateMarker(m, h, obj, np);
      obj', oldWatchers, newWatchers := o, ow, nw;
    }
    assert obj'.cur == WatcherStart(m.geo, obj, np);
    if HasWatcher(obj.kind) {
      var _, o, no, oo := UpdateWatcher(m, h, obj', np, Leave);
      obj', newOnly, oldOnly := o, no, oo;
    }
  }

  /** update_object as intended: the watcher moves from the position the
      object had before the call, with the edits of update_watcher the
      right way round (WatcherMoveIntended). */
  method UpdateObjectIntended(m: Map, h: nat, obj: Entity, np: Point)
    returns (obj': Entity, oldWatchers: seq<int>, newWatchers: seq<int>,
             newOnly: seq<seq<int>>, oldOnly: seq<seq<int>>)
    requires m.Valid() && NotBeforeGrid(m.geo, obj.cur) && NotBeforeGrid(m.geo, np)
    modifies m, m.tables
    ensures m.Valid() && IsView(m.geo, old(m.markerSlots)) && IsView(m.geo, old(m.watcherSlots))
    ensures obj' == if TileWithPos(m.geo, obj.cur).None? then obj else obj.(cur := np)
    ensures m.markerSlots ==
      if HasMarker(obj.kind) then MarkerMove(m.geo, obj.cur, np, obj.id, h, old(m.markerSlots))
      else old(m.markerSlots)
    ensures m.watcherSlots ==
      if HasWatcher(obj.kind) then WatcherMoveIntended(m.geo, obj.cur, np, obj.range, obj.id, h, old(m.watcherSlots))
      else old(m.watcherSlots)
    ensures (oldWatchers, newWatchers) ==
      if HasMarker(obj.kind) then MarkerMoveSnaps(m.geo, obj.cur, np, old(m.watcherSlots)) else ([], [])
    ensures (newOnly, oldOnly) ==
      if HasWatcher(obj.kind) then WatcherMoveSnaps(m.geo, obj.cur, np, obj.range, m.markerSlots) else ([], [])
  {
    m.ViewsNoChains();
    obj', oldWatchers, newWatchers, newOnly, oldOnly := obj, [], [], [], [];
    if HasMarker(obj.kind) {
      var _, o, ow, nw := UpdateMarker(m, h, obj, np);
      obj', oldWatchers, newWatchers := o, ow, nw;
    }
    if HasWatcher(obj.kind) {
      var _, o, no, oo := UpdateWatcher(m, h, obj, np, Enter);
      obj', newOnly, oldOnly := o, no, oo;
    }
  }

  // ---------------------------------------------------------------------
  // Properties

  /** Removing undoes adding: an object added and then removed at the same
      position leaves every markers and watchers table with the entries it
      had, provided its id was in none of them. */
  lemma ObjectAddRemove(g: Geometry, obj: Entity, h: nat, M: seq<seq<Slot>>, W: seq<seq<Slot>>, k: int)
    requires IsView(g, M) && IsView(g, W) && NotBeforeGrid(g, obj.cur) && 0 <= k < g.tileSz
    requires obj.id !in Entries(M[k]) && obj.id !in Entries(W[k])
    ensures var M1 := if HasMarker(obj.kind) then MarkerEnter(g, obj.cur, obj.id, h, M) else M;
            var W1 := if HasWatcher(obj.kind) then WatcherEnter(g, obj.cur, obj.range, obj.id, h, W) else W;
            var M2 := if HasMarker(obj.kind) then MarkerLeave(g, obj.cur, obj.id, M1) else M1;
            var W2 := if HasWatcher(obj.kind) then WatcherLeave(g, obj.cur, obj.range, obj.id, W1) else W1;
            Entries(M2[k]) == Entries(M[k]) && Entries(W2[k]) == Entries(W[k])
  {
    if HasMarker(obj.kind) {
      MarkerEnterLeave(g, obj.cur, obj.id, h, M, k);
    }
    if HasWatcher(obj.kind) {
      WatcherEnterLeave(g, obj.cur, obj.range, obj.id, h, W, k);
    }
  }

  /** As written, moving an object of both kinds never changes a watchers
      table: update_watcher starts at the new position. With range 0 the
      window is the object's own tile, so after a move to another tile the
      watcher is still registered on the tile it left and not on the tile
      it stands on. */
  lemma UpdateObjectWatcherStays(g: Geometry, obj: Entity, np: Point, h: nat, W: seq<seq<Slot>>)
    requires IsView(g, W) && NotBeforeGrid(g, obj.cur) && NotBeforeGrid(g, np)
    requires obj.kind == WatcherMarker
    ensures WatcherMove(g, WatcherStart(g, obj, np), np, obj.range, obj.id, h, W) == W
    ensures obj.range == 0 && TileWithPos(g, obj.cur).Some? && TileWithPos(g, np).Some? &&
            TileWithPos(g, obj.cur) != TileWithPos(g, np) &&
            CalcRect(g, obj.cur, 0).Some? && Registered(g, W, obj.id, CalcRect(g, obj.cur, 0).value) ==>
      var o, n := TileWithPos(g, obj.cur).value, TileWithPos(g, np).value;
      0 <= o < |W| && 0 <= n < |W| && obj.id in Entries(W[o]) && obj.id !in Entries(W[n])
  {
    var o, n := TileWithPos(g, obj.cur), TileWithPos(g, np);
    if obj.range == 0 && o.Some? && n.Some? && o != n && CalcRect(g, obj.cur, 0).Some? {
      TileOfPos(g, obj.cur);
      TileOfPos(g, np);
      CalcRectSpec(g, obj.cur, 0);
      TileIndexEncode(g, o.value);
      TileIndexEncode(g, n.value);
      assert InWindow(g, CalcRect(g, obj.cur, 0).value, o.value);
      assert !InWindow(g, CalcRect(g, obj.cur, 0).value, n.value);
    }
  }

  // ---------------------------------------------------------------------
  // A concrete instance of both findings: a 20 x 10 world of 10-unit tiles
  // (two tiles side by side) and watcher 5 of range 0, registered on tile 0
  // only, moving from (0, 0) on tile 0 to (10, 0) on tile 1. One-slot
  // tables keep the instance small.

  /** The instance: the geometry, the watchers tables and the two
      positions. */
  predicate IsExample(g: Geometry, W: seq<seq<Slot>>, p: Point, np: Point)
  {
    g == Geometry(20, 10, 20, 10, 1, 0, 10, 2) && W == [[Slot(5, Ref(0), -1)], [FreeSlot]] &&
    p == Point(0, 0) && np == Point(10, 0)
  }

  /** The instance's geometry is the one _aoi_new computes for a 20 x 10
      world of 10-unit tiles. */
  lemma ExampleGeometry()
    ensures NewGeometry(20, 10, 10) == Geometry(20, 10, 20, 10, 1, 0, 10, 2)
  {
    var g := NewGeometry(20, 10, 10);
    assert g.maxX == 1 && g.maxY == 0;
  }

  // The facts of ExampleTiles, one small group at a time: stated together
  // on the literal geometry they send the solver's arithmetic astray.

  lemma ExampleGrid()
    ensures var g := Geometry(20, 10, 20, 10, 1, 0, 10, 2);
      Wf(g) && NotBeforeGrid(g, Point(0, 0)) && NotBeforeGrid(g, Point(10, 0))
  {
  }

  lemma ExampleStartTile()
    ensures TileWithPos(Geometry(20, 10, 20, 10, 1, 0, 10, 2), Point(0, 0)) == Some(0)
  {
  }

  lemma ExampleEndTile()
    ensures TileWithPos(Geometry(20, 10, 20, 10, 1, 0, 10, 2), Point(10, 0)) == Some(1)
  {
  }

  lemma ExampleWindows()
    ensures var g := Geometry(20, 10, 20, 10, 1, 0, 10, 2);
      CalcRect(g, Point(0, 0), 0) == Some(Rect(0, 0, 0, 0)) &&
      CalcRect(g, Point(10, 0), 0) == Some(Rect(1, 0, 1, 0))
  {
  }

  lemma ExampleWindowTiles()
    ensures var g := Geometry(20, 10, 20, 10, 1, 0, 10, 2);
      InWindow(g, Rect(0, 0, 0, 0), 0) && !InWindow(g, Rect(0, 0, 0, 0), 1) &&
      InWindow(g, Rect(1, 0, 1, 0), 1) && !InWindow(g, Rect(1, 0, 1, 0), 0)
  {
  }

  /** The instance's positions lie on tiles 0 and 1, and their range-0
      windows hold just those tiles. */
  lemma ExampleTiles(g: Geometry, p: Point, np: Point)
    requires g == Geometry(20, 10, 20, 10, 1, 0, 10, 2) && p == Point(0, 0) && np == Point(10, 0)
    ensures Wf(g) && g.tileSz == 2 && NotBeforeGrid(g, p) && NotBeforeGrid(g, np)
    ensures TileWithPos(g, p) == Some(0) && TileWithPos(g, np) == Some(1)
    ensures CalcRect(g, p, 0) == Some(Rect(0, 0, 0, 0)) && CalcRect(g, np, 0) == Some(Rect(1, 0, 1, 0))
    ensures InWindow(g, Rect(0, 0, 0, 0), 0) && !InWindow(g, Rect(0, 0, 0, 0), 1)
    ensures InWindow(g, Rect(1, 0, 1, 0), 1) && !InWindow(g, Rect(1, 0, 1, 0), 0)
  {
    ExampleGrid();
    ExampleStartTile();
    ExampleEndTile();
    ExampleWindows();
    ExampleWindowTiles();
  }

  /** The instance's tables: no chains, id 5 in the table of tile 0 only,
      and tile 1's main slot for it free. */
  lemma ExampleTables(W: seq<seq<Slot>>)
    requires W == [[Slot(5, Ref(0), -1)], [FreeSlot]]
    ensures AllNoChains(W) && 5 in Entries(W[0]) && 5 !in Entries(W[1]) && MainFree(W[1], 5)
  {
    assert IsPow2(1);
  }

  /** The instance is a valid view in which watcher 5 is registered on
      tile 0 alone, and tile 1's main slot for it is free. */
  lemma ExampleSetup(g: Geometry, W: seq<seq<Slot>>, p: Point, np: Point)
    requires IsExample(g, W, p, np)
    ensures IsView(g, W) && NotBeforeGrid(g, p) && NotBeforeGrid(g, np)
    ensures TileWithPos(g, p) == Some(0) && TileWithPos(g, np) == Some(1)
    ensures CalcRect(g, p, 0) == Some(Rect(0, 0, 0, 0)) && CalcRect(g, np, 0) == Some(Rect(1, 0, 1, 0))
    ensures InWindow(g, Rect(1, 0, 1, 0), 1) && !InWindow(g, Rect(1, 0, 1, 0), 0)
    ensures Registered(g, W, 5, Rect(0, 0, 0, 0)) && MainFree(W[1], 5)
  {
    ExampleTables(W);
    ExampleTiles(g, p, np);
    assert |W| == 2;
    forall k | 0 <= k < |W|
      ensures 5 in Entries(W[k]) <==> InWindow(g, Rect(0, 0, 0, 0), k)
    {
      if k == 0 {
        assert 5 in Entries(W[0]) && InWindow(g, Rect(0, 0, 0, 0), 0);
      } else {
        assert k == 1 && 5 !in Entries(W[1]) && !InWindow(g, Rect(0, 0, 0, 0), 1);
      }
    }
  }

  /** update_watcher as written leaves watcher 5 on tile 0 and off tile 1. */
  lemma ExampleAsWritten(g: Geometry, W: seq<seq<Slot>>, p: Point, np: Point)
    requires IsExample(g, W, p, np)
    ensures IsView(g, W) && NotBeforeGrid(g, p) && NotBeforeGrid(g, np)
    ensures var W' := WatcherMove(g, p, np, 0, 5, 0, W);
      5 in Entries(W'[0]) && 5 !in Entries(W'[1])
  {
    ExampleSetup(g, W, p, np);
    WatcherMoveStale(g, p, np, 0, 5, 0, W);
  }

  /** The intended update_watcher moves watcher 5 to tile 1. */
  lemma ExampleIntended(g: Geometry, W: seq<seq<Slot>>, p: Point, np: Point)
    requires IsExample(g, W, p, np)
    ensures IsView(g, W) && NotBeforeGrid(g, p) && NotBeforeGrid(g, np)
    ensures var W' := WatcherMoveIntended(g, p, np, 0, 5, 0, W);
      5 !in Entries(W'[0]) && 5 in Entries(W'[1])
  {
    ExampleSetup(g, W, p, np);
    var nr := Rect(1, 0, 1, 0);
    forall k | 0 <= k < |W| && InWindow(g, nr, k)
      ensures MainFree(W[k], 5)
    {
      assert k == 1;
    }
    WatcherMoveIntendedFollows(g, p, np, 0, 5, 0, W);
    var W' := WatcherMoveIntended(g, p, np, 0, 5, 0, W);
    assert Registered(g, W', 5, nr);
    assert 5 in Entries(W'[1]) <==> InWindow(g, nr, 1);
    assert 5 in Entries(W'[0]) <==> InWindow(g, nr, 0);
  }

  /** update_object as written: an object of both kinds with id 5 and range 0
      leaves every watchers table as it was, so watcher 5 stays on tile 0. */
  lemma ExampleUpdateObject(g: Geometry, W: seq<seq<Slot>>, p: Point, np: Point)
    requires IsExample(g, W, p, np)
    ensures IsView(g, W) && NotBeforeGrid(g, p) && NotBeforeGrid(g, np)
    ensures var W' := WatcherMove(g, WatcherStart(g, Entity(5, p, 0, WatcherMarker), np), np, 0, 5, 0, W);
      W' == W && 5 in Entries(W'[0]) && 5 !in Entries(W'[1])
  {
    ExampleSetup(g, W, p, np);
    UpdateObjectWatcherStays(g, Entity(5, p, 0, WatcherMarker), np, 0, W);
  }
}
