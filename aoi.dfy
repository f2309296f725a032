/** An interest context (struct aoi_context): the tile map and the object
    pool, with the three operations the script side calls on objects —
    enter, leave and update. Objects are named by their pool handles; the
    context records the live ones. */
module Aoi {
  import opened Base
  import opened SlotTable
  import opened Grid
  import opened Interest
  import opened Objects
  import opened Pool

  /** The position passes the checks of _aoi_enter and _aoi_update: not
      negative and below the whole-tile width and height. */
  predicate InBounds(g: Geometry, p: Point)
  {
    0 <= p.x < g.width && 0 <= p.y < g.high
  }

  /** What _aoi_enter hands back: the object's handle, the watchers of its
      tile and the markers of its window. */
  datatype Entered = Entered(handle: nat, watchers: seq<int>, markers: seq<seq<int>>)

  /** What _aoi_update hands back: the two snapshots of the marker step and
      the two of the watcher step. */
  datatype Moved = Moved(oldWatchers: seq<int>, newWatchers: seq<int>,
                         newOnly: seq<seq<int>>, oldOnly: seq<seq<int>>)

  /** A live object is an allocated object that is not free, standing at a
      position the checks let through. */
  ghost predicate LiveValid(g: Geometry, s: PoolState, objects: map<nat, Entity>)
  {
    forall h :: h in objects ==> h < s.blocks * BlockSize && h !in s.free && InBounds(g, objects[h].cur)
  }

  /** The object _aoi_enter takes from the pool is not live, and once it is
      live the live objects are still valid. */
  lemma EnterKeepsLive(g: Geometry, s: PoolState, objects: map<nat, Entity>, obj: Entity)
    requires PoolValid(s) && LiveValid(g, s, objects) && InBounds(g, obj.cur)
    ensures var (h, s') := Acquired(s);
      h !in objects && PoolValid(s') && LiveValid(g, s', objects[h := obj])
  {
    AcquiredSpec(s);
  }

  /** Once _aoi_leave has given a live object back, the remaining live
      objects are still valid, and so is the pool. */
  lemma LeaveKeepsLive(g: Geometry, s: PoolState, objects: map<nat, Entity>, h: nat)
    requires PoolValid(s) && LiveValid(g, s, objects) && h in objects
    ensures PoolValid(Released(s, h)) && LiveValid(g, Released(s, h), objects - {h})
  {
    ReleasedSpec(s, h);
  }

  class Context {
    const tiles: Map
    const pool: ObjectPool
    /** The live objects, by handle. */
    var objects: map<nat, Entity>

    /** The map is valid, the pool is valid, and a live object is an
        allocated object that is not free, standing at a position the
        checks let through; _aoi_enter makes every object both a watcher
        and a marker. */
    ghost predicate Valid()
      reads this, tiles, tiles.tiles, tiles.tables, pool
    {
      tiles.Valid() && PoolValid(pool.State()) && LiveValid(tiles.geo, pool.State(), objects) &&
      forall h :: h in objects ==> objects[h].kind == WatcherMarker
    }

    /** _aoi_new: the geometry, tile_init and an empty pool. */
    constructor (realWidth: nat, realHigh: nat, tileLen: nat)
      requires tileLen > 0
      ensures Valid() && objects == map[] && pool.State() == PoolState(0, [])
      ensures tiles.geo == NewGeometry(realWidth, realHigh, tileLen)
      ensures forall k :: 0 <= k < |tiles.markerSlots| ==> tiles.markerSlots[k] == NewSlots()
      ensures forall k :: 0 <= k < |tiles.watcherSlots| ==> tiles.watcherSlots[k] == NewSlots()
    {
      tiles := new Map(realWidth, realHigh, tileLen);
      pool := new ObjectPool();
      objects := map[];
    }

    /** _aoi_enter: a position outside the map is refused (luaL_error);
        otherwise an object is taken from the pool, set up as a watcher
        and marker at the position, and added to the map. */
    method Enter(id: nat, p: Point, range: int) returns (r: Option<Entered>)
      requires Valid()
      modifies this, tiles, tiles.tables, pool
      ensures Valid()
      ensures !InBounds(tiles.geo, p) ==>
        r.None? && objects == old(objects) && pool.State() == old(pool.State()) &&
        tiles.markerSlots == old(tiles.markerSlots) && tiles.watcherSlots == old(tiles.watcherSlots)
      ensures InBounds(tiles.geo, p) ==>
        r.Some? && NotBeforeGrid(tiles.geo, p) &&
        IsView(tiles.geo, old(tiles.markerSlots)) && IsView(tiles.geo, old(tiles.watcherSlots)) &&
        var obj := Entity(id, p, range, WatcherMarker);
        (r.value.handle, pool.State()) == Acquired(old(pool.State())) &&
        r.value.handle !in old(objects) &&
        objects == old(objects)[r.value.handle := obj] &&
        tiles.markerSlots == MarkerEnter(tiles.geo, p, id, r.value.handle, old(tiles.markerSlots)) &&
        tiles.watcherSlots == WatcherEnter(tiles.geo, p, range, id, r.value.handle, old(tiles.watcherSlots)) &&
        r.value.watchers == WatchersAt(tiles.geo, p, old(tiles.watcherSlots)) &&
        r.value.markers == MarkersInWindow(tiles.geo, p, range, tiles.markerSlots)
    {
      if !InBounds(tiles.geo, p) {
        return None;
      }
      TileWithPosSpec(tiles.geo, p);
      assert Column(tiles.geo, p) >= 0 && Row(tiles.geo, p) >= 0;
      var obj := Entity(id, p, range, WatcherMarker);
      var h := TakeHandle(obj);
      var watchers, markers := AddObject(tiles, h, obj);
      r := Some(Entered(h, watchers, markers));
    }

    /** The pool step of _aoi_enter: an object is taken from the pool and
        becomes live as obj. */
    method TakeHandle(obj: Entity) returns (h: nat)
      requires Valid() && InBounds(tiles.geo, obj.cur) && obj.kind == WatcherMarker
      modifies this, pool
      ensures Valid()
      ensures (h, pool.State()) == Acquired(old(pool.State()))
      ensures h !in old(objects) && objects == old(objects)[h := obj]
    {
      EnterKeepsLive(tiles.geo, pool.State(), objects, obj);
      h := pool.Acquire();
      objects := objects[h := obj];
    }

    /** _aoi_leave: the object is removed from the map and its handle goes
        back on the pool's free list. */
    method Leave(h: nat) returns (watchers: seq<int>)
      requires Valid() && h in objects
      modifies this, tiles, tiles.tables, pool
      ensures Valid()
      ensures var obj := old(objects[h]);
        NotBeforeGrid(tiles.geo, obj.cur) &&
        IsView(tiles.geo, old(tiles.markerSlots)) && IsView(tiles.geo, old(tiles.watcherSlots)) &&
        objects == old(objects) - {h} &&
        pool.State() == Released(old(pool.State()), h) &&
        tiles.markerSlots ==
          (if HasMarker(obj.kind) then MarkerLeave(tiles.geo, obj.cur, obj.id, old(tiles.markerSlots))
           else old(tiles.markerSlots)) &&
        tiles.watcherSlots ==
          (if HasWatcher(obj.kind) then WatcherLeave(tiles.geo, obj.cur, obj.range, obj.id, old(tiles.watcherSlots))
           else old(tiles.watcherSlots)) &&
        watchers == if HasMarker(obj.kind) then WatchersAt(tiles.geo, obj.cur, old(tiles.watcherSlots)) else []
    {
      var obj := objects[h];
      TileWithPosSpec(tiles.geo, obj.cur);
      assert Column(tiles.geo, obj.cur) >= 0 && Row(tiles.geo, obj.cur) >= 0;
      watchers := RemoveObject(tiles, obj);
      LeaveKeepsLive(tiles.geo, pool.State(), objects, h);
      pool.Release(h);
      objects := objects - {h};
    }

    /** _aoi_update: a position outside the map is refused (luaL_error);
        otherwise update_object runs as written: the marker moves from its
        tile to the new one, and update_watcher starts from the position
        update_marker has already written (WatcherStart). Both steps hand
        back their snapshots. */
    method Update(h: nat, np: Point) returns (r: Option<Moved>)
      requires Valid() && h in objects
      modifies this, tiles, tiles.tables
      ensures Valid() && pool.State() == old(pool.State())
      ensures tiles.watcherSlots == old(tiles.watcherSlots)
      ensures !InBounds(tiles.geo, np) ==>
        r.None? && objects == old(objects) &&
        tiles.markerSlots == old(tiles.markerSlots) && tiles.watcherSlots == old(tiles.watcherSlots)
      ensures InBounds(tiles.geo, np) ==>
        var obj := old(objects[h]);
        r.Some? && NotBeforeGrid(tiles.geo, obj.cur) && NotBeforeGrid(tiles.geo, np) &&
        IsView(tiles.geo, old(tiles.markerSlots)) && IsView(tiles.geo, old(tiles.watcherSlots)) &&
        objects == old(objects)[h := obj.(cur := np)] &&
        tiles.markerSlots ==
          (if HasMarker(obj.kind) then MarkerMove(tiles.geo, obj.cur, np, obj.id, h, old(tiles.markerSlots))
           else old(tiles.markerSlots)) &&
        tiles.watcherSlots ==
          (if HasWatcher(obj.kind)
           then WatcherMove(tiles.geo, WatcherStart(tiles.geo, obj, np), np, obj.range, obj.id, h, old(tiles.watcherSlots))
           else old(tiles.watcherSlots)) &&
        (r.value.oldWatchers, r.value.newWatchers) ==
          (if HasMarker(obj.kind) then MarkerMoveSnaps(tiles.geo, obj.cur, np, old(tiles.watcherSlots)) else ([], [])) &&
        (r.value.newOnly, r.value.oldOnly) ==
          (if HasWatcher(obj.kind)
           then WatcherMoveSnaps(tiles.geo, WatcherStart(tiles.geo, obj, np), np, obj.range, tiles.markerSlots)
           else ([], []))
    {
      if !InBounds(tiles.geo, np) {
        return None;
      }
      var obj := objects[h];
      TileWithPosSpec(tiles.geo, obj.cur);
      TileWithPosSpec(tiles.geo, np);
      assert Column(tiles.geo, obj.cur) >= 0 && Row(tiles.geo, obj.cur) >= 0;
      assert Column(tiles.geo, np) >= 0 && Row(tiles.geo, np) >= 0;
      var obj', ow, nw, no, oo := UpdateObject(tiles, h, obj, np);
      objects := objects[h := obj'];
      r := Some(Moved(ow, nw, no, oo));
    }
  }
}
