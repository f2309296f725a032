# tower-aoi in Dafny

A model of the area-of-interest engine of `tower-aoi.c`, with proofs about it.
The world is a grid of square tiles. Each tile has two id tables:

- **markers** holds the objects standing on the tile;
- **watchers** holds the objects whose window covers the tile. A window is the
  square of tiles within `range` tiles of the object's own tile, clamped to the grid.

An object is a marker, a watcher or both. Entering, leaving and moving an object
edits these tables and hands back snapshots of the opposite tables: the watchers
that see a marker, and the markers a watcher sees. Objects come from a pool that
keeps a LIFO free list and is refilled in blocks of 64.

The project has seven modules, one file each:

| file | module | what it models |
|---|---|---|
| `base.dfy` | `Base` | `Option`, powers of two, `id & (size-1)` as `id % size`, small arithmetic facts |
| `slot_table.dfy` | `SlotTable` | struct table: `mainposition`, `table_create`, `table_insert`, `rehash`, `table_delete`, `table_find`, and `make_table` as a snapshot |
| `grid.dfy` | `Grid` | struct map and struct tile: the `_aoi_new` geometry, `tile_withrc`, `tile_withpos`, `calc_rect`, `tile_init`, and the map of tiles with its per-tile tables |
| `interest.dfy` | `Interest` | `add_/remove_/update_marker` and `add_/remove_/update_watcher` |
| `objects.dfy` | `Objects` | `add_object`, `remove_object`, `update_object` |
| `pool.dfy` | `Pool` | the object pool: the block refill and free-list push/pop |
| `aoi.dfy` | `Aoi` | struct aoi_context: `_aoi_new`, `_aoi_enter`, `_aoi_leave`, `_aoi_update` |

Code that changes state in place is modelled as classes:

- `Table` holds `size`, `lastfree` and the slots.
- `Tile` holds its coordinates and its two tables.
- `Map` holds the tile array.
- `ObjectPool` and `Context` hold the pool and the context.

Each method is proved against a pure specification function. A `Map` carries two
ghost views, `markerSlots` and `watcherSlots`, with the slots of every tile's
tables. Every engine operation is a function on those views: for example,
`MarkerEnter` or `WatcherShift`. Lemmas then state what each function does to
`Entries`, the id → object-handle map of each table.

The model follows the code. Two details of the slot table decide how it really
behaves:

- The free-slot scan accepts only a slot with `id == -1 && next != -1`
  (tower-aoi.c:164). No operation ever makes such a slot, so no chain is ever
  built.
- When the scan fails, `rehash` (tower-aoi.c:172) doubles the table, but the id
  being inserted is never stored.

As a result, every table keeps `NoChains`: every `next` is -1, and every live id
sits at its own main position.

- The displacement branch of insert (tower-aoi.c:145-160), the scan hit, the head
  pull-up of delete (tower-aoi.c:191-199) and the chain steps are unreachable.
  They are `assert false` branches.
- An insert whose main slot already holds an object leaves the entries unchanged
  (`InsertOutcome`). `InsertCollisionDrops` shows this on ids 1 and 65.

After `rehash`, `table_insert` returns without placing the id that triggered it
(tower-aoi.c:172). `table_find` answers exactly for the ids that are in a table;
an id dropped this way is simply not there.

## Model

| member | source | states |
|---|---|---|
| SlotTable.NewSlots | tower-aoi.c:114-120 | a new table has 64 slots, each with id -1, no object and next -1 |
| SlotTable.NewSlotsEmpty | tower-aoi.c:107-122 | a new table satisfies the no-chain invariant and holds no entries |
| SlotTable.Table.constructor | tower-aoi.c:107-122 | table_create: size 64, lastfree 63, all slots free, no entries |
| SlotTable.Table.MainPosition | tower-aoi.c:130-134 | `id & (size-1)` equals `id % size` and lies below size |
| SlotTable.StoreAtMain | tower-aoi.c:139-143 | storing an id in its free main slot keeps the no-chain invariant and adds exactly that id → handle entry |
| SlotTable.ClearAtMain | tower-aoi.c:181-183 | clearing the object of the slot that holds id keeps the invariant and removes exactly that id |
| SlotTable.InsertSlotsSpec | tower-aoi.c:136-173 | insert keeps the no-chain invariant; the entries become InsertOutcome (the id is stored if its main slot is free, otherwise it is dropped); the size stays the same on the first path and doubles on the collision path |
| SlotTable.InsertChangesSlots | tower-aoi.c:136-173 | every insert changes the slot array: it fills the main slot or doubles the table |
| SlotTable.InsertCollisionDrops | tower-aoi.c:162-172 | in a new table, inserting 1 then 65 (same main slot) leaves only 1 in the table, which now has 128 slots |
| SlotTable.Table.Insert | tower-aoi.c:136-173 | the slots become InsertSlots of the old slots, and the entries become InsertOutcome; the scan loop never accepts a slot, and the displacement branch is unreachable |
| SlotTable.RehashKeepsEntries | tower-aoi.c:83-105 | re-inserting the occupied old slots in index order into a doubled free table keeps the invariant and exactly the same entries |
| SlotTable.Table.Rehash | tower-aoi.c:83-105 | size doubles, lastfree is size-1, and the slots are Rehashed(old slots), i.e. every occupied old slot inserted in index order |
| SlotTable.DeleteSlotsSpec | tower-aoi.c:175-210 | delete keeps the invariant and the size, removes exactly id, and changes no slot when id is absent |
| SlotTable.Table.Delete | tower-aoi.c:175-210 | returns the object stored under id (NULL if absent); the entries lose exactly id, and the slots become DeleteSlots |
| SlotTable.Table.Find | tower-aoi.c:212-224 | returns the object stored under id, or NULL when id is absent |
| SlotTable.SnapshotListsEntries | tower-aoi.c:282-292 | the snapshot lists exactly the ids in the table, each once |
| SlotTable.Table.Snapshot | tower-aoi.c:282-292 | make_table on a table: its ids are exactly the table's entries, without repeats |
| Grid.NewGeometry | tower-aoi.c:476-495 | max index = real size / tile_len - 1; width and high are whole multiples of tile_len, at most the real size and within one tile of it; tile_sz = (max_x+1)(max_y+1) |
| Grid.TileIndexDecode | tower-aoi.c:243-248 | the row-major index `r*(max_x+1)+c` gives back r and c, so it is injective in (r, c) |
| Grid.TileWithRCSpec | tower-aoi.c:243-248 | `TileWithRC` (tile_withrc) is NULL iff c > max_x or r > max_y; otherwise, for non-negative r and c, it is the index `r*(max_x+1)+c`, which lies in [0, tile_sz) |
| Grid.TileWithPosSpec | tower-aoi.c:250-257 | for a non-negative position, `TileWithPos` (tile_withpos) has a tile iff the position is below width and high; that tile's row and column are the truncated quotients |
| Grid.CalcRect | tower-aoi.c:259-280 | a window found by calc_rect lies inside the grid |
| Grid.CalcRectSpec | tower-aoi.c:259-280 | calc_rect fails iff tile_withpos does; otherwise `bl = max(0, tile-range)` and `tr = min(max index, tile+range)` per axis, so bl ≤ tile ≤ tr when range ≥ 0, and the window holds its own tile iff range ≥ 0 |
| Grid.RectTilesMembers | tower-aoi.c:320-329 | the tiles the window loops visit (rows bl.y..tr.y, each column bl.x..tr.x) are exactly the grid tiles inside the window |
| Grid.KeptMembers | tower-aoi.c:400-403 | a loop that skips the tiles of another window visits exactly the tiles that are not in it |
| Grid.Tile.constructor | tower-aoi.c:235-238 | a tile gets its coordinates and two new, distinct tables |
| Grid.StampColumn | tower-aoi.c:233-239 | one column of tile_init's loops: every tile of the column is stamped with its own x and y and two fresh empty tables, and no other tile changes |
| Grid.TileInit | tower-aoi.c:228-241 | every tile k is stamped with x = its column and y = its row, its tables are new and distinct from every other tile's, and all are empty |
| Grid.Map.constructor | tower-aoi.c:476-497 | the map has the _aoi_new geometry, and every markers and watchers table is new |
| Grid.Map.InsertMarker | tower-aoi.c:299 | table_insert into tile k's markers table; every other table is unchanged |
| Grid.Map.DeleteMarker | tower-aoi.c:309 | table_delete from tile k's markers table; every other table is unchanged |
| Grid.Map.InsertWatcher | tower-aoi.c:326 | table_insert into tile k's watchers table; every other table is unchanged |
| Grid.Map.DeleteWatcher | tower-aoi.c:345 | table_delete from tile k's watchers table; every other table is unchanged |
| Grid.Map.SnapshotMarkers | tower-aoi.c:327 | make_table of tile k's markers table |
| Grid.Map.SnapshotWatchers | tower-aoi.c:300 | make_table of tile k's watchers table |
| Interest.AddMarker | tower-aoi.c:294-302 | -1 and no change when the position has no tile; otherwise an insert into that tile's markers table only, returning that tile's watchers snapshot |
| Interest.RemoveMarker | tower-aoi.c:304-312 | -1 and no change when the position has no tile; otherwise a delete from that tile's markers table only, returning that tile's watchers snapshot |
| Interest.MoveMarker | tower-aoi.c:363-370 | delete from the old tile's markers table, then insert into the new tile's; returns both tiles' watchers snapshots, old tile first |
| Interest.UpdateMarker | tower-aoi.c:351-372 | -1 and nothing changed when the old tile is missing; otherwise cur is overwritten before the new tile is checked; a missing new tile gives -1, and the same tile gives no table change and no snapshot; different tiles give MarkerMove, and the snapshots are `MarkerMoveSnaps`: the watchers of the old tile, then of the new one |
| Interest.MarkerEnterEntries | tower-aoi.c:294-302 | `MarkerEnter` (add_marker on the view) inserts the id into its own tile's markers table (stored iff the main slot is free), and no other table's entries change |
| Interest.MarkerLeaveEntries | tower-aoi.c:304-312 | `MarkerLeave` (remove_marker on the view) removes the id from its own tile's markers table, and no other table's entries change |
| Interest.MarkerEnterLeave | tower-aoi.c:294-312 | removing from p undoes adding at p: every markers table has its old entries back, provided the id was absent from the table |
| Interest.MarkerMoveChanges | tower-aoi.c:351-372 | update_marker changes the markers tables iff both positions have tiles and the tiles differ |
| Interest.MarkerMoveEntries | tower-aoi.c:351-372 | `MarkerMove` (update_marker on the view) removes the id from the old tile's table and inserts it into the new tile's; every other table keeps its entries |
| Interest.EditWindow | tower-aoi.c:320-329 | the loop nest over a window, rows bottom to top and columns left to right, skipping a second window: it edits the watchers table of exactly the tiles reached, snapshots their markers tables in visiting order, and changes no markers table |
| Interest.WindowSnapsRect | tower-aoi.c:320-329 | the snapshots gathered row by row are the markers snapshots of the window's tiles in loop order, less the skipped ones |
| Interest.AddWatcher | tower-aoi.c:314-331 | -1 when the position has no tile; otherwise an insert into the watchers table of every window tile, returning each tile's markers snapshot in loop order; no markers table changes |
| Interest.RemoveWatcher | tower-aoi.c:333-349 | -1 when the position has no tile; otherwise a delete from the watchers table of every window tile; no snapshot is taken |
| Interest.UpdateWatcher | tower-aoi.c:374-429 | -1 when either position has no tile; cur is overwritten before the new tile is checked; the same tile gives no change; otherwise `WatcherShift`: the first loop edits the new-only tiles and the second applies the opposite edit to the old-only tiles; the snapshots are `WatcherMoveSnaps`, the markers of the new-only tiles and then of the old-only tiles, in loop order |
| Interest.WindowEditEntries | tower-aoi.c:320-329 | a window edit applies the edit to every tile it covers and to no other tile |
| Interest.WatcherEnterEntries | tower-aoi.c:314-331 | add_watcher inserts the id into the watchers table of exactly the tiles of its window |
| Interest.WatcherLeaveEntries | tower-aoi.c:333-349 | remove_watcher removes the id from exactly the tiles of its window |
| Interest.WatcherEnterLeave | tower-aoi.c:314-349 | leaving from p undoes entering at p for every watchers table that lacked the id |
| Interest.WatcherMoveEntries | tower-aoi.c:398-427 | `WatcherMove` (`WatcherShift` with the edits as written): tiles coming into the window lose the id, tiles leaving it have the id inserted, and tiles in both windows or in neither are untouched |
| Interest.WatcherMoveStale | tower-aoi.c:398-427 | as written, a watcher registered on its old window ends up missing from every tile that came in and still present on every tile that left; with range 0 it stays on the old tile and is absent from its new tile |
| Interest.WatcherMoveIntendedEntries | tower-aoi.c:398-427 | with the edits the right way round: tiles coming in get the id inserted, tiles leaving lose it, and the rest are untouched |
| Interest.WatcherMoveIntendedFollows | tower-aoi.c:374-429 | with the edits the right way round, a watcher registered on exactly its old window ends up registered on exactly its new window, provided no incoming tile's main slot for the id holds another object |
| Objects.WatcherStart | tower-aoi.c:446-454 | the position update_watcher starts from inside update_object is the old position or the new one |
| Objects.AddObject | tower-aoi.c:431-442 | add_marker if the object has the MARKER bit, then add_watcher if it has the WATCHER bit; the watchers snapshot is taken before the object watches and the markers snapshots after it is placed |
| Objects.RemoveObject | tower-aoi.c:459-469 | remove_marker if the object has the MARKER bit, then remove_watcher if it has the WATCHER bit |
| Objects.UpdateObject | tower-aoi.c:444-457 | as written: update_marker, then update_watcher starting from the already-moved position (`WatcherStart`); the four snapshots are update_marker's (`MarkerMoveSnaps`) and update_watcher's (`WatcherMoveSnaps` from that start), empty for a step the object's kind skips; an object of both kinds changes no watchers table and gets no markers snapshots |
| Objects.UpdateObjectWatcherStays | tower-aoi.c:444-457 | as written, an object of both kinds leaves the watchers tables as they were; with range 0 and a move to another tile, it stays registered on the old tile and absent from the new one |
| Objects.UpdateObjectIntended | tower-aoi.c:444-457 | update_object as intended: the marker moves as in update_marker, and the watcher moves from the old position with WatcherMoveIntended; the snapshots are `MarkerMoveSnaps` and `WatcherMoveSnaps` from the old position |
| Objects.ObjectAddRemove | tower-aoi.c:431-469 | remove_object undoes add_object on every table that lacked the id |
| Objects.ExampleGeometry | tower-aoi.c:476-495 | the example geometry is what _aoi_new computes for a 20×10 world of 10-unit tiles: two tiles side by side |
| Objects.ExampleTables | tower-aoi.c:130-143 | the example tables satisfy the no-chain invariant; id 5 is in tile 0's table only, and tile 1's main slot for it is free |
| Objects.ExampleTiles | tower-aoi.c:250-280 | in the example, (0,0) lies on tile 0 and (10,0) on tile 1, and each range-0 window is its own tile (gathered from ExampleGrid, ExampleStartTile, ExampleEndTile, ExampleWindows and ExampleWindowTiles) |
| Objects.ExampleSetup | tower-aoi.c:314-331 | in the example, watcher 5 is registered on exactly its range-0 window at (0,0), tile 0 |
| Objects.ExampleAsWritten | tower-aoi.c:398-427 | update_watcher as written, moving watcher 5 from (0,0) to (10,0), leaves it on tile 0 and off tile 1 |
| Objects.ExampleIntended | tower-aoi.c:398-427 | the corrected update_watcher, on the same move, takes it off tile 0 and puts it on tile 1 |
| Objects.ExampleUpdateObject | tower-aoi.c:444-457 | update_object as written, on the same move of an object of both kinds, changes no watchers table, so watcher 5 stays on tile 0 and off tile 1 |
| Pool.LinkBlock | tower-aoi.c:544-549 | the refill loop links objects 1..62 each to the next, ends the last with NULL, and leaves object 0 NULL |
| Pool.BlockChainFrom | tower-aoi.c:546-549 | the links of a refilled block run from place i through i+1, ..., 63 and stop |
| Pool.AcquiredSpec | tower-aoi.c:538-553 | `Acquired`: the object taken is allocated and no longer free, and the pool stays valid; from a non-empty list it is the head and the rest of the list remains; from an empty list it is object 0 of a new block (handle blocks × 64), and only objects of the new block join the list |
| Pool.ReleasedSpec | tower-aoi.c:577-578 | `Released`: pushing an allocated, non-free object keeps the pool valid |
| Pool.ReleaseThenAcquire | tower-aoi.c:538-540 | the free list is LIFO: acquiring right after a release returns the released object and restores the pool |
| Pool.ObjectPool.constructor | tower-aoi.c:485-486 | the zeroed pool: no block and an empty free list |
| Pool.ObjectPool.Acquire | tower-aoi.c:538-553 | pops the free-list head, or allocates a block, hands out its object 0 and lists objects 1..63 in order |
| Pool.ObjectPool.Release | tower-aoi.c:577-578 | pushes the object on the head of the free list |
| Aoi.EnterKeepsLive | tower-aoi.c:538-565 | the object _aoi_enter takes is not live, and the live objects stay valid once it is |
| Aoi.LeaveKeepsLive | tower-aoi.c:575-578 | after _aoi_leave gives a live object back, the pool and the remaining live objects are valid |
| Aoi.Context.constructor | tower-aoi.c:471-502 | _aoi_new: the geometry from the real sizes, every table new, an empty pool and no live object |
| Aoi.Context.TakeHandle | tower-aoi.c:537-554 | the pool step of _aoi_enter: the handle comes from Acquired, was not live before, and is live now |
| Aoi.Context.Enter | tower-aoi.c:523-568 | a position outside [0,width)×[0,high) is refused and nothing changes; otherwise a pooled object of both kinds is added to the markers and watchers tables, returning its tile's watchers and its window's markers |
| Aoi.Context.Leave | tower-aoi.c:570-581 | remove_object, then the handle goes back on the head of the free list |
| Aoi.Context.Update | tower-aoi.c:583-604 | a position outside [0,width)×[0,high) is refused and nothing changes; otherwise update_object runs as written: the marker moves with MarkerMove, the watcher step is WatcherMove from `WatcherStart`, and the four snapshots are those of UpdateObject; since every live object is of both kinds (tower-aoi.c:557), no watchers table ever changes |

## Left out

- The Lua binding is left out: the `lua_State` stack, `luaL_check*`, light-userdata
  handles and `luaopen_toweraoi_c`. `luaL_error` becomes a `None` result with no
  state change. An object is named by its pool handle instead of its address.
- `make_table` writes every snapshot into the same Lua table, starting again at
  index 1 each time, so a window's snapshots overwrite one another. The model
  returns one sequence per tile instead.
- Positions are integers, not floats. For a non-negative position, the float
  quotient truncated to int equals integer division. Negative positions fail the
  bounds checks of `_aoi_enter` and `_aoi_update`.
- Ids are non-negative, so `id & (size-1)` is `id % size`. The engine methods
  require the position's column and row to be at least 0. In C a negative one
  addresses the wrong tile, or reads before the tile array.
- `_aoi_new` requires `tile_len > 0`, because C division by zero is undefined.
- `Grid.NewGeometry` and `Aoi.Context.constructor` take non-negative real sizes
  and tile length. The C code accepts negative ones (tower-aoi.c:473-475); they
  give a negative or empty grid, whose tile array the model does not describe.
- C `int` width is not modelled: ids, ranges, tile lengths and the geometry are
  unbounded integers. In C, `luaL_checkinteger` results are narrowed to `int`
  (tower-aoi.c:473-475, 526, 530). `tile ± range` in `calc_rect`
  (tower-aoi.c:264-267) and the products of `_aoi_new` (tower-aoi.c:480-481, 496)
  can overflow. The model assumes every one of these values fits in `int`.
- `SlotTable.Table.Snapshot` lists the id stored in each slot; `make_table` lists
  the id of the object the slot points at (tower-aoi.c:288). The two differ only
  for a slot left behind by the as-written `update_object` whose object was later
  released and entered again under a new id. The model does not follow an
  object's memory after it goes back on the free list.
- Memory management is left out: `malloc`, `free`, allocation failure,
  `table_release` and `_aoi_delete`.
- The pool's chain of blocks is reduced to a block count. The `next` field that
  links free objects is a separate free-list sequence.
- `_aoi_viewlist` is left out: it is an empty function.
- `level` is left out: it is stored and never read.
- `Objects.ExampleTables`: the concrete instance uses one-slot tables, not the
  64-slot tables `table_create` makes, to keep the instance small. The lemmas it
  instantiates hold for tables of every power-of-two size.
- `Grid.TileInit`: the tables are modelled as `Table` objects with their own
  slot sequences, not as arrays allocated by `malloc`.

## Findings

| source | as written | input that shows it | evidently intended | confidence | as-written member | corrected member |
|---|---|---|---|---|---|---|
| tower-aoi.c:398-427 | update_watcher's first loop, over the tiles that come into the window, calls table_delete; the second, over the tiles that leave it, calls table_insert | a watcher of range 0 moves to another tile: it stays registered on the tile it left and is missing from the tile it now stands on (concretely, Objects.ExampleAsWritten: watcher 5 moving from (0,0) to (10,0) on a two-tile map) | insert into the tiles coming in, delete from the tiles leaving | high (not executed) | Interest.WatcherMoveStale | Interest.WatcherMoveIntendedFollows |
| tower-aoi.c:444-457 | update_object runs update_marker, which has already written the new position into the object (tower-aoi.c:357-358), so update_watcher sees the same tile twice and does nothing | any object from _aoi_enter (type WATCHERMAKKER) with range 0 moves to another tile: its watcher stays on the old tile (concretely, Objects.ExampleUpdateObject) | update_watcher moves the watcher from the object's position before the call | high (not executed) | Objects.UpdateObjectWatcherStays | Objects.UpdateObjectIntended |
