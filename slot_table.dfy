/** The per-tile id index of tower-aoi: a power-of-two array of
    `{id, obj, next}` slots with a `lastfree` cursor (struct slot, struct
    table).

    The model follows the code as written. Two details of the code decide
    its real behaviour:
    - the free-slot scan only accepts a slot with `id == -1 && next != -1`,
      and no operation ever produces such a slot, so no chain is ever built;
    - after the scan fails, `rehash` doubles the table but the id being
      inserted is never stored.
    So every table keeps the invariant `NoChains`: every `next` is -1 and
    every live entry sits at its own main position. The guest-displacement
    branch of insert, the scan hit and the head pull-up of delete are
    therefore unreachable; the methods below carry them as `assert false`
    branches. */
module SlotTable {
  import opened Base

  /** A slot's object pointer: NULL, or the handle of a pooled object. */
  datatype ObjRef = Null | Ref(handle: nat)

  datatype Slot = Slot(id: int, obj: ObjRef, next: int)

  /** The state table_create and rehash give every slot. */
  const FreeSlot := Slot(-1, Null, -1)

  /** Number of slots of a newly created table. */
  const InitialSize: nat := 64

  /** The slots of a newly created table: all free. */
  function NewSlots(): (s: seq<Slot>)
    ensures |s| == InitialSize && forall i :: 0 <= i < |s| ==> s[i] == FreeSlot
  {
    seq(InitialSize, _ => FreeSlot)
  }

  /** The table invariant: a power-of-two number of slots, no chains, and
      every live slot (obj != NULL) holds a non-negative id whose main
      position is that slot. */
  ghost predicate NoChains(s: seq<Slot>)
  {
    IsPow2(|s|) &&
    (forall i :: 0 <= i < |s| ==> s[i].next == -1) &&
    (forall i :: 0 <= i < |s| && s[i].obj.Ref? ==> s[i].id >= 0 && s[i].id % |s| == i)
  }

  /** The abstract value of a slot array: live id -> object handle. */
  ghost function Entries(s: seq<Slot>): (m: map<int, nat>)
    requires NoChains(s)
    ensures forall id :: id in m <==> id >= 0 && s[id % |s|].obj.Ref? && s[id % |s|].id == id
    ensures forall id :: id in m ==> m[id] == s[id % |s|].obj.handle
  {
    var m := map i | 0 <= i < |s| && s[i].obj.Ref? :: s[i].id := s[i].obj.handle;
    assert forall id :: id >= 0 && s[id % |s|].obj.Ref? && s[id % |s|].id == id ==> id in m by {
      forall id | id >= 0 && s[id % |s|].obj.Ref? && s[id % |s|].id == id
        ensures id in m
      {
        var i := id % |s|;
        assert 0 <= i < |s| && s[i].obj.Ref? && s[i].id == id;
      }
    }
    m
  }

  /** What an insert of (id, h) does to the entries: it is stored when
      its main slot has no object, and dropped otherwise (the collision
      path ends in a rehash that does not re-insert it). */
  ghost function InsertOutcome(s: seq<Slot>, id: nat, h: nat): map<int, nat>
    requires NoChains(s)
  {
    if s[id % |s|].obj.Null? then Entries(s)[id := h] else Entries(s)
  }

  /** make_table: the ids of the occupied slots, in slot order. */
  function LiveIds(s: seq<Slot>): seq<int>
  {
    if s == [] then []
    else (if s[0].obj.Ref? then [s[0].id] else []) + LiveIds(s[1..])
  }

  /** Slot k of the table rehash builds from s after re-inserting the
      occupied slots s[0..done): an old entry lands at its main position
      in the doubled table, which is its old index or that plus |s|. */
  function RehashSlot(s: seq<Slot>, done: int, k: int): Slot
    requires |s| > 0
  {
    var j := k % |s|;
    if j < done && s[j].obj.Ref? && s[j].id >= 0 && s[j].id % (2 * |s|) == k
    then Slot(s[j].id, s[j].obj, -1)
    else FreeSlot
  }

  function PartialRehash(s: seq<Slot>, done: int): (r: seq<Slot>)
    requires |s| > 0
    ensures |r| == 2 * |s|
  {
    seq(2 * |s|, k => RehashSlot(s, done, k))
  }

  /** The slot array rehash produces: every occupied old slot re-inserted. */
  function Rehashed(s: seq<Slot>): (r: seq<Slot>)
    requires |s| > 0
    ensures |r| == 2 * |s|
  {
    PartialRehash(s, |s|)
  }

  /** The slot array table_insert leaves: (id, h) written into its empty
      main slot, or else the rehashed array (the new id is not re-inserted). */
  function InsertSlots(s: seq<Slot>, id: nat, h: nat): seq<Slot>
    requires NoChains(s)
  {
    var j := id % |s|;
    if s[j].obj.Null? then s[j := Slot(id, Ref(h), -1)] else Rehashed(s)
  }

  /** The slot array table_delete leaves: the object of id's main slot
      cleared when that slot carries id, otherwise no change. */
  function DeleteSlots(s: seq<Slot>, id: nat): seq<Slot>
    requires NoChains(s)
  {
    var j := id % |s|;
    if s[j].id == id then s[j := s[j].(obj := Null)] else s
  }

  // ---------------------------------------------------------------------
  // Lemmas about the pure layer

  /** An id in the snapshot is exactly an id held by some occupied slot. */
  lemma {:induction false} LiveIdsMembers(s: seq<Slot>, x: int)
    ensures x in LiveIds(s) <==> exists i :: 0 <= i < |s| && s[i].obj.Ref? && s[i].id == x
  {
    if s != [] {
      LiveIdsMembers(s[1..], x);
      if x in LiveIds(s[1..]) {
        var i :| 0 <= i < |s[1..]| && s[1..][i].obj.Ref? && s[1..][i].id == x;
        assert s[i + 1] == s[1..][i];
      }
      if exists i :: 0 <= i < |s| && s[i].obj.Ref? && s[i].id == x {
        var i :| 0 <= i < |s| && s[i].obj.Ref? && s[i].id == x;
        if i > 0 {
          assert s[1..][i - 1] == s[i];
        }
      }
    }
  }

  /** The snapshot is a listing of the table's live ids: each exactly once. */
  lemma SnapshotListsEntries(s: seq<Slot>)
    requires NoChains(s)
    ensures forall x :: x in LiveIds(s) <==> x in Entries(s)
    ensures forall i, j :: 0 <= i < j < |LiveIds(s)| ==> LiveIds(s)[i] != LiveIds(s)[j]
  {
    forall x ensures x in LiveIds(s) <==> x in Entries(s) {
      LiveIdsMembers(s, x);
      if x in Entries(s) {
        assert s[x % |s|].obj.Ref? && s[x % |s|].id == x;
      }
    }
    LiveIdsDistinct(s, 0);
    assert s[0..] == s;
  }

  /** The live ids of a suffix s[from..] are pairwise distinct when every
      live id sits at its own main position. */
  lemma {:induction false} LiveIdsDistinct(s: seq<Slot>, from: nat)
    requires NoChains(s) && from <= |s|
    ensures forall i, j :: 0 <= i < j < |LiveIds(s[from..])| ==> LiveIds(s[from..])[i] != LiveIds(s[from..])[j]
    decreases |s| - from
  {
    if from < |s| {
      LiveIdsDistinct(s, from + 1);
      var t := s[from..];
      assert t[1..] == s[from + 1..];
      if s[from].obj.Ref? {
        var x := s[from].id;
        LiveIdsMembers(t[1..], x);
        forall i | 0 <= i < |t[1..]| && t[1..][i].obj.Ref?
          ensures t[1..][i].id != x
        {
          assert t[1..][i] == s[from + 1 + i];
        }
        assert x !in LiveIds(t[1..]);
        assert LiveIds(t) == [x] + LiveIds(t[1..]);
      }
    }
  }

  /** Storing (id, h) into the empty main slot of id adds exactly that entry. */
  lemma StoreAtMain(s: seq<Slot>, id: nat, h: nat)
    requires NoChains(s) && s[id % |s|].obj.Null?
    ensures NoChains(s[id % |s| := Slot(id, Ref(h), s[id % |s|].next)])
    ensures Entries(s[id % |s| := Slot(id, Ref(h), s[id % |s|].next)]) == Entries(s)[id := h]
  {
    var t := s[id % |s| := Slot(id, Ref(h), s[id % |s|].next)];
    assert |t| == |s|;
    assert NoChains(t);
    var a, b := Entries(t), Entries(s)[id := h];
    forall x ensures x in a <==> x in b {
      if x >= 0 && x != id && x % |s| == id % |s| {
        assert x !in a;
        assert x !in Entries(s);
      }
    }
    forall x | x in a ensures a[x] == b[x] {
    }
  }

  /** Clearing the object of the main slot of id removes id, and only id. */
  lemma ClearAtMain(s: seq<Slot>, id: nat)
    requires NoChains(s) && s[id % |s|].id == id
    ensures NoChains(s[id % |s| := s[id % |s|].(obj := Null)])
    ensures Entries(s[id % |s| := s[id % |s|].(obj := Null)]) == Entries(s) - {id}
  {
    var t := s[id % |s| := s[id % |s|].(obj := Null)];
    assert |t| == |s|;
    assert NoChains(t);
    var a, b := Entries(t), Entries(s) - {id};
    forall x ensures x in a <==> x in b {
    }
  }

  /** Part-way through the re-insertion loop the new slot array is still a
      table without chains. */
  lemma PartialRehashNoChains(s: seq<Slot>, done: int)
    requires NoChains(s)
    ensures NoChains(PartialRehash(s, done))
  {
    var r := PartialRehash(s, done);
    Pow2Double(|s|);
    forall k | 0 <= k < |r| && r[k].obj.Ref?
      ensures r[k].id >= 0 && r[k].id % |r| == k
    {
      assert r[k] == RehashSlot(s, done, k);
    }
  }

  /** One step of the re-insertion loop: slot `done` of the old array, if
      occupied, lands in an empty slot of the new one (its main position),
      and storing it there gives the next partial table. */
  lemma PartialRehashStep(s: seq<Slot>, done: nat)
    requires NoChains(s) && done < |s|
    ensures s[done].obj.Ref? ==>
      var r := PartialRehash(s, done);
      var id := s[done].id;
      id >= 0 && r[id % |r|].obj.Null? &&
      r[id % |r| := Slot(id, s[done].obj, r[id % |r|].next)] == PartialRehash(s, done + 1)
    ensures s[done].obj.Null? ==> PartialRehash(s, done) == PartialRehash(s, done + 1)
  {
    var n := |s|;
    var r, r' := PartialRehash(s, done), PartialRehash(s, done + 1);
    if s[done].obj.Ref? {
      var id: nat := s[done].id;
      var k := id % (2 * n);
      ModOfModDouble(id, n);
      assert k % n == done;
      assert r[k] == RehashSlot(s, done, k);
      var t := r[k := Slot(id, s[done].obj, r[k].next)];
      forall i | 0 <= i < 2 * n ensures t[i] == r'[i] {
        assert r'[i] == RehashSlot(s, done + 1, i);
        assert r[i] == RehashSlot(s, done, i);
      }
      assert t == r';
    } else {
      forall i | 0 <= i < 2 * n ensures r[i] == r'[i] {
        assert r'[i] == RehashSlot(s, done + 1, i);
        assert r[i] == RehashSlot(s, done, i);
      }
    }
  }

  /** In the doubled table, the main position of id holds id exactly
      when id's old main position did, with the same object. */
  lemma RehashedSlotOf(s: seq<Slot>, id: nat)
    requires NoChains(s)
    ensures var r, n := Rehashed(s), |s|;
      (r[id % |r|].obj.Ref? && r[id % |r|].id == id <==> s[id % n].obj.Ref? && s[id % n].id == id) &&
      (s[id % n].obj.Ref? && s[id % n].id == id ==> r[id % |r|].obj == s[id % n].obj)
  {
    var n := |s|;
    ModOfModDouble(id, n);
    assert Rehashed(s)[id % (2 * n)] == RehashSlot(s, n, id % (2 * n));
  }

  /** rehash keeps the set of live (id, obj) pairs: the doubled table has
      exactly the entries of the old one. */
  /** table_insert keeps the no-chain invariant; its effect on the entries
      is InsertOutcome: stored into a free main slot, otherwise dropped
      while the table doubles. */
  lemma InsertSlotsSpec(s: seq<Slot>, id: nat, h: nat)
    requires NoChains(s)
    ensures NoChains(InsertSlots(s, id, h))
    ensures Entries(InsertSlots(s, id, h)) == InsertOutcome(s, id, h)
    ensures |InsertSlots(s, id, h)| == if s[id % |s|].obj.Null? then |s| else 2 * |s|
  {
    if s[id % |s|].obj.Null? {
      StoreAtMain(s, id, h);
    } else {
      RehashKeepsEntries(s);
    }
  }

  /** Two ids with the same main position: in a new table, 1 is stored,
      and 65 (also at slot 1 of 64) is dropped, so a later table_find of
      65 answers NULL although it was inserted. */
  lemma InsertCollisionDrops()
    ensures NoChains(InsertSlots(NewSlots(), 1, 7))
    ensures var s := InsertSlots(InsertSlots(NewSlots(), 1, 7), 65, 8);
      NoChains(s) && |s| == 2 * InitialSize && Entries(s) == map[1 := 7]
  {
    var s0 := NewSlots();
    NewSlotsEmpty();
    InsertSlotsSpec(s0, 1, 7);
    var s1 := InsertSlots(s0, 1, 7);
    assert 65 % |s1| == 1 && s1[1].obj.Ref?;
    InsertSlotsSpec(s1, 65, 8);
  }

  /** table_insert always changes the slots: it fills a free main slot or
      doubles the table. */
  lemma InsertChangesSlots(s: seq<Slot>, id: nat, h: nat)
    requires NoChains(s)
    ensures InsertSlots(s, id, h) != s
  {
    InsertSlotsSpec(s, id, h);
    var j := id % |s|;
    if s[j].obj.Null? {
      assert InsertSlots(s, id, h)[j].obj.Ref?;
    }
  }

  /** table_delete keeps the no-chain invariant and removes exactly id;
      deleting an absent id changes no slot. */
  lemma DeleteSlotsSpec(s: seq<Slot>, id: nat)
    requires NoChains(s)
    ensures NoChains(DeleteSlots(s, id)) && |DeleteSlots(s, id)| == |s|
    ensures Entries(DeleteSlots(s, id)) == Entries(s) - {id}
    ensures id !in Entries(s) ==> DeleteSlots(s, id) == s
  {
    var j := id % |s|;
    if s[j].id == id {
      ClearAtMain(s, id);
      if id !in Entries(s) {
        assert s[j].obj.Null? && s[j].(obj := Null) == s[j];
      }
    }
  }

  lemma RehashKeepsEntries(s: seq<Slot>)
    requires NoChains(s)
    ensures NoChains(Rehashed(s))
    ensures Entries(Rehashed(s)) == Entries(s)
  {
    var r := Rehashed(s);
    PartialRehashNoChains(s, |s|);
    var a, b := Entries(r), Entries(s);
    forall id ensures id in a <==> id in b {
      if id >= 0 {
        RehashedSlotOf(s, id);
      }
    }
    forall id | id in a ensures a[id] == b[id] {
      RehashedSlotOf(s, id);
    }
  }

  /** A new table has no chains and no entries. */
  lemma NewSlotsEmpty()
    ensures NoChains(NewSlots()) && Entries(NewSlots()) == map[]
  {
    assert IsPow2(2) && IsPow2(4) && IsPow2(8) && IsPow2(16) && IsPow2(32) && IsPow2(64);
    AllFreeIsEmpty(NewSlots());
  }

  /** A freshly reset slot array of a power-of-two size is an empty table. */
  lemma AllFreeIsEmpty(s: seq<Slot>)
    requires IsPow2(|s|) && forall i :: 0 <= i < |s| ==> s[i] == FreeSlot
    ensures NoChains(s) && Entries(s) == map[]
  {
  }

  /** The reset array rehash starts from is the partial table with nothing
      re-inserted yet. */
  lemma PartialRehashNone(s: seq<Slot>, r: seq<Slot>)
    requires |s| > 0 && |r| == 2 * |s| && forall i :: 0 <= i < |r| ==> r[i] == FreeSlot
    ensures r == PartialRehash(s, 0)
  {
  }

  // ---------------------------------------------------------------------

  /** struct table. Between operations `Valid()` holds. */
  class Table {
    var size: nat
    var lastfree: int
    var slots: seq<Slot>

    /** Everything but the cursor: what rehash may assume. */
    ghost predicate Shape()
      reads this
    {
      |slots| == size && size >= InitialSize && NoChains(slots)
    }

    /** The cursor always rests at the last slot: the scan only moves it
        on the collision path, which ends in a rehash that resets it. */
    ghost predicate Valid()
      reads this
    {
      Shape() && lastfree == size - 1
    }

    ghost function Contents(): map<int, nat>
      reads this
      requires Valid()
    {
      Entries(slots)
    }

    /** The state table_create leaves a table in. */
    ghost predicate IsNew()
      reads this
    {
      size == InitialSize && lastfree == InitialSize - 1 && slots == NewSlots()
    }

    /** table_create: 64 free slots, cursor at 63. */
    constructor ()
      ensures IsNew() && Valid() && Contents() == map[]
    {
      var s: seq<Slot> := [];
      var i := 0;
      while i < InitialSize
        invariant 0 <= i <= InitialSize && |s| == i
        invariant forall k :: 0 <= k < i ==> s[k] == FreeSlot
      {
        s := s + [FreeSlot];
        i := i + 1;
      }
      size := InitialSize;
      lastfree := InitialSize - 1;
      slots := s;
      new;
      assert slots == NewSlots();
      NewSlotsEmpty();
    }

    /** mainposition: `id & (size - 1)`, which is `id % size`. */
    function MainPosition(id: nat): (h: nat)
      reads this
      requires Valid()
      ensures h == id % size && h < size
    {
      AndLowMask(id, size);
      BitAnd(id, size - 1)
    }

    /** table_insert. Stores (id, h) when the main slot of id has no object.
        Otherwise the main slot holds a live owner (possibly id itself): the
        scan drains `lastfree` to -1 without finding a slot, rehash doubles
        the table, and (id, h) is not stored. */
    method Insert(id: nat, h: nat)
      requires Valid()
      modifies this
      ensures Valid()
      ensures slots == InsertSlots(old(slots), id, h)
      ensures Contents() == InsertOutcome(old(slots), id, h)
      decreases if |slots| > 0 && slots[id % |slots|].obj.Null? then 0 else 2
    {
      var s := MainPosition(id);
      if slots[s].obj.Null? {
        StoreAtMain(slots, id, h);
        slots := slots[s := slots[s].(id := id, obj := Ref(h))];
        return;
      }

      if MainPosition(slots[s].id) != s {
        // Displacement of a guest: a live slot always sits at its own main
        // position, so the occupant is never a guest.
        assert false;
        return;
      }

      ghost var before := slots;
      while lastfree >= 0
        invariant -1 <= lastfree < size
        invariant slots == before && Shape()
        decreases lastfree
      {
        var tmp := lastfree;
        lastfree := lastfree - 1;
        if slots[tmp].id == -1 && slots[tmp].next != -1 {
          // The scan's condition for a slot: every next is -1, so never met.
          assert false;
          return;
        }
      }
      RehashKeepsEntries(slots);
      Rehash();
    }

    /** rehash: double the size, reset every slot and the cursor, then
        re-insert the occupied old slots in index order. */
    method Rehash()
      requires Shape()
      modifies this
      ensures Valid() && size == 2 * old(size)
      ensures slots == Rehashed(old(slots))
      decreases 1
    {
      var oslots := slots;
      var osize := size;
      Pow2Double(osize);
      size := 2 * osize;
      lastfree := size - 1;
      var reset: seq<Slot> := [];
      var i := 0;
      while i < size
        invariant 0 <= i <= size && |reset| == i
        invariant forall k :: 0 <= k < i ==> reset[k] == FreeSlot
      {
        reset := reset + [FreeSlot];
        i := i + 1;
      }
      slots := reset;
      PartialRehashNone(oslots, slots);

      i := 0;
      while i < osize
        invariant 0 <= i <= osize
        invariant size == 2 * osize && lastfree == size - 1 && |slots| == size
        invariant slots == PartialRehash(oslots, i)
      {
        PartialRehashNoChains(oslots, i);
        PartialRehashStep(oslots, i);
        if oslots[i].obj.Ref? {
          Insert(oslots[i].id, oslots[i].obj.handle);
        }
        i := i + 1;
      }
      PartialRehashNoChains(oslots, osize);
    }

    /** table_delete: clears the object of the slot holding id and returns
        it; NULL (and no change) when id is absent. */
    method Delete(id: nat) returns (r: ObjRef)
      requires Valid()
      modifies this
      ensures Valid() && size == old(size)
      ensures r == (if id in old(Contents()) then Ref(old(Contents())[id]) else Null)
      ensures Contents() == old(Contents()) - {id}
      ensures slots == DeleteSlots(old(slots), id)
    {
      var hash := MainPosition(id);
      var next := hash;
      if slots[next].id == id {
        r := slots[next].obj;
        ClearAtMain(slots, id);
        slots := slots[next := slots[next].(obj := Null)];
        // The match is the chain head (no chain step was taken); a head
        // with a successor would be pulled up, but every next is -1.
        if slots[next].next != -1 {
          assert false;
        }
        return;
      }
      if slots[next].next < 0 {
        return Null;
      }
      // Following next to the rest of the chain: no chains exist.
      assert false;
      r := Null;
    }

    /** table_find: the object stored under id, or NULL. */
    method Find(id: nat) returns (r: ObjRef)
      requires Valid()
      ensures r == (if id in Contents() then Ref(Contents()[id]) else Null)
    {
      var s := MainPosition(id);
      if slots[s].id == id {
        return slots[s].obj;
      }
      if slots[s].next == -1 {
        return Null;
      }
      // Chain step: unreachable, every next is -1.
      assert false;
      r := Null;
    }

    /** make_table on this table: its live ids, each once, in slot order. */
    function Snapshot(): (ids: seq<int>)
      reads this
      requires Valid()
      ensures forall x :: x in ids <==> x in Contents()
      ensures forall i, j :: 0 <= i < j < |ids| ==> ids[i] != ids[j]
    {
      SnapshotListsEntries(slots);
      LiveIds(slots)
    }
  }
}
