/**
 * cherly_t and the operations of cherly.c as a class whose methods update
 * its fields in place. Each method is proved to leave the cache in the state
 * the matching function of `Engine` computes, so everything proved there
 * about results, invariants and counters holds for the class.
 */
module Cherly {
  import opened Wrappers
  import opened Bytes
  import Slabs
  import opened Lru
  import Engine

  class Cache {
    var hm: map<Engine.Key, Item>
    var lru: seq<Item>
    var slab: Slabs.Pool
    var size: nat
    var itemsLength: nat
    var maxSize: nat

    /** The fields as one engine state. */
    function Abs(): Engine.State
      reads this
    {
      Engine.State(hm, lru, slab, size, itemsLength, maxSize)
    }

    ghost predicate Valid()
      reads this
    {
      Engine.Inv(Abs())
    }

    /** cherly_init. */
    constructor (maxSize: nat)
      requires maxSize < WORD_LIMIT
      ensures Valid() && Abs() == Engine.Init(maxSize)
    {
      hm := map[];
      slab := Slabs.Init();
      lru := [];
      size := 0;
      itemsLength := 0;
      this.maxSize := maxSize;
    }

    /** cherly_size: the bytes of keys and values of the listed items. */
    function Size(): (r: nat)
      reads this
      requires Valid()
      ensures r == Sum(lru)
      ensures r <= maxSize || (|lru| == 1 && r <= Engine.ITEM_BYTES_MAX)
    {
      size
    }

    /** cherly_items_length: how many items are listed. */
    function ItemsLength(): (r: nat)
      reads this
      requires Valid()
      ensures r == |lru| && r == |hm|
    {
      Engine.MapSize(Abs());
      itemsLength
    }

    /**
     * cherly_max_size: the budget. Only one item longer than the whole budget,
     * alone in the list, takes the listed bytes over it.
     */
    function MaxSize(): (r: nat)
      reads this
      requires Valid()
      ensures Sum(lru) <= r || (|lru| == 1 && Sum(lru) <= Engine.ITEM_BYTES_MAX)
    {
      maxSize
    }

    /** cherly_eject_callback, run by the list for each item it ejects. */
    method EjectCallback(key: Engine.Key)
      requires Engine.Freeable(Abs(), key)
      modifies this
      ensures Abs() == Engine.EjectCallback(old(Abs()), key)
    {
      if key !in hm {
        return;
      }
      var it := hm[key];
      slab := Engine.SlabFree(slab, it.buf);
      var ret := key in hm;
      hm := hm - {key};
      if ret {
        itemsLength := Engine.Sub64(itemsLength, 1);
        size := Engine.Sub64(size, ItemSize(it));
      }
    }

    /**
     * The callbacks for a run of items the list has just given up, the
     * oldest (last) first.
     */
    method RunCallbacks(pending: seq<Item>)
      requires Engine.Consistent(Abs(), lru + pending)
      modifies this
      ensures Abs() == Engine.Reconcile(old(Abs()), pending)
    {
      ghost var goal := Engine.Reconcile(Abs(), pending);
      assert pending[..|pending|] == pending;
      var i := |pending|;
      while i > 0
        invariant 0 <= i <= |pending|
        invariant Engine.Consistent(Abs(), lru + pending[..i])
        invariant Engine.Reconcile(Abs(), pending[..i]) == goal
        decreases i
      {
        Engine.ReconcileStep(Abs(), pending, i);
        EjectCallback(pending[i - 1].key);
        i := i - 1;
      }
      assert pending[..0] == [];
    }

    /**
     * lru_eject_by_size with cherly_eject_callback: the list gives up items
     * from its tail, then the callback runs for each of them. `size` is
     * lowered by the callback only.
     */
    method Eject(target: int) returns (freed: nat)
      requires Valid()
      modifies this
      ensures Valid()
      ensures Abs() == Engine.Eject(old(Abs()), target).state
      ensures freed == Engine.Eject(old(Abs()), target).freed
    {
      ghost var s0 := Abs();
      assert Engine.Inv(Engine.Eject(s0, target).state) by {
        Engine.EjectEffect(s0, target);
      }
      var e := EjectBySize(lru, target);
      lru := e.rest;
      assert lru + e.evicted == s0.lru;
      RunCallbacks(e.evicted);
      freed := e.freed;
    }

    /** cherly_remove: whether the key was present. */
    method Remove(key: Engine.Key) returns (found: bool)
      requires Valid()
      modifies this
      ensures Valid()
      ensures Abs() == Engine.Remove(old(Abs()), key).state
      ensures found == Engine.Remove(old(Abs()), key).found
    {
      ghost var r := Engine.Remove(Abs(), key);
      assert Engine.Inv(r.state) by {
        Engine.RemoveEffect(Abs(), key);
      }
      if key !in hm {
        return false;
      }
      var it := hm[key];
      Engine.StoredHeaderOk(slab, it);
      slab := Engine.SlabFree(slab, it.buf);
      lru := Lru.Remove(lru, it);
      size := Engine.Sub64(size, ItemSize(it));
      itemsLength := Engine.Sub64(itemsLength, 1);
      hm := hm - {key};
      assert Abs() == r.state;
      return true;
    }

    /** cherly_get at time `now`. */
    method Get(key: Engine.Key, now: int) returns (value: Option<seq<byte>>)
      requires Valid()
      modifies this
      ensures Valid()
      ensures Abs() == Engine.Get(old(Abs()), key, now).state
      ensures value == Engine.Get(old(Abs()), key, now).value
    {
      Engine.GetEffect(Abs(), key, now);
      if key !in hm {
        return None;
      }
      var it := hm[key];
      if it.timeout > 0 && now - it.timeout > it.timestamp {
        var _ := Remove(key);
        return None;
      }
      lru := Touch(lru, it);
      return Some(it.value);
    }

    /**
     * cherly.c:34-43: a buffer of `n` bytes, with one forced ejection and one
     * retry; `granted` and `regranted` are whether each slabs_alloc succeeds.
     */
    method Allocate(n: nat, granted: bool, regranted: bool) returns (buf: Option<Slabs.BufId>)
      requires Valid()
      modifies this
      ensures Abs() == Engine.AllocStep(old(Abs()), n, granted, regranted).state
      ensures buf == Engine.AllocStep(old(Abs()), n, granted, regranted).buf
    {
      ghost var s0 := Abs();
      ghost var r := Engine.AllocStep(s0, n, granted, regranted);
      var g := Slabs.Alloc(slab, n, granted);
      if g.None? {
        var _ := Eject(Engine.ITEM_SIZE_MAX);
        assert Abs() == Engine.EjectForRetry(s0);
        g := Slabs.Alloc(slab, n, regranted);
        if g.None? {
          assert Abs() == r.state;
          return None;
        }
      }
      slab := g.value.pool;
      assert Abs() == r.state;
      return Some(g.value.buf);
    }

    /** cherly.c:51-56: remove an item already stored under the key. */
    method DropExisting(key: Engine.Key)
      requires Valid()
      modifies this
      ensures Valid()
      ensures Abs() == Engine.DropExisting(old(Abs()), key)
    {
      if key in hm {
        var _ := Remove(hm[key].key);
      }
    }

    /** cherly.c:57-61: eject from the tail when the new buffer would overrun the budget. */
    method MakeRoom(keyLen: nat, valueLen: nat)
      requires Valid()
      modifies this
      ensures Valid()
      ensures Abs() == Engine.MakeRoom(old(Abs()), keyLen, valueLen)
    {
      ghost var s0 := Abs();
      if size + Engine.BufSize(keyLen, valueLen) > maxSize {
        var target := Engine.RoomTarget(Abs(), keyLen, valueLen);
        Engine.MakeRoomEjects(s0, keyLen, valueLen);
        var _ := Eject(target);
      } else {
        Engine.MakeRoomSkips(s0, keyLen, valueLen);
      }
    }

    /**
     * cherly.c:44-61, once buffer `b` is granted: write the size header and
     * the key, remove an item already stored under the key, make room.
     */
    method Prepare(b: Slabs.BufId, key: Engine.Key, valueLen: nat)
      requires Valid() && Engine.Spare(Abs(), b)
      requires |slab.mem[b]| == Engine.BufSize(|key|, valueLen)
      modifies this
      ensures Valid()
      ensures Abs() == Engine.Prepare(old(Abs()), b, key, valueLen)
    {
      ghost var s0 := Abs();
      var n := Engine.BufSize(|key|, valueLen);
      Engine.PrepareSteps(s0, b, key, valueLen);
      slab := Slabs.Write(slab, b, 0, EncodeWord(n, SIZE_T) + key);
      assert Abs() == Engine.WriteBuf(s0, b, 0, EncodeWord(n, SIZE_T) + key);
      DropExisting(key);
      MakeRoom(|key|, valueLen);
    }

    /**
     * cherly.c:44-76, once buffer `b` is granted: prepare, write the value,
     * link the item; `linkOk` is whether lru_insert could allocate its node.
     */
    method Place(b: Slabs.BufId, key: Engine.Key, value: seq<byte>, timeout: int, now: int, linkOk: bool) returns (ok: bool)
      requires Valid() && Engine.Spare(Abs(), b) && 0 < |key| <= Engine.INT_MAX && |value| <= Engine.INT_MAX
      requires |slab.mem[b]| == Engine.BufSize(|key|, |value|)
      modifies this
      ensures Valid()
      ensures Abs() == Engine.Place(old(Abs()), b, key, value, timeout, now, linkOk).state
      ensures ok == Engine.Place(old(Abs()), b, key, value, timeout, now, linkOk).ok
    {
      ghost var r := Engine.Place(Abs(), b, key, value, timeout, now, linkOk);
      Engine.PlaceSteps(Abs(), b, key, value, timeout, now, linkOk);
      Prepare(b, key, |value|);
      ghost var s3 := Abs();
      slab := Slabs.Write(slab, b, SIZE_T + |key| + 1, value);
      ghost var s4 := Abs();
      assert s4 == Engine.WriteBuf(s3, b, SIZE_T + |key| + 1, value);
      if !linkOk {
        assert Abs() == r.state;
        return false;
      }
      var it := Item(key, value, b, timeout, now);
      Link(it);
      return true;
    }

    /** cherly.c:67-75: the item goes to the head of the list, the key maps to it, both counters grow. */
    method Link(it: Item)
      modifies this
      ensures Abs() == Engine.Link(old(Abs()), it)
    {
      lru := Insert(lru, it);
      hm := hm[it.key := it];
      size := Engine.Add64(size, ItemSize(it));
      itemsLength := Engine.Add64(itemsLength, 1);
    }

    /**
     * cherly_put at time `now`; `granted` and `regranted` are the outcomes of
     * the two slabs_alloc calls, `linkOk` whether lru_insert could allocate
     * its node.
     */
    method Put(key: Engine.Key, value: seq<byte>, timeout: int, now: int,
               granted: bool, regranted: bool, linkOk: bool) returns (ok: bool)
      requires Valid() && 0 < |key| <= Engine.INT_MAX && |value| <= Engine.INT_MAX
      modifies this
      ensures Valid()
      ensures Abs() == Engine.Put(old(Abs()), key, value, timeout, now, granted, regranted, linkOk).state
      ensures ok == Engine.Put(old(Abs()), key, value, timeout, now, granted, regranted, linkOk).ok
    {
      Engine.PutSteps(Abs(), key, value, timeout, now, granted, regranted, linkOk);
      var buf := Allocate(Engine.BufSize(|key|, |value|), granted, regranted);
      if buf.None? {
        return false;
      }
      ok := Place(buf.value, key, value, timeout, now, linkOk);
    }
  }
}
