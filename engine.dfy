/**
 * The cache engine of cherly.c as functions over its whole state: the hash
 * map from key bytes to items, the recency list, the slab pool and the two
 * counters. The class in cherly.dfy performs the same operations in place
 * and is proved equal to these functions.
 */
module Engine {
  import opened Wrappers
  import opened Bytes
  import Slabs
  import opened Lru

  type Key = seq<byte>

  /** The largest C `int`: key and value lengths are passed as `int`. */
  const INT_MAX: nat := 0x7fff_ffff

  /** The most key and value bytes one item can have. */
  const ITEM_BYTES_MAX: nat := 2 * INT_MAX

  /** SETTING_ITEM_SIZE_MAX: the bytes a failed allocation may sacrifice. */
  const ITEM_SIZE_MAX: nat := 0x10_0000

  /** cherly_t: `hm`, `lru`, `slab`, `size`, `items_length`, `max_size`. */
  datatype State = State(
    hm: map<Key, Item>,
    lru: seq<Item>,
    slab: Slabs.Pool,
    size: nat,
    itemsLength: nat,
    maxSize: nat)

  /** The bytes of a slab buffer: size header, key, one separator byte, value. */
  function BufSize(keyLen: nat, valueLen: nat): nat
  {
    SIZE_T + keyLen + 1 + valueLen
  }

  /** `+=` and `-=` on an `unsigned long long`. */
  function Add64(a: nat, b: nat): nat
  {
    (a + b) % WORD_LIMIT
  }

  function Sub64(a: nat, b: nat): nat
  {
    (a - b) % WORD_LIMIT
  }

  /** A subtraction that does not go below zero does not wrap. */
  lemma Sub64Exact(a: nat, b: nat)
    requires b <= a < WORD_LIMIT
    ensures Sub64(a, b) == a - b
  {
  }

  /** An addition that stays below 2^64 does not wrap. */
  lemma Add64Exact(a: nat, b: nat)
    requires a + b < WORD_LIMIT
    ensures Add64(a, b) == a + b
  {
  }

  /** The buffers of a run of items. */
  function Bufs(l: seq<Item>): set<Slabs.BufId>
  {
    set it | it in l :: it.buf
  }

  lemma BufsSnoc(l: seq<Item>, x: Item)
    ensures Bufs(l + [x]) == Bufs(l) + {x.buf}
  {
    assert forall it :: it in l + [x] <==> it in l || it == x;
  }

  /** Buffer bytes `z` hold the size header of `it`, its key and, after the separator, its value. */
  ghost predicate Laid(z: seq<byte>, it: Item)
  {
    var n := BufSize(|it.key|, |it.value|);
    && n < WORD_LIMIT
    && |z| == n
    && z[..SIZE_T] == EncodeWord(n, SIZE_T)
    && z[SIZE_T..SIZE_T + |it.key|] == it.key
    && z[SIZE_T + |it.key| + 1..] == it.value
  }

  /** The buffer of `it` is allocated and laid out for it. */
  ghost predicate Stored(p: Slabs.Pool, it: Item)
  {
    it.buf in p.mem && Laid(p.mem[it.buf], it)
  }

  /** The size header of buffer `b` gives the length of the buffer. */
  predicate HeaderOk(p: Slabs.Pool, b: Slabs.BufId)
  {
    b in p.mem && |p.mem[b]| >= SIZE_T && DecodeWord(p.mem[b][..SIZE_T]) == |p.mem[b]|
  }

  /** A buffer laid out by `put` carries its own allocation size. */
  lemma StoredHeaderOk(p: Slabs.Pool, it: Item)
    requires Stored(p, it)
    ensures HeaderOk(p, it.buf)
  {
    var n := BufSize(|it.key|, |it.value|);
    WordLimitIsPow();
    DecodeEncode(n, SIZE_T);
  }

  /**
   * cherly_slab_free: reads the size header stored in front of the key and
   * hands the buffer back to the slab pool with that size.
   */
  function SlabFree(p: Slabs.Pool, b: Slabs.BufId): (q: Slabs.Pool)
    requires Slabs.Valid(p) && HeaderOk(p, b)
    ensures Slabs.Valid(q)
    ensures q.mem == p.mem - {b}
    ensures q.used + |p.mem[b]| == p.used
  {
    var header := p.mem[b][..SIZE_T];
    Slabs.Free(p, b, DecodeWord(header))
  }

  /**
   * The three structures agree about the items `live`: every live item is
   * mapped by its key, laid out in its own slab buffer, and counted; every
   * mapping leads to a live item; `size` is within the budget, or is that of
   * one item put into a list emptied to make room for it.
   */
  ghost predicate Consistent(s: State, live: seq<Item>)
  {
    && Slabs.Valid(s.slab)
    && s.maxSize < WORD_LIMIT
    && DistinctBufs(live)
    && (forall it | it in live :: |it.key| > 0 && it.key in s.hm && s.hm[it.key] == it && Stored(s.slab, it))
    && (forall k | k in s.hm :: s.hm[k].key == k && s.hm[k] in live)
    && s.size == Sum(live)
    && (s.size <= s.maxSize || (|live| == 1 && s.size <= ITEM_BYTES_MAX))
    && s.itemsLength == |live|
  }

  /** The engine invariant: the structures agree about the items in the list. */
  ghost predicate Inv(s: State)
  {
    Consistent(s, s.lru)
  }

  /** Buffer `b` is allocated but backs no listed item. */
  ghost predicate Spare(s: State, b: Slabs.BufId)
  {
    b in s.slab.mem && b !in Bufs(s.lru)
  }

  /** `r` keeps the budget and every spare buffer of `s`, with its bytes. */
  ghost predicate Keeps(s: State, r: State)
  {
    && r.maxSize == s.maxSize
    && (forall b | Spare(s, b) :: Spare(r, b) && r.slab.mem[b] == s.slab.mem[b])
    && (forall it | it in r.lru :: it in s.lru)
  }

  /** cherly_init: empty map, empty list, empty slab pool, zero counters, budget `maxSize`. */
  function Init(maxSize: nat): (s: State)
    requires maxSize < WORD_LIMIT
    ensures Inv(s)
    ensures s.hm == map[] && s.lru == [] && s.slab.mem == map[]
    ensures s.size == 0 && s.itemsLength == 0 && s.maxSize == maxSize
  {
    State(map[], [], Slabs.Init(), 0, 0, maxSize)
  }

  /** The state with item `x` freed, `key` unmapped and both counters lowered. */
  function Dropped(s: State, key: Key, x: Item): State
    requires Slabs.Valid(s.slab) && HeaderOk(s.slab, x.buf)
  {
    s.(hm := s.hm - {key},
       slab := SlabFree(s.slab, x.buf),
       size := Sub64(s.size, ItemSize(x)),
       itemsLength := Sub64(s.itemsLength, 1))
  }

  /** Dropping a live item lowers the counters by exactly its share. */
  lemma DropCounters(s: State, live: seq<Item>, i: nat)
    requires Consistent(s, live) && i < |live|
    ensures HeaderOk(s.slab, live[i].buf)
    ensures Dropped(s, live[i].key, live[i]).size == Sum(CutAt(live, i))
    ensures Dropped(s, live[i].key, live[i]).size + ItemSize(live[i]) == s.size
    ensures Dropped(s, live[i].key, live[i]).itemsLength + 1 == s.itemsLength
  {
    var x := live[i];
    assert x in live;
    StoredHeaderOk(s.slab, x);
    CutAtSum(live, i);
    CountAtMostSum(live);
    assert s.size - ItemSize(x) == Sum(CutAt(live, i)) < WORD_LIMIT;
    Sub64Exact(s.size, ItemSize(x));
    Sub64Exact(s.itemsLength, 1);
  }

  /** Dropping a live item keeps the structures in agreement about the others. */
  lemma DropConsistent(s: State, live: seq<Item>, i: nat)
    requires Consistent(s, live) && i < |live|
    ensures HeaderOk(s.slab, live[i].buf)
    ensures Consistent(Dropped(s, live[i].key, live[i]), CutAt(live, i))
    ensures Dropped(s, live[i].key, live[i]).size + ItemSize(live[i]) == s.size
    ensures Dropped(s, live[i].key, live[i]).itemsLength + 1 == s.itemsLength
  {
    var x := live[i];
    DropCounters(s, live, i);
    var r := Dropped(s, x.key, x);
    var rest := CutAt(live, i);
    CutAtDistinct(live, i);
    forall it | it in rest
      ensures |it.key| > 0 && it.key in r.hm && r.hm[it.key] == it && Stored(r.slab, it)
    {
      var j :| 0 <= j < |live| && live[j] == it;
      assert j != i;
      assert it.buf != x.buf;
    }
    forall k | k in r.hm
      ensures r.hm[k].key == k && r.hm[k] in rest
    {
      assert s.hm[k] != x;
    }
  }

  /** The callback's precondition: the key's buffer, if mapped, carries its header. */
  ghost predicate Freeable(s: State, key: Key)
  {
    Slabs.Valid(s.slab) && (key in s.hm ==> HeaderOk(s.slab, s.hm[key].buf))
  }

  /**
   * cherly_eject_callback: for a mapped key, frees the item's buffer, deletes
   * the mapping and, when the deletion is reported, lowers the counters.
   */
  function EjectCallback(s: State, key: Key): (r: State)
    requires Freeable(s, key)
    ensures r.lru == s.lru && r.maxSize == s.maxSize
    ensures key !in s.hm ==> r == s
    ensures key in s.hm ==> r == Dropped(s, key, s.hm[key])
  {
    if key !in s.hm then s
    else
      var it := s.hm[key];
      var slab := SlabFree(s.slab, it.buf);
      // The runtime map's report of the deletion (cherly.c:148-150): the key was present.
      var ret := key in s.hm;
      var hm := s.hm - {key};
      if ret then
        s.(slab := slab, hm := hm, itemsLength := Sub64(s.itemsLength, 1), size := Sub64(s.size, ItemSize(it)))
      else
        s.(slab := slab, hm := hm)
  }

  /** The callback for the last pending item reconciles the map, pool and counters with it gone. */
  lemma CallbackStep(s: State, live: seq<Item>, x: Item)
    requires Consistent(s, live + [x])
    ensures Freeable(s, x.key) && x.key in s.hm && s.hm[x.key] == x
    ensures var r := EjectCallback(s, x.key);
      && Consistent(r, live)
      && r.lru == s.lru
      && r.slab.mem == s.slab.mem - {x.buf}
      && r.size + ItemSize(x) == s.size
  {
    var all := live + [x];
    assert all[|live|] == x;
    DropConsistent(s, all, |live|);
    assert CutAt(all, |live|) == live;
    assert s.hm[x.key] == x;
  }

  lemma MinusTwice(m: map<Slabs.BufId, seq<byte>>, a: set<Slabs.BufId>, b: set<Slabs.BufId>)
    ensures (m - a) - b == m - (b + a)
  {
  }

  lemma BufsConcat(a: seq<Item>, b: seq<Item>)
    ensures Bufs(a + b) == Bufs(a) + Bufs(b)
  {
    assert forall it :: it in a + b <==> it in a || it in b;
  }

  /**
   * The engine side of an ejection: the callback runs for each ejected item,
   * the old tail first.
   */
  function Reconcile(s: State, pending: seq<Item>): (r: State)
    requires Consistent(s, s.lru + pending)
    ensures r.lru == s.lru && r.maxSize == s.maxSize
    decreases |pending|
  {
    if pending == [] then
      s
    else
      var last := pending[|pending| - 1];
      var init := pending[..|pending| - 1];
      assert s.lru + pending == (s.lru + init) + [last];
      CallbackStep(s, s.lru + init, last);
      Reconcile(EjectCallback(s, last.key), init)
  }

  /**
   * Once the callbacks have run, the structures agree about the list again,
   * and exactly the ejected items' buffers and bytes are gone.
   */
  lemma {:induction false} ReconcileEffect(s: State, pending: seq<Item>)
    requires Consistent(s, s.lru + pending)
    ensures var r := Reconcile(s, pending);
      && Consistent(r, s.lru)
      && r.slab.mem == s.slab.mem - Bufs(pending)
      && r.size + Sum(pending) == s.size
    decreases |pending|
  {
    if pending == [] {
      assert s.lru + pending == s.lru;
      assert Reconcile(s, pending) == s;
      assert Bufs(pending) == {};
      assert s.slab.mem - {} == s.slab.mem;
    } else {
      var last := pending[|pending| - 1];
      var init := pending[..|pending| - 1];
      assert pending == init + [last];
      assert s.lru + pending == (s.lru + init) + [last];
      CallbackStep(s, s.lru + init, last);
      var s1 := EjectCallback(s, last.key);
      assert s1.lru + init == s.lru + init;
      var r := Reconcile(s1, init);
      assert Reconcile(s, pending) == r;
      assert s1.lru == s.lru;
      assert Consistent(r, s.lru) && r.slab.mem == s1.slab.mem - Bufs(init)
        && r.size + Sum(init) == s1.size by {
        ReconcileEffect(s1, init);
      }
      SumSnoc(init, last);
      assert Bufs(pending) == Bufs(init) + {last.buf} by {
        BufsSnoc(init, last);
      }
      MinusTwice(s.slab.mem, {last.buf}, Bufs(init));
    }
  }

  /**
   * One step of the reconciliation of the prefix `l[..i]`: the callback for
   * its last item, which leaves the structures in agreement about the
   * shorter prefix.
   */
  lemma ReconcileStep(s: State, l: seq<Item>, i: nat)
    requires 0 < i <= |l| && Consistent(s, s.lru + l[..i])
    ensures Freeable(s, l[i - 1].key)
    ensures var r := EjectCallback(s, l[i - 1].key);
      && Consistent(r, r.lru + l[..i - 1])
      && Reconcile(s, l[..i]) == Reconcile(r, l[..i - 1])
  {
    var pending := l[..i];
    assert pending[|pending| - 1] == l[i - 1];
    assert pending[..|pending| - 1] == l[..i - 1];
    assert s.lru + pending == (s.lru + l[..i - 1]) + [l[i - 1]];
    CallbackStep(s, s.lru + l[..i - 1], l[i - 1]);
  }

  datatype Ejected = Ejected(state: State, freed: nat)

  /**
   * lru_eject_by_size driving cherly_eject_callback, with `size` lowered
   * once per ejected item: the list drops items from its tail until `target`
   * bytes are freed or it is empty, and the callback frees, unmaps and
   * uncounts each of them.
   */
  function Eject(s: State, target: int): (r: Ejected)
    requires Inv(s)
    ensures var e := EjectBySize(s.lru, target);
      r.state.lru == e.rest && r.freed == e.freed && r.state.maxSize == s.maxSize
  {
    var e := EjectBySize(s.lru, target);
    var s1 := s.(lru := e.rest);
    assert s1.lru + e.evicted == s.lru;
    Ejected(Reconcile(s1, e.evicted), e.freed)
  }

  /**
   * An ejection keeps the structures in agreement, frees exactly the ejected
   * buffers, lowers `size` by exactly the bytes freed, and stops only when
   * the target is met or the list is empty.
   */
  lemma EjectEffect(s: State, target: int)
    requires Inv(s)
    ensures var r := Eject(s, target); var e := EjectBySize(s.lru, target);
      && Inv(r.state) && Keeps(s, r.state)
      && r.state.slab.mem == s.slab.mem - Bufs(e.evicted)
      && r.state.size + r.freed == s.size
      && r.state.itemsLength + |e.evicted| == s.itemsLength
      && (r.freed >= target || r.state.lru == [])
  {
    var e := EjectBySize(s.lru, target);
    var s1 := s.(lru := e.rest);
    assert s1.lru + e.evicted == s.lru;
    ReconcileEffect(s1, e.evicted);
    BufsConcat(e.rest, e.evicted);
  }

  datatype Removed = Removed(state: State, found: bool)

  /**
   * cherly_remove: for a present key, frees the buffer, unlinks the item,
   * lowers both counters and deletes the mapping; reports whether the key
   * was present.
   */
  function Remove(s: State, key: Key): (r: Removed)
    requires Inv(s)
    ensures r.found <==> key in s.hm
    ensures !r.found ==> r.state == s
    ensures r.state.maxSize == s.maxSize
  {
    if key !in s.hm then
      Removed(s, false)
    else
      var it := s.hm[key];
      StoredHeaderOk(s.slab, it);
      var slab := SlabFree(s.slab, it.buf);
      var lru := Lru.Remove(s.lru, it);
      var size := Sub64(s.size, ItemSize(it));
      var itemsLength := Sub64(s.itemsLength, 1);
      var hm := s.hm - {key};
      Removed(State(hm, lru, slab, size, itemsLength, s.maxSize), true)
  }

  /**
   * Removing a present key takes its item out of all three structures and
   * out of both counters, and nothing else.
   */
  lemma RemoveEffect(s: State, key: Key)
    requires Inv(s)
    ensures var r := Remove(s, key);
      && Inv(r.state) && Keeps(s, r.state)
      && (r.found ==> var it := s.hm[key];
        && r.state.hm == s.hm - {key}
        && r.state.lru == Lru.Remove(s.lru, it)
        && it !in r.state.lru
        && r.state.slab.mem == s.slab.mem - {it.buf}
        && r.state.size + ItemSize(it) == s.size
        && r.state.itemsLength + 1 == s.itemsLength)
  {
    if key in s.hm {
      var it := s.hm[key];
      var i := IndexOf(s.lru, it);
      DropConsistent(s, s.lru, i);
      CutAtDistinct(s.lru, i);
      assert Remove(s, key).state == Dropped(s, key, it).(lru := CutAt(s.lru, i));
      assert it.buf in Bufs(s.lru);
    }
  }

  /** Removing twice is removing once: the second call finds nothing and changes nothing. */
  lemma RemoveIdempotent(s: State, key: Key)
    requires Inv(s)
    ensures var once := Remove(s, key).state;
      Inv(once) && Remove(once, key) == Removed(once, false)
  {
    RemoveEffect(s, key);
  }

  /** An item with a positive time-to-live that has run out by `now`. */
  predicate Expired(it: Item, now: int)
  {
    it.timeout > 0 && now - it.timeout > it.timestamp
  }

  datatype Fetched = Fetched(state: State, value: Option<seq<byte>>)

  /**
   * cherly_get: a missing key gives nothing; an expired item is removed and
   * gives nothing; otherwise the item moves to the head and its value is
   * returned.
   */
  function Get(s: State, key: Key, now: int): (r: Fetched)
    requires Inv(s)
    ensures key !in s.hm ==> r == Fetched(s, None)
    ensures r.value.Some? <==> key in s.hm && !Expired(s.hm[key], now)
    ensures r.value.Some? ==> r.value.value == s.hm[key].value
  {
    if key !in s.hm then
      Fetched(s, None)
    else
      var it := s.hm[key];
      if Expired(it, now) then
        Fetched(Remove(s, key).state, None)
      else
        Fetched(s.(lru := Touch(s.lru, it)), Some(it.value))
  }

  /**
   * What `get` does to the state: an expired item leaves every structure and
   * counter; a live one moves to the head of the list and nothing else
   * changes.
   */
  lemma GetEffect(s: State, key: Key, now: int)
    requires Inv(s)
    ensures var r := Get(s, key, now);
      && Inv(r.state) && r.state.maxSize == s.maxSize
      && (key in s.hm && Expired(s.hm[key], now) ==>
        && r.state == Remove(s, key).state
        && key !in r.state.hm
        && r.state.lru == Lru.Remove(s.lru, s.hm[key])
        && s.hm[key] !in r.state.lru
        && r.state.slab.mem == s.slab.mem - {s.hm[key].buf}
        && r.state.size + ItemSize(s.hm[key]) == s.size
        && r.state.itemsLength + 1 == s.itemsLength)
      && (key in s.hm && !Expired(s.hm[key], now) ==>
        && r.state.lru != [] && r.state.lru[0] == s.hm[key]
        && r.state.lru[1..] == Lru.Remove(s.lru, s.hm[key])
        && r.state.hm == s.hm && r.state.slab == s.slab
        && r.state.size == s.size && r.state.itemsLength == s.itemsLength)
  {
    if key in s.hm {
      var it := s.hm[key];
      if Expired(it, now) {
        RemoveEffect(s, key);
      } else {
        var l := Touch(s.lru, it);
        assert forall x :: x in l <==> x in s.lru;
      }
    }
  }

  /**
   * Least-recently-used order: right after a hit, the item is the last
   * candidate of any ejection; it goes only if every other item goes too.
   */
  lemma HitOutlivesOthers(s: State, key: Key, now: int, target: int)
    requires Inv(s) && key in s.hm && !Expired(s.hm[key], now)
    ensures var l := Get(s, key, now).state.lru;
      s.hm[key] in EjectBySize(l, target).evicted ==> EjectBySize(l, target).rest == []
  {
    GetEffect(s, key, now);
    var l := Get(s, key, now).state.lru;
    if s.hm[key] in EjectBySize(l, target).evicted {
      HeadEjectedLast(l, target);
    }
  }

  /** The ejection of ITEM_SIZE_MAX bytes that precedes the second allocation attempt. */
  function EjectForRetry(s: State): (r: State)
    requires Inv(s)
    ensures Inv(r) && Keeps(s, r)
    ensures r == Eject(s, ITEM_SIZE_MAX).state
  {
    EjectEffect(s, ITEM_SIZE_MAX);
    Eject(s, ITEM_SIZE_MAX).state
  }

  datatype Allocated = Allocated(state: State, buf: Option<Slabs.BufId>)

  /**
   * cherly.c:35-43: allocate `n` bytes; on failure eject ITEM_SIZE_MAX bytes
   * once and retry once. `granted` and `regranted` are whether the first and
   * the second slabs_alloc can serve the request.
   */
  function AllocStep(s: State, n: nat, granted: bool, regranted: bool): (r: Allocated)
    requires Inv(s)
    ensures r.state.maxSize == s.maxSize
    ensures r.buf.Some? <==> granted || regranted
  {
    match Slabs.Alloc(s.slab, n, granted)
    case Some(g) =>
      Allocated(s.(slab := g.pool), Some(g.buf))
    case None =>
      var forced := EjectForRetry(s);
      match Slabs.Alloc(forced.slab, n, regranted)
      case Some(g) =>
        Allocated(forced.(slab := g.pool), Some(g.buf))
      case None =>
        Allocated(forced, None)
  }

  /** A granted buffer is spare, of the size asked, and within the budget. */
  lemma GrantEffect(s: State, n: nat)
    requires Inv(s)
    ensures var g := Slabs.Alloc(s.slab, n, true).value; var r := s.(slab := g.pool);
      && Inv(r) && Keeps(s, r) && Spare(r, g.buf)
      && |r.slab.mem[g.buf]| == n
  {
    var g := Slabs.Alloc(s.slab, n, true).value;
    var r := s.(slab := g.pool);
    assert forall it | it in s.lru :: it.buf in s.slab.mem && it.buf != g.buf;
    assert forall it | it in s.lru :: Stored(r.slab, it);
  }

  /**
   * Allocation with one retry: a first success changes nothing else; a
   * first failure ejects ITEM_SIZE_MAX bytes once, and the result is that of
   * a single second attempt.
   */
  lemma AllocStepEffect(s: State, n: nat, granted: bool, regranted: bool)
    requires Inv(s)
    ensures var r := AllocStep(s, n, granted, regranted);
      && Inv(r.state) && Keeps(s, r.state)
      && (r.buf.Some? ==> Spare(r.state, r.buf.value) && |r.state.slab.mem[r.buf.value]| == n)
      && (granted ==>
        && r.state.hm == s.hm && r.state.lru == s.lru
        && r.state.size == s.size && r.state.itemsLength == s.itemsLength)
      && (!granted ==>
        var forced := EjectForRetry(s);
        && r.state.hm == forced.hm && r.state.lru == forced.lru
        && r.state.size == forced.size && r.state.itemsLength == forced.itemsLength)
      && (r.buf.None? ==> r.state == EjectForRetry(s))
  {
    if granted {
      GrantEffect(s, n);
    } else if regranted {
      GrantEffect(EjectForRetry(s), n);
    }
  }

  /** Writing `bytes` at `offset` into buffer `b` (the memcpy calls of `put`). */
  function WriteBuf(s: State, b: Slabs.BufId, offset: nat, bytes: seq<byte>): (r: State)
    requires Slabs.Valid(s.slab) && b in s.slab.mem && offset + |bytes| <= |s.slab.mem[b]|
    ensures r.hm == s.hm && r.lru == s.lru && r.size == s.size && r.itemsLength == s.itemsLength
    ensures r.slab.mem.Keys == s.slab.mem.Keys && |r.slab.mem[b]| == |s.slab.mem[b]|
    ensures r.slab.mem[b][offset..offset + |bytes|] == bytes
  {
    var r := s.(slab := Slabs.Write(s.slab, b, offset, bytes));
    assert r.slab.mem[b][offset..offset + |bytes|] == bytes;
    r
  }

  /** Writing into a spare buffer disturbs no listed item. */
  lemma WriteSpare(s: State, b: Slabs.BufId, offset: nat, bytes: seq<byte>)
    requires Inv(s) && Spare(s, b) && offset + |bytes| <= |s.slab.mem[b]|
    ensures var r := WriteBuf(s, b, offset, bytes);
      && Inv(r) && Spare(r, b) && r.maxSize == s.maxSize
      && r.slab.mem[b] == Slabs.Splice(s.slab.mem[b], offset, bytes)
  {
    var r := WriteBuf(s, b, offset, bytes);
    assert forall it | it in s.lru :: it.buf != b;
    assert forall it | it in s.lru :: Stored(r.slab, it);
  }

  /**
   * Buffer `z` after the two writes of `put`: the size header and the key
   * from offset 0, the value behind the separator byte.
   */
  function Written(z: seq<byte>, key: Key, value: seq<byte>): seq<byte>
    requires |z| == BufSize(|key|, |value|)
  {
    var z1 := Slabs.Splice(z, 0, EncodeWord(|z|, SIZE_T) + key);
    Slabs.Splice(z1, SIZE_T + |key| + 1, value)
  }

  /** The two writes of `put` leave header, key and value where `Stored` expects them. */
  lemma Layout(z: seq<byte>, key: Key, value: seq<byte>)
    requires |z| == BufSize(|key|, |value|)
    ensures var z2 := Written(z, key, value);
      && |z2| == |z|
      && z2[..SIZE_T] == EncodeWord(|z|, SIZE_T)
      && z2[SIZE_T..SIZE_T + |key|] == key
      && z2[SIZE_T + |key| + 1..] == value
  {
    var h := EncodeWord(|z|, SIZE_T);
    var z1 := Slabs.Splice(z, 0, h + key);
    var z2 := Slabs.Splice(z1, SIZE_T + |key| + 1, value);
    var hk := SIZE_T + |key|;
    assert z1[..hk] == h + key;
    assert z2[..hk] == z1[..hk];
    assert z2[..SIZE_T] == (h + key)[..SIZE_T] == h;
    assert z2[SIZE_T..hk] == (h + key)[SIZE_T..] == key;
  }

  /** cherly.c:51-56: an item already stored under the key is removed first. */
  function DropExisting(s: State, key: Key): (r: State)
    requires Inv(s)
    ensures r.maxSize == s.maxSize
  {
    if key in s.hm then Remove(s, s.hm[key].key).state else s
  }

  /** The items other than the one stored under `key`, in list order. */
  function Others(s: State, key: Key): seq<Item>
    requires Inv(s)
  {
    if key in s.hm then Lru.Remove(s.lru, s.hm[key]) else s.lru
  }

  /** After the replacement step no item is stored under the key any more. */
  lemma DropExistingEffect(s: State, key: Key)
    requires Inv(s)
    ensures var r := DropExisting(s, key);
      && Inv(r) && Keeps(s, r)
      && key !in r.hm
      && r.lru == Others(s, key)
      && r.size + (if key in s.hm then ItemSize(s.hm[key]) else 0) == s.size
  {
    if key in s.hm {
      RemoveEffect(s, s.hm[key].key);
    }
  }

  /**
   * cherly.c:59: the bytes to eject, the new item's key and value less the
   * budget left, without the buffer overhead.
   */
  function RoomTarget(s: State, keyLen: nat, valueLen: nat): int
  {
    (keyLen + valueLen) - (s.maxSize - s.size)
  }

  /**
   * cherly.c:57-61: when the new buffer would overrun the budget, eject from
   * the tail the bytes by which it would, counted without the buffer
   * overhead.
   */
  function MakeRoom(s: State, keyLen: nat, valueLen: nat): (r: State)
    requires Inv(s)
    ensures r.maxSize == s.maxSize
  {
    if s.size + BufSize(keyLen, valueLen) > s.maxSize then
      Eject(s, RoomTarget(s, keyLen, valueLen)).state
    else
      s
  }

  /** Making room keeps the structures in agreement and every spare buffer. */
  lemma MakeRoomEffect(s: State, keyLen: nat, valueLen: nat)
    requires Inv(s)
    ensures var r := MakeRoom(s, keyLen, valueLen); Inv(r) && Keeps(s, r)
  {
    if s.size + BufSize(keyLen, valueLen) > s.maxSize {
      EjectEffect(s, RoomTarget(s, keyLen, valueLen));
    }
  }

  /** When the buffer would overrun the budget, room is made by one ejection. */
  lemma MakeRoomEjects(s: State, keyLen: nat, valueLen: nat)
    requires Inv(s) && s.size + BufSize(keyLen, valueLen) > s.maxSize
    ensures MakeRoom(s, keyLen, valueLen) == Eject(s, RoomTarget(s, keyLen, valueLen)).state
  {
  }

  /** When the buffer fits the budget, making room changes nothing. */
  lemma MakeRoomSkips(s: State, keyLen: nat, valueLen: nat)
    requires Inv(s) && s.size + BufSize(keyLen, valueLen) <= s.maxSize
    ensures MakeRoom(s, keyLen, valueLen) == s
  {
  }

  /**
   * Nothing is ejected while the buffer fits the budget; otherwise a tail of
   * the list is ejected, `size` drops by exactly its bytes, and enough goes
   * that the new item's size fits afterwards, or else the whole list.
   */
  lemma MakeRoomFits(s: State, keyLen: nat, valueLen: nat)
    requires Inv(s)
    ensures var r := MakeRoom(s, keyLen, valueLen);
      && (r.size + keyLen + valueLen <= r.maxSize || (r.lru == [] && r.size == 0))
      && (s.size + BufSize(keyLen, valueLen) <= s.maxSize ==> r == s)
      && (s.size + BufSize(keyLen, valueLen) > s.maxSize ==>
            var e := EjectBySize(s.lru, RoomTarget(s, keyLen, valueLen));
            && r.lru == e.rest && s.lru == r.lru + e.evicted
            && r.size == Sum(r.lru) && r.size + e.freed == s.size)
  {
    if s.size + BufSize(keyLen, valueLen) > s.maxSize {
      var target := RoomTarget(s, keyLen, valueLen);
      var e := Eject(s, target);
      assert MakeRoom(s, keyLen, valueLen) == e.state;
      EjectEffect(s, target);
      if e.state.lru == [] {
        assert e.state.size == Sum([]) == 0;
      }
    } else {
      assert BufSize(keyLen, valueLen) >= keyLen + valueLen;
    }
  }

  /**
   * cherly.c:67-75: the item goes to the head of the list, the key maps to
   * it, and both counters grow.
   */
  function Link(s: State, it: Item): (r: State)
  {
    s.(lru := Insert(s.lru, it),
       hm := s.hm[it.key := it],
       size := Add64(s.size, ItemSize(it)),
       itemsLength := Add64(s.itemsLength, 1))
  }

  /** Linking a laid-out item whose key is free and whose size fits keeps the invariant, without wrap-around. */
  lemma LinkEffect(s: State, it: Item)
    requires Inv(s) && 0 < |it.key| <= INT_MAX && |it.value| <= INT_MAX
    requires it.key !in s.hm && Spare(s, it.buf) && Stored(s.slab, it)
    requires s.size + ItemSize(it) <= s.maxSize || s.size == 0
    ensures var r := Link(s, it);
      && Inv(r)
      && r.lru == [it] + s.lru
      && r.hm == s.hm[it.key := it]
      && r.slab == s.slab
      && r.size == s.size + ItemSize(it)
      && r.itemsLength == s.itemsLength + 1
  {
    var r := Link(s, it);
    assert r.size == s.size + ItemSize(it) && r.itemsLength == s.itemsLength + 1 by {
      CountAtMostSum(s.lru);
      Add64Exact(s.size, ItemSize(it));
      Add64Exact(s.itemsLength, 1);
    }
    assert forall x | x in s.lru :: x.buf != it.buf;
    forall x | x in r.lru
      ensures |x.key| > 0 && x.key in r.hm && r.hm[x.key] == x && Stored(r.slab, x)
    {
      if x != it {
        assert x in s.lru && x.key in s.hm;
      }
    }
    forall k | k in r.hm
      ensures r.hm[k].key == k && r.hm[k] in r.lru
    {
      if k != it.key {
        assert k in s.hm && s.hm[k] in s.lru;
      }
    }
  }

  /**
   * cherly.c:44-61, once buffer `b` is granted: the size header and the key
   * are written, an old item under the key is removed, and room is made.
   */
  function Prepare(s: State, b: Slabs.BufId, key: Key, valueLen: nat): (r: State)
    requires Inv(s) && Spare(s, b)
    requires |s.slab.mem[b]| == BufSize(|key|, valueLen)
    ensures Inv(r) && r.maxSize == s.maxSize
  {
    var n := BufSize(|key|, valueLen);
    WriteSpare(s, b, 0, EncodeWord(n, SIZE_T) + key);
    var s1 := WriteBuf(s, b, 0, EncodeWord(n, SIZE_T) + key);
    DropExistingEffect(s1, key);
    MakeRoomEffect(DropExisting(s1, key), |key|, valueLen);
    MakeRoom(DropExisting(s1, key), |key|, valueLen)
  }

  /** The preparation as its three steps. */
  lemma PrepareSteps(s: State, b: Slabs.BufId, key: Key, valueLen: nat)
    requires Inv(s) && Spare(s, b)
    requires |s.slab.mem[b]| == BufSize(|key|, valueLen)
    ensures var s1 := WriteBuf(s, b, 0, EncodeWord(BufSize(|key|, valueLen), SIZE_T) + key);
      && Inv(s1) && Inv(DropExisting(s1, key))
      && Prepare(s, b, key, valueLen) == MakeRoom(DropExisting(s1, key), |key|, valueLen)
  {
    var s1 := WriteBuf(s, b, 0, EncodeWord(BufSize(|key|, valueLen), SIZE_T) + key);
    WriteSpare(s, b, 0, EncodeWord(BufSize(|key|, valueLen), SIZE_T) + key);
    DropExistingEffect(s1, key);
  }

  /** Whether the list can take the new buffer once the item it replaces is gone. */
  predicate NoPressure(s: State, key: Key, n: nat)
    requires Inv(s)
  {
    s.size - (if key in s.hm then ItemSize(s.hm[key]) else 0) + n <= s.maxSize
  }

  /**
   * After the preparation the key is free, the new item's size fits the
   * budget, buffer `b` holds header and key, and the list holds only items
   * other than the replaced one; all of them when nothing had to be ejected.
   */
  lemma PrepareEffect(s: State, b: Slabs.BufId, key: Key, valueLen: nat)
    requires Inv(s) && Spare(s, b)
    requires |s.slab.mem[b]| == BufSize(|key|, valueLen)
    ensures var r := Prepare(s, b, key, valueLen); var z := s.slab.mem[b];
      var h := EncodeWord(|z|, SIZE_T);
      && Spare(r, b)
      && r.slab.mem[b] == Slabs.Splice(z, 0, h + key)
      && key !in r.hm
      && (r.size + |key| + valueLen <= r.maxSize || r.size == 0)
      && (forall it | it in r.lru :: it in Others(s, key))
      && (NoPressure(s, key, BufSize(|key|, valueLen)) ==> r.lru == Others(s, key))
  {
    var n := BufSize(|key|, valueLen);
    WriteSpare(s, b, 0, EncodeWord(n, SIZE_T) + key);
    var s1 := WriteBuf(s, b, 0, EncodeWord(n, SIZE_T) + key);
    DropExistingEffect(s1, key);
    var s2 := DropExisting(s1, key);
    MakeRoomFits(s2, |key|, valueLen);
    MakeRoomEffect(s2, |key|, valueLen);
    assert Others(s1, key) == Others(s, key);
  }

  datatype Outcome = Outcome(state: State, ok: bool)

  /**
   * cherly.c:44-76, once buffer `b` is granted: after the preparation the
   * value is written and the item is linked. `linkOk` is whether lru_insert
   * could allocate its node; when it could not, `put` fails and `b` stays
   * allocated.
   */
  function Place(s: State, b: Slabs.BufId, key: Key, value: seq<byte>, timeout: int, now: int, linkOk: bool): (r: Outcome)
    requires Inv(s) && Spare(s, b) && 0 < |key| <= INT_MAX && |value| <= INT_MAX
    requires |s.slab.mem[b]| == BufSize(|key|, |value|)
    ensures Inv(r.state) && r.state.maxSize == s.maxSize
    ensures r.ok == linkOk
  {
    ReadyToLink(s, b, key, value, timeout, now);
    var s3 := Prepare(s, b, key, |value|);
    var s4 := WriteBuf(s3, b, SIZE_T + |key| + 1, value);
    if !linkOk then
      Outcome(s4, false)
    else
      var it := Item(key, value, b, timeout, now);
      LinkEffect(s4, it);
      Outcome(Link(s4, it), true)
  }

  /**
   * Once the value is written behind the prepared header and key, the item
   * is laid out in `b`, its key is free and its size fits the budget, or the
   * list is empty: everything linking asks for.
   */
  lemma ReadyToLink(s: State, b: Slabs.BufId, key: Key, value: seq<byte>, timeout: int, now: int)
    requires Inv(s) && Spare(s, b) && 0 < |key| <= INT_MAX && |value| <= INT_MAX
    requires |s.slab.mem[b]| == BufSize(|key|, |value|)
    ensures var s3 := Prepare(s, b, key, |value|);
      && Spare(s3, b) && |s3.slab.mem[b]| == BufSize(|key|, |value|)
      && var s4 := WriteBuf(s3, b, SIZE_T + |key| + 1, value);
      var it := Item(key, value, b, timeout, now);
      && Inv(s4) && Spare(s4, b) && key !in s4.hm && Stored(s4.slab, it)
      && (s4.size + ItemSize(it) <= s4.maxSize || s4.size == 0)
  {
    var z := s.slab.mem[b];
    var h := EncodeWord(|z|, SIZE_T);
    var z1 := Slabs.Splice(z, 0, h + key);
    var s3 := Prepare(s, b, key, |value|);
    assert Inv(s3) && Spare(s3, b) && s3.slab.mem[b] == z1 && key !in s3.hm
      && (s3.size + |key| + |value| <= s3.maxSize || s3.size == 0) by {
      PrepareEffect(s, b, key, |value|);
    }
    assert |z1| == |z|;
    var off := SIZE_T + |key| + 1;
    var s4 := WriteBuf(s3, b, off, value);
    assert Inv(s4) && Spare(s4, b) && s4.slab.mem[b] == Slabs.Splice(z1, off, value) by {
      WriteSpare(s3, b, off, value);
    }
    assert s4.slab.mem[b] == Written(z, key, value);
    LaidOut(s, s4, b, Item(key, value, b, timeout, now));
  }

  /** The placement as its steps: prepare, write the value, link when the list can. */
  lemma PlaceSteps(s: State, b: Slabs.BufId, key: Key, value: seq<byte>, timeout: int, now: int, linkOk: bool)
    requires Inv(s) && Spare(s, b) && 0 < |key| <= INT_MAX && |value| <= INT_MAX
    requires |s.slab.mem[b]| == BufSize(|key|, |value|)
    ensures var s3 := Prepare(s, b, key, |value|);
      && Spare(s3, b) && |s3.slab.mem[b]| == BufSize(|key|, |value|)
      && var s4 := WriteBuf(s3, b, SIZE_T + |key| + 1, value);
      Place(s, b, key, value, timeout, now, linkOk)
        == if linkOk then Outcome(Link(s4, Item(key, value, b, timeout, now)), true) else Outcome(s4, false)
  {
    PrepareEffect(s, b, key, |value|);
  }

  /** Both writes of `put` into a buffer that was zero-filled leave the item laid out in it. */
  lemma LaidOut(s: State, s4: State, b: Slabs.BufId, it: Item)
    requires b in s.slab.mem && b in s4.slab.mem && b == it.buf
    requires |s.slab.mem[b]| == BufSize(|it.key|, |it.value|) < WORD_LIMIT
    requires s4.slab.mem[b] == Written(s.slab.mem[b], it.key, it.value)
    ensures Stored(s4.slab, it)
  {
    Layout(s.slab.mem[b], it.key, it.value);
    WordLimitIsPow();
  }

  /**
   * On success the new item heads the list and is mapped under its key; on
   * failure the key is unmapped and the buffer stays allocated but
   * unreferenced. The rest of the list holds only items other than the
   * replaced one, and all of them when nothing had to be ejected.
   */
  lemma PlaceEffect(s: State, b: Slabs.BufId, key: Key, value: seq<byte>, timeout: int, now: int, linkOk: bool)
    requires Inv(s) && Spare(s, b) && 0 < |key| <= INT_MAX && |value| <= INT_MAX
    requires |s.slab.mem[b]| == BufSize(|key|, |value|)
    ensures var r := Place(s, b, key, value, timeout, now, linkOk).state;
      var rest := if linkOk then r.lru[1..] else r.lru;
      && (linkOk ==> r.lru != [] && r.lru[0] == Item(key, value, b, timeout, now))
      && (!linkOk ==> key !in r.hm && Spare(r, b))
      && (forall it | it in rest :: it in Others(s, key))
      && (NoPressure(s, key, BufSize(|key|, |value|)) ==> rest == Others(s, key))
  {
    var p := Prepare(s, b, key, |value|);
    var r := Place(s, b, key, value, timeout, now, linkOk).state;
    var it := Item(key, value, b, timeout, now);
    assert r.lru == (if linkOk then [it] + p.lru else p.lru) && (!linkOk ==> r.hm == p.hm && Spare(r, b)) by {
      PrepareEffect(s, b, key, |value|);
      WriteSpare(p, b, SIZE_T + |key| + 1, value);
    }
    PrepareEffect(s, b, key, |value|);
    if linkOk {
      assert r.lru[1..] == p.lru;
    }
  }

  /** An item outside the replaced one is listed and carries another key. */
  lemma OthersMembers(s: State, key: Key)
    requires Inv(s)
    ensures forall it | it in Others(s, key) :: it in s.lru && it.key != key
  {
  }

  /**
   * cherly_put: allocate the buffer, with one forced ejection and a retry,
   * then place the item. Key and value lengths are C `int`s. `granted`,
   * `regranted` and `linkOk` are the outcomes of the two slabs_alloc calls and
   * of lru_insert's own allocation.
   */
  function Put(s: State, key: Key, value: seq<byte>, timeout: int, now: int,
               granted: bool, regranted: bool, linkOk: bool): (r: Outcome)
    requires Inv(s) && 0 < |key| <= INT_MAX && |value| <= INT_MAX
    ensures Inv(r.state) && r.state.maxSize == s.maxSize
  {
    var n := BufSize(|key|, |value|);
    AllocStepEffect(s, n, granted, regranted);
    var a := AllocStep(s, n, granted, regranted);
    match a.buf
    case None => Outcome(a.state, false)
    case Some(b) => Place(a.state, b, key, value, timeout, now, linkOk)
  }

  /** `put` as its steps: allocate, then place the item in the granted buffer. */
  lemma PutSteps(s: State, key: Key, value: seq<byte>, timeout: int, now: int,
                 granted: bool, regranted: bool, linkOk: bool)
    requires Inv(s) && 0 < |key| <= INT_MAX && |value| <= INT_MAX
    ensures var n := BufSize(|key|, |value|); var a := AllocStep(s, n, granted, regranted);
      var r := Put(s, key, value, timeout, now, granted, regranted, linkOk);
      && Inv(a.state)
      && (a.buf.None? ==> r == Outcome(a.state, false))
      && (a.buf.Some? ==>
            && Spare(a.state, a.buf.value) && |a.state.slab.mem[a.buf.value]| == n
            && r == Place(a.state, a.buf.value, key, value, timeout, now, linkOk))
  {
    AllocStepEffect(s, BufSize(|key|, |value|), granted, regranted);
  }

  /**
   * `put` succeeds exactly when a buffer was granted, at the first or the
   * second attempt, and the list could link the item. A success puts the
   * item at the head of the list and maps its key to it, and every other
   * listed item was listed before under another key. A failure leaves no
   * new item; when no buffer was granted, the forced ejection is all that
   * happened.
   */
  lemma PutEffect(s: State, key: Key, value: seq<byte>, timeout: int, now: int,
                  granted: bool, regranted: bool, linkOk: bool)
    requires Inv(s) && 0 < |key| <= INT_MAX && |value| <= INT_MAX
    ensures var r := Put(s, key, value, timeout, now, granted, regranted, linkOk);
      && (r.ok <==> (granted || regranted) && linkOk)
      && (r.ok ==>
        && r.state.lru != []
        && r.state.lru[0].key == key && r.state.lru[0].value == value
        && r.state.lru[0].timeout == timeout && r.state.lru[0].timestamp == now
        && key in r.state.hm && r.state.hm[key] == r.state.lru[0]
        && (forall it | it in r.state.lru[1..] :: it in s.lru && it.key != key))
      && (!r.ok ==> forall it | it in r.state.lru :: it in s.lru)
      && (!granted && !regranted ==> r.state == EjectForRetry(s))
  {
    var n := BufSize(|key|, |value|);
    AllocStepEffect(s, n, granted, regranted);
    var a := AllocStep(s, n, granted, regranted);
    if a.buf.Some? {
      var b := a.buf.value;
      PlaceEffect(a.state, b, key, value, timeout, now, linkOk);
      OthersMembers(a.state, key);
    }
  }

  /**
   * A put that meets no allocation failure and no budget pressure replaces
   * exactly: the list is the new item followed by all the others in their
   * order, `size` swaps the old item's size for the new one's, and
   * `items_length` grows only when the key was new.
   */
  lemma PutExact(s: State, key: Key, value: seq<byte>, timeout: int, now: int, regranted: bool)
    requires Inv(s) && 0 < |key| <= INT_MAX && |value| <= INT_MAX
    requires NoPressure(s, key, BufSize(|key|, |value|))
    ensures var r := Put(s, key, value, timeout, now, true, regranted, true).state;
      var old_ := if key in s.hm then ItemSize(s.hm[key]) else 0;
      && r.lru != []
      && r.lru[1..] == Others(s, key)
      && r.size + old_ == s.size + |key| + |value|
      && r.itemsLength == s.itemsLength + (if key in s.hm then 0 else 1)
  {
    var n := BufSize(|key|, |value|);
    AllocStepEffect(s, n, true, regranted);
    var a := AllocStep(s, n, true, regranted);
    var b := a.buf.value;
    PlaceEffect(a.state, b, key, value, timeout, now, true);
    var r := Put(s, key, value, timeout, now, true, regranted, true).state;
    assert r.lru == [r.lru[0]] + r.lru[1..];
    SumConcat([r.lru[0]], r.lru[1..]);
    assert Sum([r.lru[0]]) == ItemSize(r.lru[0]) + Sum([]);
  }

  /**
   * A stored item is returned by a later `get` until its time-to-live runs
   * out, and then it is gone.
   */
  lemma PutThenGet(s: State, key: Key, value: seq<byte>, timeout: int, now: int,
                   granted: bool, regranted: bool, later: int)
    requires Inv(s) && 0 < |key| <= INT_MAX && |value| <= INT_MAX
    requires Put(s, key, value, timeout, now, granted, regranted, true).ok
    ensures var t := Put(s, key, value, timeout, now, granted, regranted, true).state;
      var g := Get(t, key, later);
      && (g.value == Some(value) <==> !(timeout > 0 && later - timeout > now))
      && (g.value == None ==> key !in g.state.hm)
  {
    PutEffect(s, key, value, timeout, now, granted, regranted, true);
    var t := Put(s, key, value, timeout, now, granted, regranted, true).state;
    GetEffect(t, key, later);
  }

  /**
   * `size` after an ejection as cherly.c:38 and :58 write it together with
   * cherly.c:152: the callback lowers `size` by each ejected item, and the
   * caller lowers it once more by the total that lru_eject_by_size reports.
   */
  function SizeAfterEjectAsWritten(s: State, target: int): (n: nat)
    requires Inv(s)
    ensures n < WORD_LIMIT
  {
    var e := Eject(s, target);
    Sub64(e.state.size, e.freed)
  }

  /**
   * The double decrement: whenever an ejection frees anything, the counter
   * as written no longer equals the bytes of the listed items, while the
   * single decrement of `Eject` keeps it equal; when the ejection frees more
   * than what stays listed, the counter wraps past any budget below 2^63.
   */
  lemma DoubleDecrement(s: State, target: int)
    requires Inv(s)
    ensures var e := Eject(s, target);
      && e.state.size == Sum(e.state.lru)
      && (e.freed > 0 ==> SizeAfterEjectAsWritten(s, target) != Sum(e.state.lru))
      && (e.freed > e.state.size && 2 * s.maxSize < WORD_LIMIT ==> SizeAfterEjectAsWritten(s, target) > s.maxSize)
  {
    var e := Eject(s, target);
    assert e.state.size == Sum(e.state.lru) && e.state.size + e.freed == s.size by {
      EjectEffect(s, target);
    }
    if e.freed <= e.state.size {
      Sub64Exact(e.state.size, e.freed);
    } else {
      Sub64Wraps(e.state.size, e.freed);
    }
  }

  /** A subtraction that goes below zero wraps around by 2^64. */
  lemma Sub64Wraps(a: nat, b: nat)
    requires a < b <= a + WORD_LIMIT
    ensures Sub64(a, b) == WORD_LIMIT + a - b
  {
    ModUp(a - b, WORD_LIMIT);
  }

  lemma ModUp(x: int, m: int)
    requires 0 < m && -m <= x < 0
    ensures x % m == x + m
  {
  }

  /** The keys of a run of items. */
  function Keys(l: seq<Item>): set<Key>
  {
    set it | it in l :: it.key
  }

  lemma KeysCons(l: seq<Item>)
    requires l != []
    ensures Keys(l) == {l[0].key} + Keys(l[1..])
  {
    forall x | x in l
      ensures x == l[0] || x in l[1..]
    {
      var j :| 0 <= j < |l| && l[j] == x;
      if j > 0 {
        assert l[1..][j - 1] == x;
      }
    }
  }

  /** A run whose items carry pairwise different keys has as many keys as items. */
  lemma {:induction false} KeyCount(l: seq<Item>)
    requires forall i, j | 0 <= i < j < |l| :: l[i].key != l[j].key
    ensures |Keys(l)| == |l|
  {
    if l == [] {
      assert Keys(l) == {};
    } else {
      var t := l[1..];
      assert forall i, j | 0 <= i < j < |t| :: t[i].key != t[j].key by {
        forall i, j | 0 <= i < j < |t|
          ensures t[i].key != t[j].key
        {
          assert t[i] == l[i + 1] && t[j] == l[j + 1];
        }
      }
      KeyCount(t);
      KeysCons(l);
      assert l[0].key !in Keys(t) by {
        forall x | x in t
          ensures x.key != l[0].key
        {
          var j :| 0 <= j < |t| && t[j] == x;
          assert l[j + 1] == x;
        }
      }
    }
  }

  /** items_length counts the map's entries as well as the list's items. */
  lemma MapSize(s: State)
    requires Inv(s)
    ensures |s.hm| == |s.lru| == s.itemsLength
  {
    forall i, j | 0 <= i < j < |s.lru|
      ensures s.lru[i].key != s.lru[j].key
    {
      assert s.lru[i] in s.lru && s.lru[j] in s.lru;
      assert s.lru[i].buf != s.lru[j].buf;
    }
    KeyCount(s.lru);
    assert s.hm.Keys == Keys(s.lru);
  }
}
