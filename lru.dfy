/**
 * The recency list (lru_t) seen from the cache engine: a sequence of items,
 * head = most recently used, tail = least recently used. Its node
 * allocation and destroy callbacks are not modelled.
 */
module Lru {
  import opened Bytes
  import Slabs

  /**
   * lru_item_t: the key and value bytes (stored in the slab buffer `buf`),
   * the time-to-live `timeout` (0 or less: never expires) and the time
   * `timestamp` at which the item was inserted.
   */
  datatype Item = Item(key: seq<byte>, value: seq<byte>, buf: Slabs.BufId, timeout: int, timestamp: int)

  /** lru_item_size: the bytes an item accounts for in the budget. */
  function ItemSize(it: Item): nat
  {
    |it.key| + |it.value|
  }

  /** The total size of a run of items. */
  function Sum(l: seq<Item>): nat
  {
    if l == [] then 0 else ItemSize(l[0]) + Sum(l[1..])
  }

  lemma {:induction false} SumConcat(a: seq<Item>, b: seq<Item>)
    ensures Sum(a + b) == Sum(a) + Sum(b)
  {
    if a == [] {
      assert a + b == b;
    } else {
      assert (a + b)[1..] == a[1..] + b;
      SumConcat(a[1..], b);
    }
  }

  lemma SumSnoc(l: seq<Item>, x: Item)
    ensures Sum(l + [x]) == Sum(l) + ItemSize(x)
  {
    SumConcat(l, [x]);
    assert Sum([x]) == ItemSize(x) + Sum([]);
  }

  /** Items with non-empty keys number at most their total size. */
  lemma {:induction false} CountAtMostSum(l: seq<Item>)
    requires forall it | it in l :: |it.key| > 0
    ensures |l| <= Sum(l)
  {
    if l != [] {
      assert forall it | it in l[1..] :: it in l;
      CountAtMostSum(l[1..]);
    }
  }

  /** No two positions of the list hold items backed by the same buffer. */
  ghost predicate DistinctBufs(l: seq<Item>)
  {
    forall i, j | 0 <= i < |l| && 0 <= j < |l| && i != j :: l[i].buf != l[j].buf
  }

  /** lru_insert: the new item becomes the head; the others keep their order. */
  function Insert(l: seq<Item>, it: Item): (r: seq<Item>)
    ensures r != [] && r[0] == it && r[1..] == l
    ensures Sum(r) == Sum(l) + ItemSize(it)
    ensures forall x :: x in r <==> x == it || x in l
    ensures DistinctBufs(l) && (forall x | x in l :: x.buf != it.buf) ==> DistinctBufs(r)
  {
    var r := [it] + l;
    assert forall i | 1 <= i < |r| :: r[i] == l[i - 1] && r[i] in l;
    r
  }

  /** Where `it` sits in the list. */
  function IndexOf(l: seq<Item>, it: Item): (i: nat)
    requires it in l
    ensures i < |l| && l[i] == it
  {
    if l[0] == it then 0 else 1 + IndexOf(l[1..], it)
  }

  /** The list with position `i` cut out. */
  function CutAt(l: seq<Item>, i: nat): (r: seq<Item>)
    requires i < |l|
    ensures |r| == |l| - 1
    ensures forall k | 0 <= k < |r| :: r[k] == if k < i then l[k] else l[k + 1]
  {
    l[..i] + l[i + 1..]
  }

  lemma {:induction false} CutAtSum(l: seq<Item>, i: nat)
    requires i < |l|
    ensures Sum(CutAt(l, i)) + ItemSize(l[i]) == Sum(l)
  {
    var r := CutAt(l, i);
    if i == 0 {
      assert r == l[1..];
    } else {
      CutAtSum(l[1..], i - 1);
      assert r[0] == l[0] && r[1..] == CutAt(l[1..], i - 1);
    }
  }

  lemma CutAtDistinct(l: seq<Item>, i: nat)
    requires i < |l|
    ensures DistinctBufs(l) ==> DistinctBufs(CutAt(l, i))
    ensures DistinctBufs(l) ==> forall x :: x in CutAt(l, i) <==> x in l && x != l[i]
  {
    var r := CutAt(l, i);
    if DistinctBufs(l) {
      CutAtMembers(l, i);
    }
  }

  lemma CutAtMembers(l: seq<Item>, i: nat)
    requires i < |l| && DistinctBufs(l)
    ensures forall x :: x in CutAt(l, i) <==> x in l && x != l[i]
  {
    var r := CutAt(l, i);
    forall x ensures x in r <==> x in l && x != l[i] {
      if x in r {
        var k :| 0 <= k < |r| && r[k] == x;
        assert x == l[if k < i then k else k + 1];
      }
      if x in l && x != l[i] {
        var k :| 0 <= k < |l| && l[k] == x;
        assert r[if k < i then k else k - 1] == x;
      }
    }
  }

  /** lru_remove_and_destroy: unlinks `it`; the others keep their order. */
  function Remove(l: seq<Item>, it: Item): (r: seq<Item>)
    requires it in l
    ensures |r| == |l| - 1
    ensures Sum(r) + ItemSize(it) == Sum(l)
    ensures DistinctBufs(l) ==> DistinctBufs(r) && forall x :: x in r <==> x in l && x != it
  {
    var i := IndexOf(l, it);
    CutAtSum(l, i);
    CutAtDistinct(l, i);
    CutAt(l, i)
  }

  /** lru_touch: moves `it` to the head, keeping the order of the others. */
  function Touch(l: seq<Item>, it: Item): (r: seq<Item>)
    requires it in l
    ensures r != [] && r[0] == it && r[1..] == Remove(l, it)
    ensures |r| == |l| && Sum(r) == Sum(l)
    ensures DistinctBufs(l) ==> DistinctBufs(r) && forall x :: x in r <==> x in l
  {
    var r := [it] + Remove(l, it);
    assert r[1..] == Remove(l, it);
    r
  }

  /**
   * The outcome of lru_eject_by_size: the items left (`rest`), the items
   * ejected in list order (`evicted`, so the last one was the old tail and
   * went first) and the bytes freed.
   */
  datatype Ejection = Ejection(rest: seq<Item>, evicted: seq<Item>, freed: nat)

  /**
   * lru_eject_by_size: ejects from the tail while fewer than `target` bytes
   * have been freed and the list is not empty.
   */
  function EjectBySize(l: seq<Item>, target: int): (e: Ejection)
    ensures l == e.rest + e.evicted
    ensures e.freed == Sum(e.evicted)
    ensures e.rest == [] || e.freed >= target
    ensures target <= 0 ==> e.evicted == []
    ensures e.evicted == [] || e.freed - ItemSize(e.evicted[0]) < target
    decreases |l|
  {
    if target <= 0 || l == [] then
      Ejection(l, [], 0)
    else
      var tail := l[|l| - 1];
      var e := EjectBySize(l[..|l| - 1], target - ItemSize(tail));
      SumConcat(e.evicted, [tail]);
      assert l == l[..|l| - 1] + [tail];
      Ejection(e.rest, e.evicted + [tail], e.freed + ItemSize(tail))
  }

  /**
   * Least-recently-used order: the head item is ejected only when every
   * other item is ejected too.
   */
  lemma HeadEjectedLast(l: seq<Item>, target: int)
    requires DistinctBufs(l) && l != []
    requires l[0] in EjectBySize(l, target).evicted
    ensures EjectBySize(l, target).rest == []
  {
    // The evicted run is a suffix; if anything stayed, l[0] would head the
    // rest and also sit in that suffix, twice in a list of distinct buffers.
  }
}
