/**
 * The slab allocator seen from the cache engine: a pool of byte buffers.
 * Whether a request is served depends on slabs.c's size classes, pages and
 * free lists, which are not part of this model, so each allocation takes its
 * outcome as a parameter. `Free` must be given the size the buffer was
 * allocated with.
 */
module Slabs {
  import opened Wrappers
  import opened Bytes

  /** The address of a slab buffer. */
  type BufId = nat

  /**
   * `mem` holds the live buffers by address, `used` the bytes handed out,
   * `next` the next address never handed out.
   */
  datatype Pool = Pool(mem: map<BufId, seq<byte>>, used: nat, next: BufId)

  datatype Grant = Grant(pool: Pool, buf: BufId)

  /** The bytes held by the buffers whose address is below `n`. */
  function Used(mem: map<BufId, seq<byte>>, n: nat): nat
  {
    if n == 0 then 0 else Used(mem, n - 1) + (if n - 1 in mem then |mem[n - 1]| else 0)
  }

  ghost predicate Valid(p: Pool)
  {
    && (forall b | b in p.mem :: b < p.next)
    && p.used == Used(p.mem, p.next)
  }

  /** Replacing the buffer at `b` changes the total by the difference in length. */
  lemma {:induction false} UsedUpdate(mem: map<BufId, seq<byte>>, b: BufId, v: seq<byte>, n: nat)
    ensures Used(mem[b := v], n) + (if b < n && b in mem then |mem[b]| else 0)
         == Used(mem, n) + (if b < n then |v| else 0)
  {
    if n > 0 {
      UsedUpdate(mem, b, v, n - 1);
    }
  }

  /** Dropping the buffer at `b` lowers the total by its length. */
  lemma {:induction false} UsedRemove(mem: map<BufId, seq<byte>>, b: BufId, n: nat)
    requires b in mem
    ensures Used(mem - {b}, n) + (if b < n then |mem[b]| else 0) == Used(mem, n)
  {
    if n > 0 {
      UsedRemove(mem, b, n - 1);
    }
  }

  /** slabs_init: an empty pool. */
  function Init(): (p: Pool)
    ensures Valid(p) && p.mem == map[] && p.used == 0
  {
    Pool(map[], 0, 0)
  }

  /**
   * slabs_alloc: a fresh buffer of `n` bytes when the allocator can serve
   * the request (`granted`), None otherwise. A fresh buffer's contents are
   * not specified by the allocator; the model fills it with zeros.
   */
  function Alloc(p: Pool, n: nat, granted: bool): (r: Option<Grant>)
    requires Valid(p)
    ensures r.Some? <==> granted
    ensures r.Some? ==>
      && Valid(r.value.pool)
      && r.value.buf !in p.mem
      && r.value.pool.mem == p.mem[r.value.buf := seq(n, _ => 0)]
      && r.value.pool.used == p.used + n
  {
    if granted then
      var zeros: seq<byte> := seq(n, _ => 0);
      UsedUpdate(p.mem, p.next, zeros, p.next);
      assert Used(p.mem[p.next := zeros], p.next + 1) == p.used + n;
      Some(Grant(Pool(p.mem[p.next := zeros], p.used + n, p.next + 1), p.next))
    else
      None
  }

  /**
   * slabs_free: returns the buffer `b` to the pool. The caller must pass the
   * size the buffer was allocated with.
   */
  function Free(p: Pool, b: BufId, n: nat): (q: Pool)
    requires Valid(p) && b in p.mem && n == |p.mem[b]|
    ensures Valid(q)
    ensures q.mem == p.mem - {b}
    ensures q.used + n == p.used
  {
    UsedRemove(p.mem, b, p.next);
    Pool(p.mem - {b}, p.used - n, p.next)
  }

  /** `z` with `bytes` copied over it from `offset` on. */
  function Splice(z: seq<byte>, offset: nat, bytes: seq<byte>): seq<byte>
    requires offset + |bytes| <= |z|
  {
    z[..offset] + bytes + z[offset + |bytes|..]
  }

  /** Copies `bytes` into buffer `b` at `offset` (memcpy into slab memory). */
  function Write(p: Pool, b: BufId, offset: nat, bytes: seq<byte>): (q: Pool)
    requires Valid(p) && b in p.mem && offset + |bytes| <= |p.mem[b]|
    ensures Valid(q)
    ensures q.mem == p.mem[b := Splice(p.mem[b], offset, bytes)]
    ensures q.used == p.used
  {
    var v := Splice(p.mem[b], offset, bytes);
    UsedUpdate(p.mem, b, v, p.next);
    p.(mem := p.mem[b := v])
  }
}
