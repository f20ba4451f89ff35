# cherly's cache engine in Dafny

cherly is an in-memory LRU cache that Erlang uses through a NIF. Its C core,
`c_src/cherly.c`, keeps one `cherly_t`, which holds:

- a hash map from key bytes to list items;
- a recency list (`lru`);
- a slab allocator that holds every item's key and value in one buffer;
- two 64-bit counters: the bytes of the listed keys and values (`size`) and
  the number of listed items (`items_length`);
- a byte budget (`max_size`).

`put` allocates a buffer of `sizeof(size_t) + keylen + 1 + vallen` bytes. If
the allocation fails, it ejects `SETTING_ITEM_SIZE_MAX` bytes from the tail of
the list and retries once. It then writes the buffer size as a header in front
of the key, removes any item already stored under the key, and ejects from the
tail when the new buffer would overrun the budget. Finally it writes the value
and links the item at the head of the list. Each ejected item passes through
`cherly_eject_callback`. That callback frees the buffer using the header,
unmaps the key and lowers the counters. `get` removes an expired item, and
otherwise moves the item to the head of the list. `remove` takes the item a
`put` stored out of the map, the list, the slab pool and both counters.

The project has six modules:

- `Bytes` (bytes.dfy): the little-endian `size_t` header, encoded and decoded.
- `Slabs` (slabs.dfy): the slab pool as a value, a map from buffer address to
  bytes.
- `Lru` (lru.dfy): the recency list as a sequence of items, head first. It
  covers insertion, removal, touch and ejection from the tail.
- `Engine` (engine.dfy): each operation of cherly.c as a function over the
  whole state, together with:
  - the invariant `Inv`, under which the map, the list, the slab buffers and
    both counters agree;
  - lemmas stating what each operation does.
- `Cherly` (cherly.dfy): `class Cache`. Its fields are those of `cherly_t`,
  and its methods update them in place. Each method is proved to leave the
  fields equal to the matching `Engine` function of the old fields, so every
  `Engine` lemma applies to the class.
- `Wrappers` (wrappers.dfy): `Option`, for the C calls that return NULL.

Allocation outcomes are parameters:

- `granted` and `regranted` say whether the first and the second
  `slabs_alloc` succeed;
- `linkOk` says whether `lru_insert` could allocate its node.

The clock is a parameter, `now`.

The code is modelled as written in three places where one might expect a
failed or oversized `put` to leave nothing behind:

- When the retry after the forced ejection also fails, the forced ejection is
  not undone (cherly.c:38-42).
- When `lru_insert` fails, the buffer stays allocated and unreferenced
  (cherly.c:67-68).
- An item whose key and value are larger than the whole budget is still
  stored once the list has been emptied for it. The invariant therefore allows
  `size` above `max_size` only for a single listed item.

## Model

The table lists some `Engine` functions through the lemma that states what
they do, or through the `Cache` method proved equal to them, instead of a row
of their own:

- `Eject`, `Reconcile`, `MakeRoom`, `DropExisting`, `Prepare` and `Link`
  through their `...Effect` lemmas;
- `SizeAfterEjectAsWritten` through `DoubleDecrement`.

| member | source | states |
|---|---|---|
| Engine.Init | c_src/cherly.c:12-21 | init gives an empty map, list and pool, zero counters and the given budget, and the invariant holds |
| Cherly.Cache.constructor | c_src/cherly.c:12-21 | the new cache's fields are those of `Engine.Init` and satisfy the invariant |
| Slabs.Init | c_src/cherly.c:14-15 | the pool starts with no buffers and nothing in use |
| Cherly.Cache.Size | c_src/cherly.h:8 | `cherly_size` is the total key and value bytes of the listed items, and it exceeds the budget only for one listed item |
| Cherly.Cache.ItemsLength | c_src/cherly.h:9 | `cherly_items_length` equals both the number of listed items and the number of mapped keys |
| Engine.MapSize | c_src/cherly.h:9 | under the invariant, the map has as many keys as the list has items, and `items_length` counts them |
| Cherly.Cache.MaxSize | c_src/cherly.h:10 | `cherly_max_size` bounds the listed bytes, except for a single oversized item |
| Bytes.DecodeEncode | c_src/cherly.c:44 | decoding the header written for a size below 2^64 gives back that size |
| Bytes.EncodeDecode | c_src/cherly.c:123-125 | encoding the word read from a header gives back the header's bytes |
| Engine.StoredHeaderOk | c_src/cherly.c:122-126 | a buffer laid out by `put` carries its own length in its header |
| Engine.SlabFree | c_src/cherly.c:122-126 | freeing through the header removes exactly that buffer and returns exactly its length to the pool |
| Slabs.Alloc | c_src/cherly.c:35-41 | a granted allocation gives a fresh buffer of exactly the requested length and uses that many more bytes; a refused one gives nothing |
| Slabs.Free | c_src/cherly.c:125 | freeing removes the buffer and gives back its bytes |
| Slabs.Write | c_src/cherly.c:64 | a copy into a buffer replaces exactly the copied range and changes no other buffer |
| Lru.Insert | c_src/cherly.c:67 | the new item heads the list, the old list follows it unchanged, and the listed bytes grow by its size |
| Lru.Remove | c_src/cherly.c:180 | removal drops exactly the item and its bytes, and keeps the other items |
| Lru.Touch | c_src/cherly.c:111 | the touched item moves to the head, and the other items keep their order |
| Lru.EjectBySize | c_src/cherly.c:58-60 | ejection splits the list into what stays and a tail. The tail holds at least the target bytes unless the list is emptied, and no item more than needed |
| Lru.HeadEjectedLast | c_src/cherly.c:58-60 | the head of the list is ejected only if the whole list is |
| Engine.EjectCallback | c_src/cherly.c:132-154 | a missing key changes nothing; a mapped key's item is freed, unmapped and subtracted from both counters |
| Cherly.Cache.EjectCallback | c_src/cherly.c:132-154 | the callback updates the fields as `Engine.EjectCallback` does |
| Engine.CallbackStep | c_src/cherly.c:146-153 | the callback for the oldest pending item frees its buffer, lowers `size` by its bytes and keeps the invariant for the remaining items |
| Engine.DropConsistent | c_src/cherly.c:146-153 | dropping one live item keeps the invariant for the others and lowers both counters by exactly its share |
| Engine.ReconcileEffect | c_src/cherly.c:58-60 | after the callbacks for the ejected items, the invariant holds again, exactly their buffers are freed and `size` drops by their bytes |
| Cherly.Cache.RunCallbacks | c_src/cherly.c:58-60 | the loop over the ejected items, oldest first, gives the state `Engine.Reconcile` specifies |
| Engine.EjectEffect | c_src/cherly.c:58-60 | an ejection keeps the invariant and every spare buffer, lowers `size` once by the bytes freed, and stops only at the target or an empty list |
| Cherly.Cache.Eject | c_src/cherly.c:58-60 | the fields after an ejection are those of `Engine.Eject` |
| Engine.Remove | c_src/cherly.c:160-187 | remove reports exactly whether the key was present, and changes nothing when it was not |
| Engine.RemoveEffect | c_src/cherly.c:160-187 | removing a present key takes its item out of the map, the list, the pool and both counters, and keeps the invariant |
| Engine.RemoveIdempotent | c_src/cherly.c:173-175 | a second remove of the same key finds nothing and changes nothing |
| Cherly.Cache.Remove | c_src/cherly.c:160-187 | the fields and the result are those of `Engine.Remove` |
| Engine.Get | c_src/cherly.c:84-116 | get returns a value exactly when the key is mapped and not expired, and that value is the stored one |
| Engine.GetEffect | c_src/cherly.c:94-114 | an expired item goes through the whole remove path: its key is unmapped, its buffer freed, the other items stay listed in order and both counters drop by its share; a hit moves the item to the head and changes nothing else |
| Engine.HitOutlivesOthers | c_src/cherly.c:111 | right after a hit, the item is ejected only if every other item is ejected too |
| Cherly.Cache.Get | c_src/cherly.c:84-116 | the fields and the result are those of `Engine.Get` |
| Engine.EjectForRetry | c_src/cherly.c:38-40 | the forced ejection before the retry keeps the invariant and every spare buffer |
| Engine.AllocStep | c_src/cherly.c:34-43 | a buffer is obtained exactly when the first or the second attempt is granted |
| Engine.GrantEffect | c_src/cherly.c:35 | a granted buffer is spare and of the requested size, and the invariant is kept |
| Engine.AllocStepEffect | c_src/cherly.c:34-43 | a first success changes nothing but the pool; a first failure ejects exactly once; a double failure leaves only that ejection |
| Cherly.Cache.Allocate | c_src/cherly.c:34-43 | the fields and the buffer are those of `Engine.AllocStep` |
| Engine.WriteBuf | c_src/cherly.c:44-50 | a write leaves the written bytes at the offset and changes neither the map, the list nor the counters |
| Engine.WriteSpare | c_src/cherly.c:44-64 | writing into a spare buffer keeps the invariant |
| Engine.Layout | c_src/cherly.c:44-64 | after both writes, the buffer holds the size header, then the key, then the value behind the separator |
| Engine.LaidOut | c_src/cherly.c:44-64 | after both writes, the item is stored as the free path expects |
| Engine.DropExistingEffect | c_src/cherly.c:51-56 | after the replacement step no item is stored under the key, and the list holds all the other items with `size` lowered by the old item |
| Cherly.Cache.DropExisting | c_src/cherly.c:51-56 | the fields are those of `Engine.DropExisting` |
| Engine.MakeRoomEffect | c_src/cherly.c:57-61 | making room keeps the invariant and every spare buffer |
| Engine.MakeRoomFits | c_src/cherly.c:57-61 | without pressure nothing changes; under `size + bufsiz > max_size` exactly the tail that `lru_eject_by_size` gives up for target `(keylen + vallen) - (max_size - size)` leaves the list, `size` drops by exactly its bytes and stays the listed bytes; afterwards the new key and value fit the budget, or the list is empty |
| Cherly.Cache.MakeRoom | c_src/cherly.c:57-61 | the fields are those of `Engine.MakeRoom` |
| Cherly.Cache.Link | c_src/cherly.c:67-75 | the fields are those of `Engine.Link`: the item heads the list, its key is mapped and both counters grow |
| Engine.LinkEffect | c_src/cherly.c:67-75 | linking a laid-out item whose key is free and whose size fits keeps the invariant, with no wrap-around in either counter |
| Engine.PrepareEffect | c_src/cherly.c:44-61 | after the preparation, the key is free and its item fits the budget or the list is empty. The buffer holds header and key, and the list holds only the other items, all of them when there was no budget pressure |
| Cherly.Cache.Prepare | c_src/cherly.c:44-61 | the fields are those of `Engine.Prepare` |
| Engine.ReadyToLink | c_src/cherly.c:63-68 | after the value is written, the item is laid out in its buffer, its key is free and its size fits, as linking requires |
| Engine.Place | c_src/cherly.c:44-76 | the placement keeps the invariant and succeeds exactly when the list could link |
| Engine.PlaceEffect | c_src/cherly.c:44-76 | a success puts the item at the head; a failure leaves the key unmapped and the buffer allocated but unreferenced |
| Cherly.Cache.Place | c_src/cherly.c:44-76 | the fields and the result are those of `Engine.Place` |
| Engine.Put | c_src/cherly.c:28-78 | put keeps the invariant and leaves `max_size` unchanged |
| Engine.PutEffect | c_src/cherly.c:28-78 | put succeeds exactly when a buffer is granted and the list links. The stored item then heads the list under its key, and every other listed item was listed before under another key. When no buffer is granted, only the forced ejection happened |
| Engine.PutExact | c_src/cherly.c:28-78 | without allocation failure or budget pressure, the list is the new item followed by all the others in order, `size` swaps the old item's bytes for the new, and `items_length` grows only for a new key |
| Cherly.Cache.Put | c_src/cherly.c:28-78 | the fields and the result are those of `Engine.Put` |
| Engine.PutThenGet | c_src/cherly.c:28-116 | a later get returns the stored value exactly until its time-to-live runs out, and afterwards the key is gone |
| Engine.DoubleDecrement | c_src/cherly.c:38-40 | whenever an ejection frees anything, the counter as written differs from the listed bytes; when more is freed than stays, it wraps past any budget below 2^63 |

## Left out

- slabs.c's size classes, pages and 1.5 growth factor are not part of this
  model. Whether each `slabs_alloc` succeeds is a parameter.
- A fresh slab buffer is modelled as zero-filled. The separator byte between
  key and value is never read.
- `lru_item_size` is taken to be `keylen + vallen`. lru.h and lru.c are not
  part of this model. The same holds for `lru_eject_by_size`, modelled as
  giving up whole items from the tail until the target is met and returning
  the bytes freed.
- `SETTING_ITEM_SIZE_MAX` is taken as 1 MiB. common.h is not part of this
  model, and no proof depends on the value.
- `lru_insert`'s own node allocation is the `linkOk` parameter.
- Engine.MakeRoom: the target `(length + size) - (max_size - size)` is
  computed on unbounded integers. The conversions between C's `int` and
  `unsigned long long`, and how `lru_eject_by_size` reads a wrapped value,
  are not modelled. That parameter's type is declared in lru.h, which is not
  part of this model.
- Engine.Put: an overflow of `size + bufsiz` past 2^64 is not modelled. The
  invariant keeps `size` at most `max_size` or at most two `int` lengths.
- `cherly_destroy`, the destroy callbacks passed to `lru_insert`, the touch
  stub of the NIF, and the rest of cherly_nif.c are not part of this model.
  The one exception is that keys are non-empty.
- The clock is the `now` parameter. The runtime map's hashing, memcpy and
  pointer arithmetic are not modelled.
- Engine.Eject: `lru_eject_by_size` runs the callback while it unlinks items.
  The model unlinks the tail first and then runs the callbacks, oldest item
  first. The outcome is the same, because the callback never touches the
  list: it frees the buffer, deletes the mapping and lowers the counters,
  none of which the list's unlinking reads.
- Engine.Eject / Engine.Put: the caller-side `size -=` of the total that
  `lru_eject_by_size` returns (cherly.c:38 and :58) is not applied; `size` is
  lowered once per ejected item, by the callback (cherly.c:152). The
  invariant `Inv` and every lemma about `put` are therefore about the
  corrected counter, not the code as written, which does not keep `size`
  equal to the listed bytes across an ejection. `SizeAfterEjectAsWritten`
  and `DoubleDecrement` carry the code as written (see Findings).
- Engine.EjectCallback / Engine.Remove: keys and items are values, so the
  model reads them intact after their memory is released. In the source the
  callback frees the buffer holding the key (cherly.c:147) and then hashes
  that key to delete the mapping (cherly.c:148); on the replace path `remove`
  is passed the old item's in-buffer key (cherly.c:55), frees that buffer
  (cherly.c:178) and then hashes the key (cherly.c:184); and `remove` reads
  `lru_item_size(item)` (cherly.c:181) after `lru_remove_and_destroy` has
  destroyed the item (cherly.c:180). The model assumes the freed bytes still
  hold what they held, so its deletion report is always "present" and its
  counter updates are exact; what slabs.c and lru.c do to freed memory is
  not part of this model.

## Findings

| source | as written | input that shows it | evidently intended | confidence | as-written member | corrected member |
|---|---|---|---|---|---|---|
| c_src/cherly.c:38 and :58 with :152 | `size` is lowered twice for each ejection: once by `cherly_eject_callback` for each item, and once more by the caller by the total that `lru_eject_by_size` returns | `max_size` 20, holding one item with a 1-byte key and a 2-byte value (`size` 3, a 12-byte buffer); a put of a new key whose first allocation fails. The retry ejection frees 3 bytes and the callback sets `size` to 0; line 38 then subtracts 3 again, leaving 2^64 - 3 | `size` is lowered once, by the bytes of the ejected items, and stays equal to the listed bytes | not executed; assumes `lru_eject_by_size` returns the bytes it freed (lru.c is not part of this model), and that the call runs before `size` on the left of `-=` is read: C leaves that order unspecified (C11 6.5.16p3), and if the field is read first the callback's decrements are overwritten and the result is right | Engine.DoubleDecrement | Engine.EjectEffect |
