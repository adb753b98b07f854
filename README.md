# Bounded caches and pagination helpers, in Dafny

This project models two small parts of the alx-backend repository and proves
properties about them.

**The caches.** These are the three bounded key-value caches of `0x01-caching`.
Each holds at most `MAX_ITEMS` entries in `cache_data` and discards one key when
that bound is reached (FIFO) or exceeded (LRU, LFU):

- `FIFOCache` keeps `keys_order`, a list of keys in order of first insertion, and
  discards the head of that list.
- `LRUCache` keeps an `OrderedDict` ordered from least to most recently used, and
  discards its first key.
- `LFUCache` keeps `usage_frequency` and `access_order` beside `cache_data`. Its
  victim is the key that Python's `min` picks by (frequency, access order), over all
  keys including the one just put.

Each cache has three parts:

- a value datatype for its whole state;
- pure step functions: what a `put` discards, the state after a `put` or a `get`,
  and what a `get` returns;
- a `class` with the source's own fields, whose `Put` and `Get` methods change those
  fields step by step.

Each method is proved to leave exactly the state its step function describes. The
properties of the cache are lemmas about the step functions:

- the capacity bound holds;
- the bookkeeping stays in step with `cache_data`;
- which key is discarded, and that nothing else is;
- order and recency are kept;
- frequencies and access orders change as the source changes them.

**The pagination helpers.** These come from `0x00-pagination`:

- **`index_range`** turns a page and a page size into a half-open range of positions.
- **`get_page`** and **`get_hyper`** slice a dataset of CSV rows and compute page
  metadata, including the ceiling division for `total_pages`.
- **`indexed_dataset`** numbers the rows.
- **`get_hyper_index`** collects `page_size` rows from an integer-keyed dict. It skips
  keys that were deleted and returns the index to continue from. It is a `method`
  with the source's `for` loop and inner `while` loop, and the loops carry their
  invariants.

The dataset and the indexed dataset are parameters.

**Quirks of the code that the model keeps:**

- **FIFO evicts on overwrite.** Line 17 of `0x01-caching/1-fifo_cache.py` tests
  `len(cache_data) >= MAX_ITEMS` before the store. A full FIFO cache therefore
  discards its head even when the key being put is already present. Unless the key
  put is the head itself, the cache then holds one entry fewer
  (`FifoCache.OverwriteOfFullCacheEvicts`). When it is the head, the key is popped,
  stored again and appended last, and the cache stays full
  (`FifoCache.OverwriteOfFullHeadKeepsSize`).
- **LFU access order is an entry count, not a counter.** Lines 28 and 43 of
  `0x01-caching/100-lfu_cache.py` set a key's access order to `len(access_order)` at
  the time of the touch. Two keys can therefore tie on it, and then `min` takes the
  first key in dict order, as `LfuCache.ExactTieTakesFirstKey` shows.
- **The just-put key can be its own victim.** LFU's `min` at lines 31-32 runs over all
  keys after the new key is inserted. `LfuCache.NewKeyEvictsItself` proves this.
- **Continuing after deletions can fail the bounds check.** Line 114 of
  `0x00-pagination/3-hypermedia_del_pagination.py` compares `index` with the number
  of entries, not with the largest key. After deletions, a returned `next_index` can
  reach that number while rows remain beyond it. With keys {0, 5, 6},
  `get_hyper_index(1, 1)` returns `next_index` 6, and `get_hyper_index(6, 1)` then
  fails. `GetHyperIndex` models this: its result is a failure exactly when `index` is
  outside `[0, len(indexed))`.

## Model

| member | source | states |
|---|---|---|
| FifoCache.DropHead | 0x01-caching/1-fifo_cache.py:18-19 | `pop(0)` plus `del` removes exactly the head key from the list and the dict, keeps both in step, shrinks the dict by one and keeps every other value |
| FifoCache.Store | 0x01-caching/1-fifo_cache.py:21-23 | storing sets the value; the key list grows by the key only when the key was absent, and stays in step with the dict |
| FifoCache.Discarded | 0x01-caching/1-fifo_cache.py:17-20 | a key is discarded exactly when key and item are both given and the cache is full, whether or not the key is present; the discarded key is the head of `keys_order` and was cached |
| FifoCache.AfterPut | 0x01-caching/1-fifo_cache.py:16-23 | a `put` with a `None` key or item changes nothing; every `put` keeps at most `MAX_ITEMS` entries, with `keys_order` listing each cached key once |
| FifoCache.Lookup | 0x01-caching/1-fifo_cache.py:27 | `get` returns a value exactly for a present key, and that value is the stored one |
| FifoCache.PutEvictsOnlyHead | 0x01-caching/1-fifo_cache.py:17-21 | the keys after a `put` are the old keys, minus the discarded one if any, plus the key put |
| FifoCache.PutKeepsOtherValues | 0x01-caching/1-fifo_cache.py:17-21 | every surviving key other than the one put keeps its old value |
| FifoCache.GetAfterPut | 0x01-caching/1-fifo_cache.py:21-27 | `get(k)` right after `put(k, v)` returns `v` |
| FifoCache.PutKeepsInsertionOrder | 0x01-caching/1-fifo_cache.py:18-23 | old keys that a `put` does not discard stay listed, in the same relative order |
| FifoCache.PutAppendsNewKey | 0x01-caching/1-fifo_cache.py:21-23 | a new or just-discarded key is appended last; a present key that is not discarded keeps `keys_order` unchanged |
| FifoCache.OverwriteOfFullCacheEvicts | 0x01-caching/1-fifo_cache.py:17-20 | overwriting a present key (not the head) in a full cache discards the head and leaves one entry fewer |
| FifoCache.OverwriteOfFullHeadKeepsSize | 0x01-caching/1-fifo_cache.py:17-23 | putting the head key itself into a full cache discards it, stores it again and appends it last, so the cache stays full and the rest keep their order |
| FifoCache.DropHeadKeepsOrder | 0x01-caching/1-fifo_cache.py:18 | `pop(0)` keeps the relative order of the remaining keys |
| FifoCache.StoreKeepsOrder | 0x01-caching/1-fifo_cache.py:22-23 | appending a key keeps the relative order of the keys already listed |
| FifoCache.FIFOCache.constructor | 0x01-caching/1-fifo_cache.py:10-12 | a new cache is empty, with an empty key list, and satisfies the invariant |
| FifoCache.FIFOCache.Put | 0x01-caching/1-fifo_cache.py:14-23 | the fields change exactly as `AfterPut` says; the discarded key is `Discarded`; the invariant is kept |
| FifoCache.FIFOCache.Get | 0x01-caching/1-fifo_cache.py:25-27 | changes nothing and returns `Lookup` of the state |
| LruCache.Touch | 0x01-caching/3-lru_cache.py:18-20 | `move_to_end` plus assignment stores the value, keeps the order in step with the dict, and puts the key last |
| LruCache.PopFirst | 0x01-caching/3-lru_cache.py:21-22 | `popitem(last=False)` removes exactly the first key, shrinks the dict by one and keeps every other value and the order of the rest |
| LruCache.Discarded | 0x01-caching/3-lru_cache.py:21-23 | a key is discarded exactly when a new key is put into a full cache; it is the first (least recently used) key and never the key put |
| LruCache.AfterPut | 0x01-caching/3-lru_cache.py:17-23 | a `None` key or item changes nothing; otherwise the key maps to the item and is last; at most `MAX_ITEMS` entries, order in step with the dict |
| LruCache.AfterGet | 0x01-caching/3-lru_cache.py:27-28 | a `get` changes no value; a hit moves the key last; a miss changes nothing |
| LruCache.Lookup | 0x01-caching/3-lru_cache.py:27-30 | `get` returns the stored value exactly for a present key, otherwise `None` |
| LruCache.PutCases | 0x01-caching/3-lru_cache.py:18-22 | a `put` is a touch, followed by popping the first key exactly when a new key overflows a full cache |
| LruCache.PutEvictsAtMostOne | 0x01-caching/3-lru_cache.py:20-22 | the keys after a `put` are the old keys plus the key put, minus the discarded key if any |
| LruCache.PutKeepsOtherValues | 0x01-caching/3-lru_cache.py:18-22 | every surviving key other than the one put keeps its value |
| LruCache.OverwriteNeverEvicts | 0x01-caching/3-lru_cache.py:18-21 | overwriting a present key discards nothing and keeps the size |
| LruCache.PutKeepsRecencyOfOthers | 0x01-caching/3-lru_cache.py:18-22 | keys other than the one put and the one discarded keep their relative recency order |
| LruCache.TouchKeepsOrder | 0x01-caching/3-lru_cache.py:19-20 | moving or appending a key keeps the relative order of every other key |
| LruCache.PopFirstKeepsOrder | 0x01-caching/3-lru_cache.py:22 | popping the first key keeps the relative order of the rest |
| LruCache.GetKeepsRecencyOfOthers | 0x01-caching/3-lru_cache.py:27-28 | a `get` hit keeps the relative order of all other keys |
| KeyOrder.MoveToEnd | 0x01-caching/3-lru_cache.py:19 | `move_to_end` on the key order: the same length, with the key last; `MoveToEndKeepsOrder` states that the other keys keep their order |
| KeyOrder.RemoveAt | 0x01-caching/100-lfu_cache.py:34-36 | taking one key out of the dict order, as each `del` does: one element fewer, every element before the position unchanged, every element after it shifted down by one |
| KeyOrder.MoveToEndKeepsOrder | 0x01-caching/3-lru_cache.py:19 | `move_to_end` keeps exactly the same keys, without repetition, puts the key last and keeps the relative order of the others |
| LruCache.LRUCache.constructor | 0x01-caching/3-lru_cache.py:11-13 | a new cache is an empty ordered dict and satisfies the invariant |
| LruCache.LRUCache.Put | 0x01-caching/3-lru_cache.py:15-23 | the fields change exactly as `AfterPut` says; the discarded key is `Discarded`; the invariant is kept |
| LruCache.LRUCache.Get | 0x01-caching/3-lru_cache.py:25-30 | returns `Lookup` of the old state and leaves the state `AfterGet` describes |
| LfuCache.LeastUsedIndex | 0x01-caching/100-lfu_cache.py:31-32 | the position `min(usage_frequency, key=...)` returns, scanning the keys left to right and replacing its candidate only by a strictly smaller (frequency, access order) pair; it is a valid position, and `LeastUsedIndexIsFirstLeast` states what it finds |
| LfuCache.LeastUsedIndexIsFirstLeast | 0x01-caching/100-lfu_cache.py:31-32 | `min` with key (frequency, access order) finds a key that no other key is lexicographically below, and every earlier key in dict order is strictly above it |
| LfuCache.Touch | 0x01-caching/100-lfu_cache.py:22-28 | the state after the store, the frequency update and the access-order update of `put`; it has no contract of its own, and `TouchSynced` states its properties |
| LfuCache.TouchSynced | 0x01-caching/100-lfu_cache.py:22-28 | a touch stores the item and keeps the three dicts on the same keys. A present key keeps its place and gets frequency + 1; a new key is appended with frequency 1. Access order becomes the entry count before the touch. Other keys keep both numbers |
| LfuCache.VictimIndex | 0x01-caching/100-lfu_cache.py:31-32 | `min` over the dicts in their insertion order: a position in the key order holding a cached key; `VictimIsLeastUsed` states that it holds the least used key |
| LfuCache.Evict | 0x01-caching/100-lfu_cache.py:34-36 | the state after the three `del`s of the key at a position; it has no contract of its own, and `EvictSynced` states its properties |
| LfuCache.EvictSynced | 0x01-caching/100-lfu_cache.py:34-36 | the three `del`s remove exactly the victim from all three dicts, keep them in step, shrink them by one and keep every other entry |
| LfuCache.Discarded | 0x01-caching/100-lfu_cache.py:30-33 | a key is discarded exactly when a new key is put into a full cache |
| LfuCache.AfterPut | 0x01-caching/100-lfu_cache.py:16-36 | a `None` key or item changes nothing; every `put` keeps at most `MAX_ITEMS` entries and the three dicts on the same keys |
| LfuCache.AfterGet | 0x01-caching/100-lfu_cache.py:40-43 | a `get` changes no item and no dict order; a miss or `None` changes nothing; the invariant is kept |
| LfuCache.Lookup | 0x01-caching/100-lfu_cache.py:40-44 | `get` returns the stored item exactly for a present key, otherwise `None` |
| LfuCache.PutCases | 0x01-caching/100-lfu_cache.py:22-36 | a `put` is a touch, followed by evicting the `min` key exactly when a new key overflows a full cache |
| LfuCache.VictimIsLeastUsed | 0x01-caching/100-lfu_cache.py:31-32 | the victim position found in dict order holds a least-used key, first among ties |
| LfuCache.DiscardedIsLeastUsed | 0x01-caching/100-lfu_cache.py:30-33 | the discarded key is the least (frequency, access order) key over all keys after the touch, the new key included, and the first such key in dict order |
| LfuCache.PutPresentKey | 0x01-caching/100-lfu_cache.py:22-28 | putting a present key discards nothing, keeps the dict order, stores the item, adds one to its frequency and sets its access order to the entry count |
| LfuCache.PutNewKey | 0x01-caching/100-lfu_cache.py:22-36 | a new key stays exactly when it is not itself the discarded key; it then holds the item with frequency 1 and access order equal to the old entry count |
| LfuCache.PutEvictsAtMostOne | 0x01-caching/100-lfu_cache.py:30-36 | the keys after a `put` are the old keys plus the key put, minus the discarded one; the discarded key loses its frequency and access order |
| LfuCache.PutKeepsOthers | 0x01-caching/100-lfu_cache.py:22-36 | every surviving key other than the one put keeps its item, frequency and access order |
| LfuCache.NewKeyEvictsItself | 0x01-caching/100-lfu_cache.py:26-33 | when every cached key has frequency at least 2, a new key put into a full cache is itself discarded |
| LfuCache.GetHit | 0x01-caching/100-lfu_cache.py:40-44 | a hit returns the item, adds one to its frequency, sets its access order to the entry count, and leaves every other key's numbers alone |
| LfuCache.FrequencyThenRecency | 0x01-caching/100-lfu_cache.py:31-32 | on a hand-written state (not derived from calls): frequency decides first and access order breaks the tie |
| LfuCache.ExactTieTakesFirstKey | 0x01-caching/100-lfu_cache.py:28-32 | on a hand-written state (not derived from calls) with equal access orders, as `len(access_order)` allows; `min` takes the first key in dict order |
| LfuCache.LFUCache.constructor | 0x01-caching/100-lfu_cache.py:10-14 | a new cache has three empty dicts and satisfies the invariant |
| LfuCache.LFUCache.Put | 0x01-caching/100-lfu_cache.py:16-36 | the fields change exactly as `AfterPut` says; the discarded key is `Discarded`; the invariant is kept |
| LfuCache.LFUCache.Register | 0x01-caching/100-lfu_cache.py:22-28 | the field-by-field updates of the touch leave exactly the state `Touch` describes |
| LfuCache.LFUCache.DiscardAt | 0x01-caching/100-lfu_cache.py:34-36 | the three `del`s leave exactly the state `Evict` describes |
| LfuCache.LFUCache.Get | 0x01-caching/100-lfu_cache.py:38-44 | returns `Lookup` of the old state and leaves the state `AfterGet` describes |
| SimpleHelper.IndexRange | 0x00-pagination/0-simple_helper_function.py:5-9 | end is `page * page_size` and end - start is `page_size`; start is non-negative for a page of at least 1 and a non-negative size |
| SimpleHelper.FirstPage | 0x00-pagination/0-simple_helper_function.py:7-8 | page 1 covers `(0, page_size)` |
| SimpleHelper.PagesAdjacent | 0x00-pagination/0-simple_helper_function.py:7-8 | the end of page `p` is the start of page `p + 1` |
| SimpleHelper.StartGrowsWithPage | 0x00-pagination/0-simple_helper_function.py:7 | the start of a later page is `page_size` times the page difference further on |
| HypermediaPagination.Slice | 0x00-pagination/2-hypermedia_pagination.py:63 | a Python slice with both bounds clipped to the length: its exact length and its elements |
| HypermediaPagination.GetPage | 0x00-pagination/2-hypermedia_pagination.py:48-63 | fails with the first assertion when `page <= 0` and with the second when `page_size <= 0`, and succeeds otherwise |
| HypermediaPagination.GetPageContents | 0x00-pagination/2-hypermedia_pagination.py:62-63 | a page holds at most `page_size` rows, exactly the rows from `(page - 1) * page_size` on, and is empty exactly when that start is past the dataset |
| HypermediaPagination.CeilDiv | 0x00-pagination/2-hypermedia_pagination.py:77 | the exact ceiling of `n / d`: the least `q` with `q * d >= n` |
| HypermediaPagination.GetHyper | 0x00-pagination/2-hypermedia_pagination.py:65-85 | errors propagate from `get_page`. On success: `data` is the page, `page_size` its length, `page` echoed, `total_pages` the ceiling. `next_page` is `page + 1` exactly when `page < total_pages`, `prev_page` is `page - 1` exactly when `page > 1` |
| HypermediaPagination.NextPageHasRows | 0x00-pagination/2-hypermedia_pagination.py:77-82 | there is a next page exactly when that page has rows |
| HypermediaPagination.PagesArePrefix | 0x00-pagination/2-hypermedia_pagination.py:62-63 | pages `1..k` concatenated are the dataset's first `min(k * page_size, len)` rows |
| HypermediaPagination.PagesCoverDataset | 0x00-pagination/2-hypermedia_pagination.py:62-77 | pages `1..total_pages` concatenated are the whole dataset, and every later page is empty |
| DelResilientPagination.IndexedDataset | 0x00-pagination/3-hypermedia_del_pagination.py:58-59 | the keys are exactly `0..len(dataset)-1`, and each maps to its row |
| DelResilientPagination.IndexedDatasetSize | 0x00-pagination/3-hypermedia_del_pagination.py:58-59 | the indexed dataset has as many entries as the dataset has rows |
| DelResilientPagination.GetHyperIndex | 0x00-pagination/3-hypermedia_del_pagination.py:102-130 | fails exactly when `index` is outside `[0, len(indexed))`. Otherwise it echoes `index` and returns `max(page_size, 0)` rows. The rows are those of the present keys in `[index, next_index)` in key order, and `page_size` is their count. `next_index` is one past the last key used, or `index` when no row is asked for |
| DelResilientPagination.RowsConcat | 0x00-pagination/3-hypermedia_del_pagination.py:119-127 | the rows of `[a, b)` followed by those of `[b, c)` are the rows of `[a, c)`, so a next call from `next_index` repeats no row and skips none, provided it passes the bounds check of line 114 |
| DelResilientPagination.RowsOfIndexed | 0x00-pagination/3-hypermedia_del_pagination.py:117-123 | on an indexed dataset with no deletions, the rows of `[i, j)` are `dataset[i:j]` |
| DelResilientPagination.RowsCount | 0x00-pagination/3-hypermedia_del_pagination.py:119-123 | the rows of `[lo, hi)` number exactly the present keys in that range |

## Left out

- **`base_caching.py`** is not part of this model. `MAX_ITEMS` is a positive
  constructor parameter, `cache_data` starts empty, and `print_cache` is not modelled.
  A positive bound is needed: with `MAX_ITEMS == 0`, FIFO's `pop(0)` fails on an
  empty list.
- **The `DISCARD` console line** is not modelled. `Put` returns the discarded key
  instead.
- **CSV reading and memoisation** in `Server.dataset()` and `Server.indexed_dataset()`
  are file I/O and caching of a field, and are not modelled. This covers `open`,
  `csv.reader`, the header skip and the `FileNotFoundError` message. The rows are a
  `seq<Row>` parameter. `get_hyper_index` takes any `map<int, Row>`, so it also covers
  an indexed dataset with rows deleted.
- **`math.ceil(len / page_size)`** uses float division. It is modelled as exact
  integer ceiling division, which differs only for sizes beyond float precision.
- **The `isinstance` checks** in the assertions are not modelled, because Dafny's
  types already guarantee integers.
- **`get_hyper_index` non-termination.** Fewer than `page_size` present keys from
  `index` on make the inner `while` loop run forever. `GetHyperIndex` therefore
  requires enough keys whenever the bounds check passes.
- **Default arguments.** `get_page` and `get_hyper` default to `page=1, page_size=10`,
  and `get_hyper_index` to `index=0, page_size=10`. `GetPage`, `GetHyper` and
  `GetHyperIndex` take every argument explicitly; a call that relies on a default
  is the call with that value written out.
- **Duplicated functions.** The copies of `index_range`, `get_page` and `get_hyper`
  in `0x00-pagination/2-hypermedia_pagination.py` and
  `0x00-pagination/3-hypermedia_del_pagination.py` are identical. Each is modelled
  once: `SimpleHelper.IndexRange`, `HypermediaPagination.GetPage` and
  `HypermediaPagination.GetHyper`.
- **Dicts as sequence plus map.** A Python dict's insertion order is modelled as a key
  sequence beside a map. This covers LRU's `OrderedDict` and the LFU dicts, which
  share one order because keys enter and leave them together. Hashing and O(1)
  access are not modelled.
- **LfuCache.Synced** does not state that every frequency is at least 1. No property
  here depends on it.
- **LFU scenarios.** LFU victim choice is shown on two concrete states through
  `LeastUsedIndex`, not on a whole sequence of concrete `put` and `get` calls.
- **The i18n apps and queuing clients.** The Flask i18n apps in `0x02-i18n` and the
  Redis, Kue and Express clients in `0x03-queuing_system_in_js` are not part of this
  model. They are glue over web, locale and messaging libraries.
