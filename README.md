# Tiled image viewer: remote read caches, tile queue and tile list

This project models the sequential core of a tiled HEIF image viewer in Dafny and proves properties of the model. The core has four parts.

**Byte source and remote file (`remote.dfy`, module `Remote`).**
The decoder pulls bytes from a reader through a small callback interface: position, read, seek, wait for a file size, range request and release. The remote file is a `Server` holding the file's bytes. Its one operation, `Fetch`, is an HTTP range request for the inclusive byte-range-spec `first-last` (section 14.1.2 of RFC 9110). The transport may fail at any time. A reply that arrives is exactly the satisfiable part of the range. Every request is recorded in a ghost log, so contracts can say which fetches an operation issues.

**Arbitrary-range cache (`range_cache.dfy`, module `RangeCache`).**
`HttpReader` has a cursor and an unordered list of cached ranges, each the reply to one fetch.
- A read copies out of the first cached range that contains the cursor. On a miss it fetches up to 64 KiB from the cursor and appends the reply.
- A range request fetches the span unless one cached range already holds all of it.
- A release drops the ranges that lie inside the released span.

The invariant is that every cached range is a slice of the file at its own offset. The ranges a read stores are described by the function `Plan`.

**Block-aligned cache (`block_cache.dfy`, module `BlockCache`).**
`HttpReaderBlockCache` has one slot per block of the file, in an array. Each slot is empty or holds its whole block.
- A range request is widened to blocks and narrowed past the resident blocks at both ends. One fetch then fills the blocks that are left.
- A read is served only when every block it touches is resident.

**Tile request queue (`tile_loader.dfy`, module `TileLoading`).**
`TileLoader` holds the double-ended queue of tile requests. Each pass of a decoding worker is one `Step`. A worker takes the first wanted request, or the front one when none is wanted.

**Tile list and zoom level of the render loop (`viewer.dfy`, module `TileViewer`).**
`Viewer` keeps at most 150 tiles, most recently drawn first. It models what one visit of a visible tile does to the list, what the end of a decoding does, and the zoom bounds of the active layer.

`options.dfy` declares the `Option` type the modules share.

## Model

| member | source | states |
|---|---|---|
| Remote.LastByte | sources/http_reader.cc:181 | The last byte of an exclusive end is `end - 1`; an end of 0 is read as byte 0. |
| Remote.Served | sources/http_reader.cc:48-81 | A range is answered exactly when `first <= last` and `first` lies inside the file. The reply is the file's bytes from `first`, cut at the end of the file, so it is never empty. |
| Remote.Server.Fetch | sources/http_reader.cc:48-81 | Every call logs one request for `first-last`. A successful call returns exactly what `Served` describes. An unsatisfiable range always fails. |
| RangeCache.FirstContaining | sources/http_reader.cc:109-110 | A found index is in bounds and its range contains `pos`. |
| RangeCache.FirstContainingSpec | sources/http_reader.cc:109-110 | The picked range is the first in list order that contains `pos`. None means no range contains it. |
| RangeCache.FirstContainingAppended | sources/http_reader.cc:134-137 | After a miss at `pos`, the appended reply is the range the next lookup at `pos` picks. |
| RangeCache.FindRange | sources/http_reader.cc:109-122 | The cache scan returns the first range containing `pos`, or None when no range contains it. |
| RangeCache.HitLength | sources/http_reader.cc:111-113 | A hit copies up to `rem` bytes, and stops early only at the end of the first containing range. It copies at least one byte when `rem > 0`. A miss copies nothing. |
| RangeCache.Plan | sources/http_reader.cc:105-139 | The ranges a read stores, in fetch order. A read of `rem` bytes stores at most `rem` ranges. |
| RangeCache.ChunkSpan | sources/http_reader.cc:126-127 | A miss at `pos` asks for `pos` to `min(pos + 65535, size - 1)`, which is `Min(65536, size - pos)` bytes. |
| RangeCache.Fill | sources/http_reader.cc:134-137 | The stored reply starts at the span's first byte, has the span's length and agrees with the file. |
| RangeCache.PlanHit | sources/http_reader.cc:109-121 | A hit copies at least one and at most `rem` bytes. The rest of the read follows the plan from the new position, with no new range stored. |
| RangeCache.PlanMiss | sources/http_reader.cc:124-138 | A miss first stores the 64 KiB chunk at `pos`, and the read then continues at the same position. |
| RangeCache.MissStep | sources/http_reader.cc:124-138 | A successful miss fetch appends one range that agrees with the file. It consumes the next range of the plan and keeps the loop's progress invariant. |
| RangeCache.HitStep | sources/http_reader.cc:109-121 | A hit advances the cursor by `HitLength` bytes and keeps the progress invariant. |
| RangeCache.FailStep | sources/http_reader.cc:130-132 | A failed miss fetch ends the read: the ranges stored are a strict prefix of the plan, and the last logged request is for the next range of the plan. |
| RangeCache.ColdRead | sources/http_reader.cc:124-138 | On an empty cache, a read of 100000 bytes from a 200000-byte file stores the chunks 0-65535 and 65536-131071. |
| RangeCache.PlanEmpty | sources/http_reader.cc:105-139 | A read fetches nothing if and only if every byte it covers is already in some cached range. |
| RangeCache.PlanChunks | sources/http_reader.cc:124-138 | Every range a read stores is the reply to a 64 KiB chunk request at a position inside the read. |
| RangeCache.ChunksAfterHit | sources/http_reader.cc:109-121 | The hit case of `PlanChunks`. |
| RangeCache.ChunksAfterMiss | sources/http_reader.cc:124-138 | The miss case of `PlanChunks`. |
| RangeCache.Released | sources/http_reader.cc:216 | A non-empty range is dropped if and only if every one of its bytes lies in `start..end`, with `end` itself counted as inside the span. |
| RangeCache.ReleaseIncludesEnd | sources/http_reader.cc:216 | A range whose last byte is exactly `end` is dropped. One byte more and it is kept. |
| RangeCache.Kept | sources/http_reader.cc:213-219 | A range survives a release exactly when it was cached and does not lie inside the released span. |
| RangeCache.KeptConcat | sources/http_reader.cc:213-219 | A release distributes over concatenation, so the surviving ranges keep their relative order. |
| RangeCache.KeptUnreleased | sources/http_reader.cc:213-219 | A release of a span that holds no cached range leaves the cache as it was. |
| Remote.CopyBytes | sources/http_reader.cc:115 | The `memcpy`: `src` replaces as many bytes of the buffer, starting at `at`, and the bytes before and after are unchanged. |
| RangeCache.CopyHit | sources/http_reader.cc:111-118 | Copying `n` bytes of an agreeing range extends the copied prefix of the output by `n` file bytes. |
| RangeCache.HttpReader.constructor | sources/http_reader.cc:250-299 | After a successful initialisation the file size is known and greater than 0, the cursor is 0 and the cache is empty. |
| RangeCache.HttpReader.GetPosition | sources/http_reader.cc:85-90 | Returns the cursor. |
| RangeCache.HttpReader.Read | sources/http_reader.cc:92-143 | A read past the end returns size-beyond-EOF and changes nothing. A successful read copies exactly `file[pos..pos+size]` into the front of `out`, leaves the rest of `out` alone, advances the cursor by `size`, and stores and fetches exactly the ranges of `Plan`. A failed read keeps the cursor, and the ranges it stored are a strict prefix of the plan. |
| RangeCache.CopyLoop | sources/http_reader.cc:101-139 | The copy loop either completes, with the output equal to the file's bytes and the cache grown by the plan, or stops at a failed fetch in a state consistent with the plan. |
| RangeCache.ReadStep | sources/http_reader.cc:105-139 | One pass of the loop keeps the loop invariant and makes progress: the cursor moves on a hit, and a range is stored on a miss. |
| RangeCache.ReadHit | sources/http_reader.cc:109-121 | A hit copies the bytes of the first containing range and moves the cursor forward by at least one byte. |
| RangeCache.ReadMiss | sources/http_reader.cc:124-138 | A miss issues one logged fetch of the chunk at the cursor. It appends the reply or reports the failure. |
| RangeCache.HttpReader.Seek | sources/http_reader.cc:145-156 | A target outside `0..fileSize` returns -1 and keeps the cursor. Any other target becomes the cursor and returns 0. |
| RangeCache.HttpReader.WaitForFileSize | sources/http_reader.cc:158-167 | Returns size-reached if and only if the target is at most the file size, and size-beyond-EOF otherwise. |
| RangeCache.HttpReader.RequestRange | sources/http_reader.cc:169-205 | When one cached range spans `start..end-1`, it returns success and fetches nothing. Otherwise there is exactly one logged fetch of that span: a success appends its reply, and a failure returns an error with code 1 and an unchanged cache. The range end always echoes the caller's `end`. After a success inside the file, the span is cached. |
| RangeCache.RequestRangeTwice | sources/http_reader.cc:183-204 | After a successful request inside the file, repeating it returns success and changes nothing: `log1` and `cache1` are the state the first request left. If some cached range already spanned the request, they are the old log and cache, so the first request fetched nothing. Otherwise the log gained exactly the one fetch of `start..end-1`, and the cache at most its reply. The second request leaves both unchanged, so it makes no fetch. |
| RangeCache.RequestRangePastEnd | sources/http_reader.cc:183-204 | A request with `start < fileSize < end` is never covered by a cached range, because replies stop at the end of the file. The first request logs one fetch of `start..end-1` onto the old log, and the repeat logs a second one. |
| RangeCache.HttpReader.ReleaseFileRange | sources/http_reader.cc:207-220 | The cache becomes `Kept` of the old cache, and the invariant is kept. |
| RangeCache.HttpReader.GetCachedRanges | sources/http_reader.cc:328-337 | One entry per cached range, in the cache's order: its start and the length of its data. |
| BlockCache.SlotCount | sources/http_reader_blockcache.cc:346 | The slot count `ceil(size / bs)` is 0 for an empty file. Otherwise it is positive: the last slot starts inside the file, and the slots cover it. |
| BlockCache.BlockLength | sources/http_reader_blockcache.cc:245-250 | Every resident block is non-empty. All but the last hold `bs` bytes, and the last holds `size - (n-1)*bs`. |
| BlockCache.SkipLow | sources/http_reader_blockcache.cc:202-209 | The low end moves up past resident blocks only, and stops at an empty slot or past the high end. |
| BlockCache.SkipHigh | sources/http_reader_blockcache.cc:211-218 | The high end moves down past resident blocks only, and stops at an empty slot or below the low end. |
| BlockCache.NothingToFetch | sources/http_reader_blockcache.cc:202-223 | A range request is a no-op if and only if every block it touches is resident. |
| BlockCache.HttpReaderBlockCache.ResidentEnds | sources/http_reader_blockcache.cc:199-218 | The two narrowing loops compute `SkipLow` and then `SkipHigh`. |
| BlockCache.BlockSpan | sources/http_reader_blockcache.cc:228-235 | The fetch of blocks `sb..lb` starts at block `sb`. It ends at the end of block `lb`, or at the last byte of the file when that block is the short last one. It is non-empty when `sb <= lb` and block `sb` lies inside the file. |
| BlockCache.FetchedBlock | sources/http_reader_blockcache.cc:245-250 | Part `b - sb` of a fetch of blocks `sb..lb`, cut at the end of the file, is exactly block `b` of the file. |
| BlockCache.FillStep | sources/http_reader_blockcache.cc:245-251 | One pass of the fill loop gives slot `b` its block and keeps every slot in agreement with the file. |
| BlockCache.HttpReaderBlockCache.FillBlocks | sources/http_reader_blockcache.cc:245-251 | After the fill loop, every slot in `sb..lb` holds its block, and every other slot is unchanged. |
| BlockCache.FullAfterFill | sources/http_reader_blockcache.cc:199-251 | Because the skipped blocks were resident, a fill of the narrowed span makes the whole requested span resident. |
| BlockCache.HttpReaderBlockCache.constructor | sources/http_reader_blockcache.cc:304-354 | After a successful initialisation there are `ceil(size / blockSize)` slots, all empty, and the cursor is 0. |
| BlockCache.HttpReaderBlockCache.GetPosition | sources/http_reader_blockcache.cc:87-92 | Returns the cursor. |
| BlockCache.HttpReaderBlockCache.Seek | sources/http_reader_blockcache.cc:157-168 | A target outside `0..fileSize` returns -1 and keeps the cursor. Any other target becomes the cursor and returns 0. |
| BlockCache.HttpReaderBlockCache.WaitForFileSize | sources/http_reader_blockcache.cc:170-179 | Returns size-reached if and only if the target is at most the file size. |
| BlockCache.HttpReaderBlockCache.ReleaseFileRange | sources/http_reader_blockcache.cc:256-271 | Nothing changes: not the cursor and not any slot. |
| BlockCache.HttpReaderBlockCache.GetCachedRanges | sources/http_reader_blockcache.cc:383-396 | The snapshot is `ResidentRanges` of the slots. |
| BlockCache.ResidentRangesSound | sources/http_reader_blockcache.cc:389-393 | Each entry is a whole `bs` at a block offset whose slot is resident, including for a short final block. |
| BlockCache.ResidentRangesComplete | sources/http_reader_blockcache.cc:389-393 | Every resident slot appears in the snapshot. |
| BlockCache.ResidentRangesOrdered | sources/http_reader_blockcache.cc:389-393 | The entries are in strictly increasing order of offset. |
| BlockCache.HttpReaderBlockCache.RequestRange | sources/http_reader_blockcache.cc:181-254 | When every touched block is resident, it returns success with no fetch and no change. Otherwise it issues exactly one fetch, of the blocks from `SkipLow` to `SkipHigh` cut at the end of the file. A success fills exactly those slots and leaves the others alone. A failure returns an error with code 1 and changes no slot. The range end echoes `end`, and after a success the whole requested span is resident. |
| BlockCache.HttpReaderBlockCache.Resident | sources/http_reader_blockcache.cc:110-117 | The residency scan is true if and only if every block from `first` to `last` is resident. |
| BlockCache.ReadBlocks | sources/http_reader_blockcache.cc:110-111 | The first and last blocks of a read inside the file are slot indices, in order. |
| BlockCache.HttpReaderBlockCache.Read | sources/http_reader_blockcache.cc:94-155 | A read past the end returns size-beyond-EOF and changes nothing. A read whose blocks are all resident copies exactly `file[pos..pos+size]`, advances the cursor by `size` and fetches nothing. Otherwise it logs one chunk fetch at the cursor, keeps cursor, slots and output, and fails. |
| BlockCache.CopyBlocks | sources/http_reader_blockcache.cc:119-134 | The block copy loop copies exactly `file[p0..p0+size]` into the front of `out`, starting at offset `p0 - b*bs` in the first block, and ends at `p0 + size`. |
| BlockCache.CopyBlock | sources/http_reader_blockcache.cc:120-133 | One pass copies up to the end of block `b` or of the read, and the cursor then lies in block `b + 1` unless the read is done. |
| BlockCache.BlockCopy | sources/http_reader_blockcache.cc:121-129 | The bytes one pass takes from the slot of block `b` are the file's bytes at the cursor. |
| TileLoading.Find | sources/tile_loader.cc:57-62 | Returns the first request for the tile, or None when the tile is not queued. |
| TileLoading.Queued | sources/tile_loader.cc:52-67 | For a queued tile, only that request changes: it becomes wanted, and length, order and other flags stay the same. A new tile is prepended as a wanted request. |
| TileLoading.TileLoader.IndexOf | sources/tile_loader.cc:115-119 | The scan returns `Find` of the queue. |
| TileLoading.TileLoader.QueueTile | sources/tile_loader.cc:52-67 | The queue becomes `Queued` of the old queue, and one request per tile is kept. |
| TileLoading.QueuedUnique | sources/tile_loader.cc:52-67 | Queueing keeps at most one request per tile, and afterwards the tile is queued. |
| TileLoading.Unwanted | sources/tile_loader.cc:69-75 | Every request loses its wanted flag. Length, order and tiles stay the same. |
| TileLoading.TileLoader.MarkAllUnwanted | sources/tile_loader.cc:69-75 | The queue becomes `Unwanted` of the old queue, and one request per tile is kept. |
| TileLoading.UnwantedUnique | sources/tile_loader.cc:69-75 | Clearing the flags keeps every request's tile, and so keeps one request per tile. |
| TileLoading.FirstWanted | sources/tile_loader.cc:80-84 | Returns the first wanted request, or None when none is wanted. |
| TileLoading.Best | sources/tile_loader.cc:77-90 | None if and only if the queue is empty. Otherwise it picks the first wanted request, or the front when none is wanted. |
| TileLoading.TileLoader.PickBestTile | sources/tile_loader.cc:77-90 | The scan returns `Best` of the queue. |
| TileLoading.PickAfterQueue | sources/tile_loader.h:61 | Wanted first, then last in first out: after all flags are cleared, the tile queued next is the one a worker takes. |
| TileLoading.Without | sources/tile_loader.cc:115-119 | Removing index `k` drops that request. The others keep their order, and the length drops by one. |
| TileLoading.TileLoader.Step | sources/tile_loader.cc:97-120 | After shutdown, it stops and removes nothing. On an empty queue, it waits. Otherwise it loads the picked request and removes the first request for its tile. With one request per tile, that is exactly the picked one, and uniqueness is kept. |
| TileLoading.DequeueUnique | sources/tile_loader.cc:107-119 | With one request per tile, the erase finds exactly the picked request, and the queue after it keeps one request per tile. |
| TileLoading.UniqueFind | sources/tile_loader.cc:115-119 | With one request per tile, the request at `b` is the first one for its tile. |
| TileLoading.WithoutUnique | sources/tile_loader.cc:115-119 | Removing a request keeps one request per tile. |
| TileLoading.TileLoader.Shutdown | sources/tile_loader.cc:36-41 | Sets the shutdown flag. |
| TileLoading.TileLoader.constructor | sources/tile_loader.h:64-68 | A new loader has an empty queue and is not shut down. |
| TileViewer.ReleaseOf | sources/main.cc:296-301 | Eviction unloads the texture if and only if the tile is ready, and the image if and only if it waits for its texture. |
| TileViewer.Find | sources/main.cc:275-276 | Returns the first tile at the position, or None. |
| TileViewer.MovedToFront | sources/main.cc:48-56 | The old `tiles[k]` goes to index 0 and `tiles[0..k)` shift right by one. The rest and the length are unchanged. |
| TileViewer.Viewer.MoveToFront | sources/main.cc:48-56 | The shifting loop leaves the list equal to `MovedToFront` of the old list. |
| TileViewer.MovedToFrontPermutes | sources/main.cc:48-56 | Moving to the front is a permutation. |
| TileViewer.Visited | sources/main.cc:273-316 | A missing tile is put at the front in state loading, after the last tile is dropped when the list is full. A loading tile changes nothing. A decoded tile becomes ready and moves to the front. |
| TileViewer.Viewer.VisitTile | sources/main.cc:273-316 | The scan with its in-loop move to the front, followed by the insertion, leaves the list equal to `Visited`. It reports whether a texture was uploaded and, on insertion, which tile was evicted and what was released. The invariant is kept. |
| TileViewer.VisitedValid | sources/main.cc:294-311 | A visit keeps the list within 150 tiles and at one tile per position. The visited tile is then in the list, and at the front unless it is still loading. |
| TileViewer.VisitIdempotent | sources/main.cc:273-316 | Visiting the same tile twice in a row gives the same list as visiting it once. |
| TileViewer.Loaded | sources/main.cc:121-128 | The first tile at the position now waits for its texture, and every other tile is unchanged. An absent (evicted) tile leaves the list unchanged. |
| TileViewer.Viewer.LoadTileDone | sources/main.cc:121-128 | The loop with its break leaves the list equal to `Loaded`, and the invariant is kept. |
| TileViewer.LoadedValid | sources/main.cc:121-128 | The completion of a decoding keeps every tile's position, and so keeps one tile per position. |
| TileViewer.Viewer.constructor | sources/main.cc:166-186 | The viewer starts with an empty list and an active layer inside `0..layers`. |
| TileViewer.Viewer.Zoom | sources/main.cc:216-239 | A wheel step of +1 goes one layer up while below the top, and -1 goes one layer down while above 0. Anything else keeps the layer, and the layer stays in `0..layers`. |

## Left out

- libcurl is not modelled: the transfer itself, the write callback and the HEAD request of both `init` functions. `Fetch` stands for the transfer. The constructors take a file of known, positive size. The failure paths of `init` are therefore not modelled.
- `get_file_size`, `cleanup`, the destructors, `get_heif_reader`, `get_callback_user_data` and the no-op `cb_release_error_msg` are plumbing around the modelled state and are not modelled.
- Mutexes, the condition variable, the worker threads and `join` are not modelled. Each modelled operation is one critical section. `TileLoader.Step` is one pass of the worker loop, and its `Wait` result stands for blocking on the condition variable. The decoding callback the worker calls is not modelled; `Load` returns the request instead.
- The raylib drawing, input and texture calls are not modelled, and neither are the libheif pyramid, tiling and decoding calls or the pixel copy in `load_tile`. These are foreign libraries. `Visit` and `Release` report the texture uploads and releases instead.
- Visible-tile enumeration and the pan and zoom offsets are not modelled. They are screen geometry and use C++ truncating division on negative offsets. `VisitTile` models one visit of one visible tile.
- Integer widths are not modelled; layers and positions are unbounded integers. This covers the `int` casts of block indices and lengths in the block cache, `uint32_t` layers and `int64_t` positions.
- BlockCache.HttpReaderBlockCache.Read: the miss path fetches one chunk and then fails an assertion. The model logs that fetch. It returns `SizeBeyondEof` when the fetch fails and `Error` in place of the assertion failure when it succeeds.
- BlockCache.HttpReaderBlockCache.Read: requires `size > 0`, because the last block index `(pos + size - 1) / bs` has no meaning for an empty read at position 0. It also requires that `out` is not the slot array, a fact the verifier does not derive from the two arrays' element types.
- BlockCache.HttpReaderBlockCache.RequestRange: requires that the request's last block is a slot when the range is not empty after widening. The source indexes the slot vector there without a bounds check.
- Remote.Served: an invalid range (`last < first`) always fails. The transfer also rejects error statuses (400 and up), and section 14.2 of RFC 9110 lets a server ignore an invalid range and send status 200 with the whole file. The transfer does not check for 206, so it would accept that reply. `RequestRange` with `end <= start`, or with `end == 0 < start`, would then cache the whole file at offset `start`, and the cached range would no longer agree with the file. The model assumes a server that refuses invalid ranges.
- RangeCache.RequestRangeTwice: requires `end <= fileSize`. For a request ending past the end of the file, the source does not make a repeat a no-op: it fetches again on every call, as `RangeCache.RequestRangePastEnd` shows.
- RangeCache.HttpReader.Read: the model relies on the server contract that a satisfiable range is never answered with zero bytes. With an empty reply the source's loop would never end.
- TileLoading.TileLoader.Shutdown: the queue is not cleared, because the code never clears it, whatever its declaration says.
- TileViewer.Viewer.Zoom: `Valid` requires at least one layer, because for zero layers the source's unsigned `size() - 1` would wrap.
- The declaration-only headers are not modelled, and neither is the trivial-cache variant.
