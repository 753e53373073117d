# Verification of libkvs

A Dafny model of the four connected cores of libkvs, with proofs of what they promise. `dafny verify dfyconfig.toml` checks all of it.

libkvs mounts trees of key-value storages over one virtual tree. Each storage is a linear hash table whose buckets live in two files behind a small cache. A multiple-granularity mutex guards the nodes, and a geo index finds records in a rectangle through a Hilbert curve.

## The parts

- **Linear hashing.** `TableModel` is the table on values, which is what the in-memory bucket manager gives; `TableMap` proves over every run, for any hash function, that it is a finite map whose load stays in its band. `LoadFactors` says when it splits and merges, and `SplitOrder` what goes where. `Bitarrays`, `CacheModel` and `BucketManager` are the file-backed manager: a cache that loads, evicts and writes buckets behind the table's back. `Wiring` and `LinearHashing` put the table on top of it and prove that every operation does what it does in memory, for any cache size, and exactly when flushing and opening the files again gives the same table; `Evictions` is what the cache writes while a chain is walked and drained, and `SavedTables` the table that the files hold. `TableSteps`, `WiredChains`, `CacheSteps` and `OpenedFiles` are the single steps that these proofs are made of. `TableKeys` is the table's range query. `Buffers` and `Pages` are the bytes: buffers, records, pages and slots.
- **Geo index.** `HilbertCurve` is the curve at every bit width: bijection and continuity. `GeoHash` lays it over a domain, `GeoPrefix` and `GeoSearch` cover a box with runs of positions, and `GeoIndex` proves that a query over a sorted file is the naive filter.
- **Locks.** `MGMutex` is one mutex: safety, order of grants and an exact bound on waiting. `LockSystem` is all of them with any number of threads: no deadlock, and exclusive mounts.
- **Virtual storage.** `Paths` splits paths. `RegistryModel` and `StorageRegistry` are the volumes and the registry that shares and counts their storages. `MountLists`, `MountModel` and `VirtualMounts` are mounting, unmounting and remounting, `MountPriorities` is when the lists keep the priorities, and `RemountOrders` remounts several mount points in any order. `Storage` is one storage with expiring records on the clock, built on the table above; `Layers` reads and writes through the storages of one virtual node, and pages through their keys, as `KeysRange` says, also while records expire (`ExpiringKeys`).

Classes follow the source's classes and keep their fields; methods keep the source's loops and branches and are proved against functions on values. Coordinates are reals and loads are compared after cross-multiplication. `Bits` has words as naturals.

## Where the code does not do what it is for

For each, the condition under which the code is right is proved, with a concrete input where it is not.

- **A removal can come back** (`Reopening.RemovalComesBack`). `flush` writes the table metadata only if it wrote a bucket. When the only changed bucket was merged away nothing is dirty, the old metadata stays, and the record is there again after reopening. Flush and reopen give the same table exactly when some bucket was dirty or the metadata was current (`LinearHashing.LinearHashingTable.CloseAndReopen`). An insertion always survives. A removal comes back exactly if it takes the last record of the last chain, which is then merged away, and nothing is written on the way (`ComesBack`, `RemoveAndReopen`); something is written only if the walk to the key pushes the first bucket of the chain out of the cache and leaves it full (`LeavesTraceWhen`). Then the whole table is the one before the removal.
- **Overflow slots can leak.** A slot that is freed without a later write stays marked in the stored metadata; after reopening nothing uses it. No operation leaks a slot (`BucketManager.OccupiedIs`), and neither does closing with something to write (`CloseAndReopen`).
- **Keys in overflow buckets are never listed** (`TableKeys.ThirdKeyMissed`). The range query reads primary buckets only, and misses exactly the others (`TableKeys.OverflowIsMissed`).
- **Pages of keys can overlap** (`KeysRange.PagesOverlap`). The skipped keys are counted with repeats and the returned ones without, so pages fit together exactly when no new key comes after a repeated one (`KeysRange.PagesFit`).
- **Unmounting and remounting can take another mount point's priority** (`MountLists.UnmountTakesTheWrongEntry`, `VirtualMounts.MountTakesAnotherEntry`). The entry is searched by storage alone. Unmounting leaves every other mount point its entry exactly when no mount point of higher priority overlaps the one that goes, which is a matter of volumes, paths and priorities only (`VirtualMounts.VirtualStorage.Unmount`, `MountPriorities.Outranked`). A mount remounts several of them in the order of a hash map: the priorities survive every order exactly when none of them is outranked (`RemountOrders.KeptInEveryOrder`), and whatever the order they are lost if the last one is (`VirtualMounts.VirtualStorage.Mount`). The storages listed are always right.
- **Deleting a key can leave it visible** (`Layers.DeleteUncovers`). The first layer that holds a record loses it, even an expired one; the key is gone exactly when no other storage of the node shows it (`Layers.DeleteValue`).
- **Different nodes can share files** (`Paths.FilesClash`). File names join the components with `_`; two nodes share them exactly when, leading empty components aside, their components cut at `_` are the same (`Paths.FilesShared`).
- **A colon in a volume's path** makes the registry look for another volume on release, and only that does (`RegistryModel.ColonInVolume`, `RegistryModel.KeyRoundTrip`).
- **A box outside the domain** whose corners fall into different cells leaves the prefix search with nothing to recombine (`GeoSearch.OutsideKeepsNothing`). Every other box is covered, and points may lie anywhere.
- **The buffer's bounds check wraps around** for a count above the stop, and is right exactly up to there (`Buffers.RejectsIsRight`).
- **Growing a bit array can show old bits** (`Bitarrays.ResizeResurrects`), exactly when the bytes still hold some past the old end (`Bitarrays.Bitarray.Resize`). The overflow allocator only ever cuts off unset bits, so it is not affected.
- **The mutex compares a request with its current mode only.** Its holders are pairwise compatible in every run exactly for the mode sets where fitting a common mode implies fitting each other (`MGMutex.ClosedIsSafe`, `MGMutex.SafeIsClosed`); the sets that libkvs uses are such.

Some things are harmless but not what a reader expects: `startsWith` compares characters and not components, so a mount at `ab` also remounts the mount points of `a`; a mount point can be remounted twice in one mount; a cell that a box only touches may be left out of its cover (`GeoSearch.TouchingIsNotCovered`); and the parameter `bucketCacheSizeBytes` is used as a number of buckets.

## Model

| member | source | states |
|---|---|---|
| TableModel.AddressIs | libs/index-cpp/src/linear_hashing_table.h:840-848 | With power-of-two bases the two masks are remainders, and the address is always one of the n + p chains. |
| TableModel.SplitAddress | libs/index-cpp/src/linear_hashing_table.h:911-936 | Advancing the split pointer changes the address of a key only from the split chain p to the new last chain n + p, for any digest. |
| TableModel.RetreatAdvance | libs/index-cpp/src/linear_hashing_table.h:920-923 | Advance keeps n a power of two, p below n and the chain count one higher, and `shrink`'s retreat undoes it. |
| TableModel.AdvanceRetreat | libs/index-cpp/src/linear_hashing_table.h:945-950 | Retreat keeps n a power of two, p below n and the chain count one lower, and the advance of a split undoes it. |
| TableMap.SplitConserves | libs/index-cpp/src/linear_hashing_table.h:911-936 | A split neither loses nor invents a record, as multisets over all chains. |
| TableMap.MergeConserves | libs/index-cpp/src/linear_hashing_table.h:941-963 | A merge neither loses nor invents a record. |
| TableMap.SplitWellFormed | libs/index-cpp/src/linear_hashing_table.h:911-936 | A split keeps every key in the one chain its address names, keys unique, and the size the number of records, with the same map. |
| TableMap.MergeWellFormed | libs/index-cpp/src/linear_hashing_table.h:941-963 | The same for a merge, as long as there are more chains than the minimum. |
| TableMap.FindIsLookup | libs/index-cpp/src/linear_hashing_table.h:764-780 | `find` and `contains` answer as the finite map of the table does. |
| TableMap.InsertIsMapInsert | libs/index-cpp/src/linear_hashing_table.h:721-745 | `insert` fails exactly on a present key and then changes nothing; otherwise it is insertion into the map, less at most the one record its cleanup drops. |
| TableMap.DroppedIsAccepted | libs/index-cpp/src/linear_hashing_table.h:731-738 | What the cleanup drops is a record of the table that the filter accepts. |
| TableMap.DroppedIsFirst | libs/index-cpp/src/linear_hashing_table.h:729-740 | It is the first record of the primary bucket of the key's chain that the filter accepts, and there is none exactly if the filter accepts none of them. |
| TableMap.RemoveIsMapRemove | libs/index-cpp/src/linear_hashing_table.h:750-760 | `remove` is removal from the map and hands over the old value. |
| TableMap.SplitsOnce | libs/index-cpp/src/linear_hashing_table.h:911-936 | From a table within the load band and buckets of two or more, one split is enough after an insertion. |
| TableMap.MergesOnce | libs/index-cpp/src/linear_hashing_table.h:941-963 | Likewise one merge after a removal. |
| TableMap.InsertKeepsBand | libs/index-cpp/src/linear_hashing_table.h:117-119 | With at least 4 chains, `insert` keeps `20 * size <= 19 * capacity * count`, and `4 * size >= 3 * capacity * count` above the minimum count; at most one split for buckets of two or more. |
| TableMap.RemoveKeepsBand | libs/index-cpp/src/linear_hashing_table.h:117-119 | The same for `remove`, with at most one merge. |
| LoadFactors.InsertSplits | libs/index-cpp/src/linear_hashing_table.h:908-936 | An insertion that adds a record ends with the least number of chains whose load is at most 0.95; for buckets of two or more, from a table in its band, it splits, once, if and only if `20 * (size + 1) > 19 * capacity * count`. |
| LoadFactors.RemoveMerges | libs/index-cpp/src/linear_hashing_table.h:938-963 | A removal ends with the greatest number of chains whose load is at least 0.75, or the minimum; for buckets of two or more, from a table in its band, it merges, once, if and only if `4 * (size - 1) < 3 * capacity * count` and there are more chains than the minimum. |
| TableModel.InsertAt | libs/index-cpp/src/linear_hashing_table.h:897-905 | A record goes behind those of the first bucket of its chain that is not full, or into a new one. |
| SplitOrder.SplitInOrder | libs/index-cpp/src/linear_hashing_table.h:911-936 | A split leaves the other chains as they are; the two it opens are packed, and list in the old order the records addressed to them. |
| SplitOrder.MergeInOrder | libs/index-cpp/src/linear_hashing_table.h:941-963 | A merge changes one chain, which gets the records of the last one, in order. |
| TableMap.RunRefinesMap | libs/index-cpp/src/linear_hashing_table.h:721-780 | Over every list of insertions and removals, for any hash function and any cleanup filters, the table behaves as a finite map and keeps its invariant and its band. |
| TableKeys.SizeIsCount | libs/index-cpp/src/linear_hashing_table.h:783-785 | The size is the number of keys. |
| TableKeys.OverflowIsMissed | libs/index-cpp/src/linear_hashing_table.h:788-830 | The range query lists only accepted keys, and misses an accepted key exactly when its record lies in an overflow bucket. |
| TableKeys.ThirdKeyMissed | libs/index-cpp/src/linear_hashing_table.h:788-830 | Insert 0, 4 and 8 into an empty table with buckets of two: key 8 is in the table and never listed. |
| TableKeys.FewerThanRecords | libs/index-cpp/src/linear_hashing_table.h:788-830 | The range query never lists more keys than the table has records. |
| Bitarrays.Bitarray.Set | libs/index-cpp/src/bitarray.h:63-70 | Sets one bit and no other. |
| Bitarrays.Bitarray.Unset | libs/index-cpp/src/bitarray.h:86-93 | Clears one bit and no other. |
| Bitarrays.Bitarray.Resize | libs/index-cpp/src/bitarray.h:57-60 | The new bits are unset, as the comment promises, exactly when no bit past the old end was set in the bytes. |
| Bitarrays.ResizeResurrects | libs/index-cpp/src/bitarray.h:57-60 | Cutting an array of 4 bits with bit 3 set to 2 bits and growing it again leaves bit 3 set. |
| Bitarrays.Bitarray.FirstUnset | libs/index-cpp/src/linear_hashing_table.h:580-587 | The search that skips full bytes finds the first free slot, or the end if there is none. |
| CacheModel.EvictedOk | libs/index-cpp/src/linear_hashing_table.h:461-496 | Writing a dirty bucket to its slot and dropping it from the cache keeps memory, files and contents consistent. |
| CacheModel.LoadedOk | libs/index-cpp/src/linear_hashing_table.h:542-571 | An unloaded bucket's slot holds its records and link, and reading it keeps the cache consistent. |
| CacheModel.WithNewOk | libs/index-cpp/src/linear_hashing_table.h:578-612 | A new bucket is dirty, takes a slot no live bucket uses, and no bucket links to it. |
| CacheModel.WithoutBucketOk | libs/index-cpp/src/linear_hashing_table.h:451-457 | Discarding a bucket nothing links to frees exactly its slot. |
| CacheModel.TruncatedOk | libs/index-cpp/src/linear_hashing_table.h:640-678 | Cutting the files behind the last primary bucket and the last occupied overflow slot loses no page that is still needed. |
| BucketManager.FileBucketManager.Load | libs/index-cpp/src/linear_hashing_table.h:542-576 | After `load` the bucket is in memory with exactly its contents, whatever was evicted to make room; no bucket's contents change, nor any locked bucket's cached state. |
| BucketManager.FileBucketManager.Data | libs/index-cpp/src/linear_hashing_table.h:180-183 | `data` returns the contents of the bucket, cached or not. |
| BucketManager.FileBucketManager.Insert | libs/index-cpp/src/linear_hashing_table.h:198-202 | Appends one record to one bucket and changes no other bucket, for any cache size. |
| BucketManager.FileBucketManager.RemoveAt | libs/index-cpp/src/linear_hashing_table.h:242-246 | Erases one record of one bucket and changes no other bucket. |
| BucketManager.FileBucketManager.NewPrimary | libs/index-cpp/src/linear_hashing_table.h:603-612 | An empty bucket appears at the slot, and nothing else changes. |
| BucketManager.FileBucketManager.NewOverflow | libs/index-cpp/src/linear_hashing_table.h:578-601 | An empty bucket appears at the first slot of the overflow file that is not marked as occupied; live overflow slots stay distinct. |
| BucketManager.FileBucketManager.CreateOverflow | libs/index-cpp/src/linear_hashing_table.h:168-176 | A fresh empty bucket is chained off a bucket that had none, even if the bucket was evicted meanwhile. |
| BucketManager.FileBucketManager.Discard | libs/index-cpp/src/linear_hashing_table.h:451-457 | Removes one bucket from the cache and frees its overflow slot. |
| BucketManager.FileBucketManager.Flush | libs/index-cpp/src/linear_hashing_table.h:461-500 | Writes every unlocked dirty bucket, leaves exactly the locked buckets in the cache, and writes the metadata exactly when some bucket was written; a dirty bucket is written with the metadata or stays dirty; no contents change. |
| BucketManager.FileBucketManager.FlushTableMetadata | libs/index-cpp/src/linear_hashing_table.h:640-678 | Crops free slots at the end of the overflow file and stores metadata that counts every live bucket in and marks exactly the occupied slots. Both files end with their last page and the occupancy with an occupied slot. |
| BucketManager.CoveredBy | libs/index-cpp/src/linear_hashing_table.h:640-678 | The metadata written counts in every bucket of the table, primary or overflow. |
| BucketManager.OccupiedIs | libs/index-cpp/src/linear_hashing_table.h:451-457 | The slots marked as occupied are those of the live overflow buckets and a set that no operation changes: only opening files can leak a slot. |
| BucketManager.FetchedFrom | libs/index-cpp/src/linear_hashing_table.h:542-576 | Loading a bucket into a full cache leaves it alone in memory with the locked ones, and the metadata is current if one of the others had changes; with room nothing is written. |
| Evictions.WalkThenDrain | libs/index-cpp/src/linear_hashing_table.h:750-760 | Walk to a bucket of a chain, change it and drain the chain without records: the change is written if and only if the walk pushed the first bucket out of the cache and left it full. |
| SavedTables.SavedIs | libs/index-cpp/src/linear_hashing_table.h:503-540 | When everything is written, following the links in the files finds every chain of the table, bucket by bucket, with its records. |
| Wiring.ReplaceChain | libs/index-cpp/src/linear_hashing_table.h:897-906 | Changing the buckets of one chain changes that chain of the table and no other. |
| Wiring.OpenTwo | libs/index-cpp/src/linear_hashing_table.h:976-983 | `split` leaves the chains of a table with two more empty ones, and the old chain on its own. |
| Wiring.DiscardFirst | libs/index-cpp/src/linear_hashing_table.h:932-934 | Discarding the drained bucket leaves the rest of its chain and all other chains as they were. |
| LinearHashing.LinearHashingTable.FindInternal | libs/index-cpp/src/linear_hashing_table.h:859-872 | The walk over cached and stored buckets finds what a walk over the chain of records finds, and moves nothing. |
| LinearHashing.LinearHashingTable.InsertInternal | libs/index-cpp/src/linear_hashing_table.h:897-906 | Adds the record to the first bucket with room or to a new overflow bucket of its chain, as the in-memory table does. |
| LinearHashing.LinearHashingTable.Drain | libs/index-cpp/src/linear_hashing_table.h:924-935 | Re-inserts the records of every bucket of the drained chain in order and discards the buckets, while any of them may be evicted; a moved record, or a change outside the chain, is not lost for a later flush. |
| LinearHashing.LinearHashingTable.SplitOnce | libs/index-cpp/src/linear_hashing_table.h:911-936 | One turn of `rebalance_split` over the file-backed manager is one split of the in-memory table, for any cache size. |
| LinearHashing.LinearHashingTable.MergeOnce | libs/index-cpp/src/linear_hashing_table.h:941-963 | One turn of `rebalance_merge` is one merge of the in-memory table; when no record moved it says exactly whether anything is left to write or was written. |
| LinearHashing.LinearHashingTable.RebalanceSplit | libs/index-cpp/src/linear_hashing_table.h:911-936 | The loop terminates and does what the in-memory loop does. |
| LinearHashing.LinearHashingTable.RebalanceMerge | libs/index-cpp/src/linear_hashing_table.h:941-963 | The loop terminates and does what the in-memory loop does; if the last chain merged had records the result is not lost for a later flush. |
| LinearHashing.LinearHashingTable.Insert | libs/index-cpp/src/linear_hashing_table.h:721-745 | Cache transparency: exactly the in-memory table's `insert`, hence the map's, whatever is cached; a successful insertion leaves a dirty bucket. |
| LinearHashing.LinearHashingTable.Remove | libs/index-cpp/src/linear_hashing_table.h:750-760 | Cache transparency for `remove`; without a merge, or with one merge unless the record was the last of the last chain, or with more if the last merge moved records, the removal is not lost for a later flush; and for the last record of the last chain exactly when it is. |
| LinearHashing.LinearHashingTable.LeavesTraceWhen | libs/index-cpp/src/linear_hashing_table.h:941-963 | For the last record of the last chain, with nothing else to write: the removal reaches the files if and only if the walk to the key pushes the first bucket of the chain out and leaves the cache full. |
| LinearHashing.LinearHashingTable.PrimaryLeavesNoTrace | libs/index-cpp/src/linear_hashing_table.h:941-963 | So a removal from the primary bucket of that chain never reaches the files, for any cache size. |
| LinearHashing.LinearHashingTable.Lookup | libs/index-cpp/src/linear_hashing_table.h:764-780 | Cache transparency for `find` and `contains`; nothing is lost for a later flush. |
| LinearHashing.LinearHashingTable.constructor | libs/index-cpp/src/linear_hashing_table.h:883-894 | Over empty files: the empty table with the minimum number of chains. |
| LinearHashing.LinearHashingTable.Reopen | libs/index-cpp/src/linear_hashing_table.h:503-540 | The table read back is the one the files hold: the chains of the closed table, and behind them any merged away since the metadata was written; it is the closed table if and only if the stored metadata is that table's. |
| LinearHashing.LinearHashingTable.FilesCurrent | libs/index-cpp/src/linear_hashing_table.h:503-540 | With nothing to write and the metadata current, the files hold the table and can be opened. |
| LinearHashing.LinearHashingTable.Close | libs/index-cpp/src/linear_hashing_table.h:715-717 | After the final flush the metadata is stored if and only if some bucket was dirty or it was stored before. |
| LinearHashing.LinearHashingTable.CloseAndReopen | libs/index-cpp/src/linear_hashing_table.h:461-500 | Flush then reopen yields the same table if and only if, before the flush, some bucket was dirty or the stored metadata was current; in any case no record is lost, and those that come back are the ones of merged chains; the records are the same if and only if those chains are empty. |
| LinearHashing.LinearHashingTable.RemoveAndReopen | libs/index-cpp/src/linear_hashing_table.h:750-760 | From a flushed table in its band, buckets of two or more: remove a key, close, reopen. The removal is there if and only if `ComesBack` does not hold before it, and if it does the whole table is the one before the removal. |
| Reopening.RemovalComesBack | libs/index-cpp/src/linear_hashing_table.h:497-499 | Buckets of two, minimum 4, eight records, reopened, key 4 removed, closed and reopened: key 4 is back, and the table is the one before the removal. |
| LinearHashing.LinearHashingTable.GetKeysRange | libs/index-cpp/src/linear_hashing_table.h:788-830 | Returns the slice from `index_from` of at most `keys_count` of the accepted keys of primary buckets. |
| Buffers.EncodedAnyHost | libs/index-cpp/src/buffer.h:339-403 | With the byte swap, integers have the buffer's byte order on any host and are read back unchanged on any other. |
| Buffers.EncodedByte | libs/index-cpp/src/buffer.h:375-386 | On any host, byte i of an encoded integer is `(v / 256^i) % 256` in a little-endian buffer and `(v / 256^(7-i)) % 256` in a big-endian one. |
| Buffers.RejectsIsRight | libs/index-cpp/src/buffer.h:84-90 | The 64-bit check `index > stop - count` is right if and only if the count is at most the stop; beyond that it lets every access through. |
| Buffers.Buffer.PutBytes | libs/index-cpp/src/buffer.h:84-90 | For counts up to the stop: succeeds exactly when the bytes fit, appends them, and keeps index, stop and capacity in order. |
| Buffers.Buffer.GetBytes | libs/index-cpp/src/buffer.h:172-178 | For counts up to the stop: succeeds exactly when enough is left, and takes exactly those bytes off. |
| Buffers.Buffer.SwitchMode | libs/index-cpp/src/buffer.h:288-291 | What was written is what is left to read. |
| Pages.Serialize | src/linear_hashing/LinearHashStorage.cpp:95-106 | Appends the encoding of key and record in the documented field order. |
| Pages.Deserialize | src/linear_hashing/LinearHashStorage.cpp:108-121 | Reads back the record that was serialized and leaves what follows it. |
| Pages.FlushPage | libs/index-cpp/src/linear_hashing_table.h:470-493 | The page that `flush` writes: overflow index or its sentinel, record count, the records in order. |
| Pages.LoadPage | libs/index-cpp/src/linear_hashing_table.h:549-571 | Round trip: reading a page, on any host and with anything behind it in the slot, gives the same records in order and the same overflow bucket. |
| Pages.SlotsAreApart | libs/index-cpp/src/linear_hashing_table.h:681-685 | Writing the page of one slot stores it and leaves the page of every other slot in place. |
| Pages.OffsetIs | libs/index-cpp/src/linear_hashing_table.h:681-685 | The slots lie one behind the other, `16 + capacity * recordSize` bytes each. |
| Pages.MetadataKeepsPages | libs/index-cpp/src/linear_hashing_table.h:665-676 | Writing the table metadata behind the last primary bucket and cutting the file there leaves every primary page in place. |
| HilbertCurve.RotateSelfInverse | libs/index-cpp/src/geoprimitives.h:360-386 | Rotating a quadrant twice by the same rotation gives it back. |
| HilbertCurve.DecodeEncode | libs/index-cpp/src/geoprimitives.h:282-354 | `unhilbert(hilbert(x, y)) = (x, y)` at every bit width. |
| HilbertCurve.EncodeDecode | libs/index-cpp/src/geoprimitives.h:282-354 | `hilbert(unhilbert(d)) = d` at every bit width. |
| HilbertCurve.Continuity | libs/index-cpp/src/geoprimitives.h:318-354 | Consecutive curve positions lie in cells that differ by exactly 1 in exactly one coordinate, at every bit width. |
| HilbertCurve.CurveEnds | libs/index-cpp/src/geoprimitives.h:390-427 | The curve of each rotation starts and ends in that rotation's corners. |
| HilbertCurve.Hilbert | libs/index-cpp/src/geoprimitives.h:282-312 | The loop over the bits computes the recursive curve position, with the rotation of every level. |
| HilbertCurve.Unhilbert | libs/index-cpp/src/geoprimitives.h:322-354 | The loop over the bits computes the recursive cell, with the same rotations. |
| GeoHash.HashIsEncode | libs/index-cpp/src/geoprimitives.h:451-475 | Halving the ranges and then following the curve is the recursion on quarters of the domain that the prefixes use. |
| GeoHash.EdgeInCell | libs/index-cpp/src/geoprimitives.h:479-503 | The lower-left corner of a cell falls into that cell. |
| GeoHash.EdgeIs | libs/index-cpp/src/geoprimitives.h:479-503 | Halving k times divides an interval into 2^k equal parts. |
| GeoHash.GeoHasher | libs/index-cpp/src/geoprimitives.h:451-475 | The loop computes the hash for any point, in or out of the domain. |
| GeoHash.GeoUnhasher | libs/index-cpp/src/geoprimitives.h:479-503 | The point is the lower-left corner of the cell `(x, y)` that the Hilbert curve decodes: `x / 2^k` and `y / 2^k` of the way through the domain. It lies in the domain and hashes back to h. |
| GeoPrefix.AppliesIffMatches | libs/index-cpp/src/geoprimitives.h:631-638 | `applies_to` holds exactly of the hashes in the run of positions that the prefix denotes. |
| GeoPrefix.RectCovers | libs/index-cpp/src/geoprimitives.h:653-701 | A point whose hash has the prefix lies, clamped to the domain, in the prefix's rectangle. |
| GeoPrefix.SharedPrefix | libs/index-cpp/src/geoprimitives.h:546-548 | If both corners of a box have a prefix then so has every point of the box. |
| GeoPrefix.RectSplits | libs/index-cpp/src/geoprimitives.h:562-567 | The rectangles of the two extensions of a prefix make up its rectangle. |
| GeoPrefix.CellInside | libs/index-cpp/src/geoprimitives.h:652-705 | The rectangle of a cell lies in the rectangle of every prefix of its position. |
| GeoHash.IntersectsIffShared | libs/index-cpp/src/geoprimitives.h:160-163 | Two rectangles intersect if and only if they share a point, be it on the edge. |
| GeoSearch.JointPrefix | libs/index-cpp/src/geoprimitives.h:524-537 | The longest run of positions that holds both hashes. |
| GeoSearch.Bounds | libs/index-cpp/src/geoprimitives.h:653-701 | The loop over the bits computes the rectangle of the prefix. |
| GeoSearch.SplitPass | libs/index-cpp/src/geoprimitives.h:552-579 | One pass refines runs without uncovering a point of the box or a cell that meets it; it stops with `stopSize` runs, the last one split having kept both halves, or at single cells. |
| GeoSearch.SiblingsJoin | libs/index-cpp/src/geoprimitives.h:583-588 | The recombining test holds only of the two halves of one longer run. |
| GeoSearch.SiblingsAre | libs/index-cpp/src/geoprimitives.h:583-588 | It holds of any two such halves. |
| GeoSearch.JoinPass | libs/index-cpp/src/geoprimitives.h:581-601 | One pass recombines halves without changing what is covered; when it changes nothing no two neighbours can be joined. |
| GeoSearch.SearchPrefixes | libs/index-cpp/src/geoprimitives.h:542-602 | Terminates for every stop size. The prefixes are disjoint and ascending, cover every point of the box, number at most 2 or the stop size, and no two of them could be joined. They cover exactly a list of runs of two neighbouring sizes that meet the box, refined until there are `stopSize` of them or they are single cells; with a larger stop size than there are cells, exactly the cells of the joint prefix that meet the box. |
| GeoSearch.TouchingIsNotCovered | libs/index-cpp/src/geoprimitives.h:548-553 | A cell that only touches the box from outside the joint prefix is not covered. |
| GeoSearch.OutsideKeepsNothing | libs/index-cpp/src/geoprimitives.h:567-583 | For a box outside the domain with corners in different cells the first split keeps nothing, and `prefixes.size() - 1` wraps. |
| GeoIndex.RecordReader.JumpTo | libs/index-cpp/src/record.h:95-117 | Binary search: the reader stands at the first record for which `lt` is false. |
| GeoIndex.RecordReader.Read | libs/index-cpp/src/record.h:120-132 | The buffered read returns the records of the file one after the other, for any buffer size. |
| GeoIndex.Query | libs/index-cpp/src/geoindex.h:168-200 | The callback gets exactly the records of the naive filter, each once and in file order, and the records read are exactly those in the runs that the search finds. |
| GeoIndex.OrderedIndexAnswers | libs/index-cpp/src/geoindex.h:137-156 | Whatever order the index keeps its records in, a query finds the same ones. |
| MGMutex.Mutex.Lock | src/utility/MGMutex.cpp:34-64 | The atomic part of `lock`: granted exactly when nobody waits and the mode fits the current one, else queued last. |
| MGMutex.Mutex.Unlock | src/utility/MGMutex.cpp:66-94 | The new state after one holder has left, with the waiters that get the mutex. |
| MGMutex.RunInvariant | src/utility/MGMutex.cpp:34-94 | Over every run: a waiter implies a holder, holders fit the current mode, nobody is listed twice. |
| MGMutex.ExclusiveIsAlone | src/utility/MGMutex.cpp:43-94 | In every reachable state an X holder is the only holder. |
| MGMutex.ClosedIsSafe | src/utility/MGMutex.cpp:43-50 | If modes that fit a common mode fit each other, holders are pairwise compatible in every run with those modes. |
| MGMutex.SafeIsClosed | src/utility/MGMutex.cpp:43-50 | And only then: otherwise some run has incompatible holders. |
| MGMutex.ModeSetsOfTheSource | src/utility/MGMutex.cpp:14-21 | The modes used on tree nodes and those used on storages are such sets; IS, IX and S together are not. |
| MGMutex.CompatibleIsNoClash | src/utility/MGMutex.cpp:12-21 | Two modes are compatible if and only if neither holder may write what the other may read or write. |
| MGMutex.AgreeingNeverWait | src/utility/MGMutex.cpp:33-46 | In every run whose modes all fit each other nobody ever waits; so readers share. |
| MGMutex.GrantsInOrder | src/utility/MGMutex.cpp:79-93 | An unlock grants a prefix of the queue, behind the holders that stay. |
| MGMutex.OneStepCloser | src/utility/MGMutex.cpp:43-93 | No lock call moves a waiter back, and every unlock moves it one step closer. |
| MGMutex.WaitIsBounded | src/utility/MGMutex.cpp:34-94 | A waiter with i requests ahead runs after at most (number of holders + i) unlocks. |
| LockSystem.ExecutionConsistent | src/utility/MGLockGuard.hpp:41-55 | Over every execution of any number of threads, what mutexes and threads know of each other agrees. |
| LockSystem.ResolveAsksInOrder | src/VirtualStorage.cpp:231-244 | `resolveNode` takes its locks from the root down, and a storage after it is in order. |
| LockSystem.NoDeadlock | src/utility/MGLockGuard.hpp:41-55 | In every reachable state with an unfinished operation some thread with an unfinished operation can step. |
| LockSystem.RootExclusion | src/VirtualStorage.cpp:24-24 | While a mount or unmount holds the root exclusively no other thread holds any lock. |
| LockSystem.StorageExclusion | src/linear_hashing/LinearHashStorage.cpp:56-56 | A thread that holds a storage exclusively is the only one in it. |
| LockSystem.ReadersNeverWait | src/VirtualStorage.cpp:123-180 | In every execution nobody waits for a node that is only asked for in IS and IX, or for a storage that is only asked for in S. |
| Paths.SplitString | src/utility/StringUtils.cpp:38-51 | The loop yields the pieces between separators. |
| Paths.JoinSplit | src/utility/StringUtils.cpp:38-51 | Joining the pieces gives the path back. |
| Paths.SplitJoin | src/utility/StringUtils.cpp:38-51 | Splitting a join of separator-free components gives them back. |
| Paths.AncestorIsPrefix | src/utility/StringUtils.cpp:30-36 | A node is a proper ancestor exactly when the path starts with its path and a separator. |
| Paths.StartsWithIsWider | src/utility/StringUtils.cpp:30-36 | `startsWith` holds of every ancestor, and also of `a` for `ab`. |
| Paths.FilesApart | src/linear_hashing/LinearHashVolume.cpp:144-163 | In particular, nodes with non-empty components without `_` have their own files. |
| Paths.FilesShared | src/linear_hashing/LinearHashVolume.cpp:144-163 | Two nodes share their files if and only if, leading empty components aside, their components cut at `_` are the same. |
| Paths.FilesClash | src/linear_hashing/LinearHashVolume.cpp:144-163 | Nodes `a/b` and `a_b`, and `/a` and `a`, share their files. |
| RegistryModel.KeyRoundTrip | src/linear_hashing/LinearHashStorageRegistry.cpp:49-52 | The release reads volume and node back from the key if and only if the volume's path has no colon. |
| RegistryModel.ColonInVolume | src/linear_hashing/LinearHashStorageRegistry.cpp:49-52 | With a colon in it the release looks for the volume named by the part before the colon. |
| RegistryModel.GrowthBelow | src/linear_hashing/LinearHashVolume.cpp:144-166 | Creating a node changes what lies below another one only if that is a proper ancestor. |
| RegistryModel.LoadedOk | src/linear_hashing/LinearHashVolume.cpp:65-85 | A load keeps counters and loaded storages in step, up to the nodes it still has to count. |
| RegistryModel.CountedOk | src/linear_hashing/LinearHashStorageRegistry.cpp:69-84 | Counting one more use keeps every counter the number of uses, and the two maps inverse. |
| RegistryModel.ReleasedOk | src/linear_hashing/LinearHashStorageRegistry.cpp:38-67 | Releasing one use keeps them so, and unloads the storage exactly with its last use. |
| StorageRegistry.LinearHashVolume.FindTreeNode | src/linear_hashing/LinearHashVolume.cpp:144-166 | Creates exactly the missing nodes of the path. |
| StorageRegistry.LinearHashVolume.LoadStorage | src/linear_hashing/LinearHashVolume.cpp:65-85 | Every node of the subtree has a storage afterwards, those that were loaded keep theirs, and the snapshot is the subtree. |
| StorageRegistry.LinearHashStorageRegistry.AcquireStorage | src/linear_hashing/LinearHashStorageRegistry.cpp:14-36 | The snapshot has exactly the nodes below the acquired one, each counted once more; other volumes do not change. |
| StorageRegistry.LinearHashStorageRegistry.ReleaseStorage | src/linear_hashing/LinearHashStorageRegistry.cpp:38-67 | Fails exactly for a storage that is not known; otherwise takes one use off and changes no tree's shape. |
| MountLists.InsertIsSorted | src/VirtualStorage.cpp:64-71 | Mounting keeps a node's storages in descending priority. |
| MountLists.InsertEnters | src/VirtualStorage.cpp:63-71 | A new entry comes behind all entries of its priority or a higher one and before all lower ones, and the others stand as before. |
| MountLists.RemoveLeaves | src/VirtualStorage.cpp:104-117 | Unmounting takes the first entry of the storage and leaves the others in place. |
| MountLists.RemoveTakesOwnEntry | src/VirtualStorage.cpp:104-117 | Unmounting takes the mount point's own entry, priority included, if and only if no entry of the same storage has a higher priority. |
| MountLists.UnmountTakesTheWrongEntry | src/VirtualStorage.cpp:104-117 | One storage mounted with priorities 1 and 5: unmounting the first removes the entry of priority 5. |
| VirtualMounts.VirtualStorage.MountNodes | src/VirtualStorage.cpp:61-80 | At each node of the snapshot the storage comes in at the end of its priority group; other lists do not change. |
| VirtualMounts.VirtualStorage.UnmountNodes | src/VirtualStorage.cpp:102-121 | Each storage of the snapshot is found, released once and its first entry taken off its list; other lists do not change. |
| VirtualMounts.VirtualStorage.RemountEntries | src/VirtualStorage.cpp:265-288 | Collects exactly the live mount points of the volume whose path `startsWith` takes for an ancestor. |
| MountModel.CandidateIs | src/VirtualStorage.cpp:274-290 | A mount point is a candidate if and only if it shows the same volume and the new node's path goes on behind its own, be it within a component. |
| VirtualMounts.VirtualStorage.RemountNodes | src/VirtualStorage.cpp:265-311 | Afterwards every live mount point shows exactly its volume's current subtree, and nothing but snapshots has changed; returns the mount points remounted, in the order taken, which are exactly the candidates; each step unmounts one and mounts it anew with its current subtree. |
| VirtualMounts.VirtualStorage.Mount | src/VirtualStorage.cpp:22-59 | Keeps the whole invariant: exact snapshots, sorted lists, and lists and counters that count the live mount points. After the remounts, if any, each storage comes in at the end of its priority group. The priorities in the lists are kept if no mount point that is remounted is outranked, and lost if the last one remounted is. |
| VirtualMounts.VirtualStorage.Unmount | src/VirtualStorage.cpp:82-100 | Fails exactly for an unknown id; otherwise removes that mount point and keeps the whole invariant, and the priorities in the lists if and only if no mount point of higher priority overlaps it. |
| VirtualMounts.VirtualStorage.CountersAndLists | src/linear_hashing/LinearHashStorageRegistry.cpp:69-84 | Each counter is the number of live mount points that hold the node, the node is loaded exactly while it is positive, and each list holds a storage once per mount point that places it there. |
| VirtualMounts.VirtualStorage.PrioritiesAre | src/VirtualStorage.cpp:61-80 | That the priorities are kept means: each node lists every storage and priority as often as live mount points place the storage there with that priority. |
| VirtualMounts.VirtualStorage.Rivals | src/VirtualStorage.cpp:102-121 | In every valid state, another mount point lists a storage of mount point `id` at the same node with a higher priority exactly when it outranks it by volume, node and mount path alone. |
| MountPriorities.UnmountKeeps | src/VirtualStorage.cpp:102-121 | Taking the entries of one mount point off all lists, each the first of its storage, keeps every priority exactly when it has no rival of higher priority. |
| MountPriorities.RemoveAbove | src/VirtualStorage.cpp:104-117 | Taking the first entry of a storage off a sorted list lowers the number of its entries above a priority by one, or leaves it at none. |
| MountPriorities.RemountKeeps | src/VirtualStorage.cpp:265-311 | The same for mounting it anew. No list ever has more entries above a priority than live mount points placed there, and after an outranked one was mounted anew some list has fewer, whatever was lost before. |
| RemountOrders.RemountsKeep | src/VirtualStorage.cpp:265-311 | Over any sequence of remounts: no list gains entries above a priority, the priorities are kept if none of the mount points is outranked, and lost if the last one is. |
| RemountOrders.KeptInEveryOrder | src/VirtualStorage.cpp:265-311 | The priorities survive a remount of all candidates in every order if and only if none of them is outranked. |
| VirtualMounts.MountTakesAnotherEntry | src/VirtualStorage.cpp:265-311 | `d/e` mounted at `m/e` with priority 5, `d` at `m` with priority 1: mounting `d/f` elsewhere takes the entry of priority 5 off the list of `m/e`. |
| VirtualMounts.VirtualStorage.ListedIsLoaded | src/VirtualStorage.cpp:61-80 | Every storage listed in a virtual node is loaded. |
| VirtualMounts.VirtualStorage.ResolveNode | src/VirtualStorage.cpp:231-244 | Finds the node of a path exactly when it exists. |
| VirtualMounts.VirtualStorage.CreateNodesForPath | src/VirtualStorage.cpp:246-263 | Creates exactly the missing nodes of the path, with empty lists. |
| Storage.LinearHashStorage.GetValue | src/linear_hashing/LinearHashStorage.cpp:36-52 | Answers with the live record at the time of the call and changes no record. |
| Storage.LinearHashStorage.HasKey | src/linear_hashing/LinearHashStorage.cpp:129-136 | True exactly when the key is live at the time of the call. |
| Storage.LinearHashStorage.PutValue | src/linear_hashing/LinearHashStorage.cpp:54-69 | After the key's own record is gone, the new one replaces the first record of the primary bucket of its chain that has expired when the clock is read, and no other, or is one more. From then on only the put key is seen to change. |
| Storage.LinearHashStorage.DeleteValue | src/linear_hashing/LinearHashStorage.cpp:71-81 | Deletes the key's record, expired or not, and succeeds exactly when there was one. |
| Storage.LinearHashStorage.GetKeysRange | src/linear_hashing/LinearHashStorage.cpp:83-93 | A slice of the live keys, which misses exactly those in overflow buckets, and never more than the size. |
| Storage.LinearHashStorage.GetSize | src/linear_hashing/LinearHashStorage.cpp:123-127 | The number of records, expired ones included. |
| Layers.GetValue | src/VirtualStorage.cpp:123-138 | The value of the first layer where the key is live at the end of the call. |
| Layers.PutValue | src/VirtualStorage.cpp:140-152 | The record goes to the first layer where the key is live at one time during the call, or to the first layer, and only that storage changes. The key shows it until it expires and afterwards what the other storages show; other keys look as before. |
| Layers.DeleteValue | src/VirtualStorage.cpp:154-170 | Deletes from the first layer that holds the key; it is gone afterwards if and only if no other storage of the node shows it. |
| Layers.DeleteUncovers | src/VirtualStorage.cpp:154-170 | An expired record above a live one: the deletion succeeds and the key still shows its value. |
| Layers.GetKeysRange | src/VirtualStorage.cpp:172-229 | Over real storages and a moving clock both loops terminate without underflow; no key comes twice, none was skipped, all were live at the start, and at most `keysCount` come. If nothing expires meanwhile the result is the first `keysCount` keys of the rest of the stream without repeats and without the skipped ones. Otherwise it starts with that page of the keys listed before the first one that expires. |
| Layers.Skip | src/VirtualStorage.cpp:185-198 | The first loop ends; if the first `indexFrom` keys of the stream do not expire meanwhile it stands behind them and has excluded exactly these. |
| Layers.Collect | src/VirtualStorage.cpp:200-225 | The second loop ends, whatever expires meanwhile, with keys that are new and all different; if nothing expires they are the first `keysCount` new ones of the rest, and otherwise they start with the new ones listed before the first key that expires. |
| Layers.TableStarts | src/linear_hashing/LinearHashStorage.cpp:83-93 | If the first n keys that a storage lists do not expire, its list still starts with them. |
| Layers.SteadyTable | src/linear_hashing/LinearHashStorage.cpp:83-93 | A storage lists the same keys at two times between which no record expires. |
| KeysRange.PageHasNoRepeats | src/VirtualStorage.cpp:199-225 | No key occurs twice in a page, and none of the skipped ones. |
| KeysRange.PageIs | src/VirtualStorage.cpp:185-225 | A page is a slice of the distinct keys that starts after the distinct keys skipped. |
| KeysRange.PagesFit | src/VirtualStorage.cpp:185-225 | Every page is the slice its numbers ask for if and only if no new key comes after a repeated one. |
| KeysRange.PagesOverlap | src/VirtualStorage.cpp:185-225 | Two storages that share key `a`: the second page of three repeats key `c` of the first. |

## Left out

- File errors, short writes and crashes in the middle of a flush: every file operation succeeds.
- C++ object lifetime, destructor order and pointer reuse: buckets and storages are identities that are never reused.
- The JSON volume file: a volume starts with an empty tree. (`LinearHashVolume.cpp:28` opens the file with truncation, so it does in the source too.)
- Rounding of doubles in coordinates and loads; the custom load factors of `HashTableParams`, which the storage does not pass on.
- The byte layout of the table metadata and its two doubles, which the buffer writes in host order: metadata is stored as a value.
- Floats, 32-bit integers and streams in the buffer.
- Mount failures: every volume file can be opened.
- Reentrant locking, `NL` as a request, and the spin loop: taking and releasing a mutex are atomic steps.
- Interleavings of layered operations: each is taken single-threaded; the locks are proved apart, in `LockSystem`.
- `VectorDataSource`, query statistics beyond the counts, and the sort inside `GeoIndex::order`.
- 64-bit overflow of sizes, indices and shifts: bit widths are arbitrary and sizes unbounded, except in the buffers and pages.
- `Key`, `Value`, `Status` and option objects, and the JSON, test, example and load-test code.
- StorageRegistry.LinearHashVolume.LoadStorage: a volume's tree is a map from paths to nodes, and the recursion over children is a loop over the nodes below in any order; the same holds for snapshots and virtual nodes.
- LinearHashing.LinearHashingTable.Remove: for buckets of one record a removal can merge twice; when the second chain had no records it does not say whether the first merge reached the files without the second.
- LinearHashing.LinearHashingTable.SplitOnce: the flush locks are counters on the buckets, taken and released where the guards of the source are; the guard objects themselves are not modelled.
- Layers.GetKeysRange: when a record expires between two reads of a storage the keys behind it move up and a live one may be passed over; which of these keys are on the page is not said.
- Buffers.Buffer.PutBytes: requires the count to be at most the stop, because beyond that the source writes outside the buffer.
- Pages.Deserialize: is stated for bytes that start with an encoded record; for other bytes the source reads lengths that its bounds check may let through.
- GeoIndex.Query: requires a box that meets the domain or has both corners in one cell, because for any other box the prefix search does not return.
- VirtualMounts.VirtualStorage.Mount: requires a volume path without a colon, because the registry's keys cannot be read back otherwise.
