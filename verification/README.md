# nedomi: the cache, proved

nedomi is a caching HTTP proxy. It stores fixed-size parts of files, keeps an index of them in a
segmented LRU, answers byte ranges from whatever parts it has, and fetches the rest. This project
models the parts of it that carry state or arithmetic and proves what they are for. To verify it, give
`dafny verify dfyconfig.toml` in this directory.

## The components

**The segmented LRU** (`Tiers`, `TieredLRU`, `Ranked`, `RankedMeaning`). `TieredLRU` is the cache as
the source has it: four lists of element objects, a lookup map to entry objects, updated in place.
`Ranked` is the reference: one ranked list with four tier sizes, on which every operation is one
edit. `Valid()` says that lists and map agree and `Abs()` is the ranked list; each method of the class
is proved to change `Abs()` by the matching edit, so the cascade, the swap and the spilling do not
change the order of anything. `RankedMeaning` proves what the edits mean: which object moves where,
that all the others keep their order, who is evicted and when.

**Index and storage** (`ZoneSteps`). Insertion, flushing, promotion, purge, expiration, shrinking and
the background removal as a step system over the same ranked list. Over every run a stored part is
in the index, in a pending removal or in a flush that is not over.

**Serving and writing** (`Readers`, `RangeServer`, `PartWriter`, `CacheHandler`). The reader classes are proved
against `Rest`, the bytes a reader has still to give, for sources that give short reads, no bytes, data
together with the end of file, or errors. On top of them a byte range is served exactly, whatever
parts are stored, and an arbitrarily chunked stream is cut into exactly the parts that it covers.
`CacheHandler` puts the ends together: from the client's header to status, Content-Range and body, and
from the parts that a writer saves to the parts that the server may find.

**Throttle, scheduler, balancers, headers** (`Throttle`, `ExpireHeap`, `Scheduler`, `Continuum`,
`SchedulerHistory`, `Ketama`, `LegacyKetama`, `WeightedRandom`, `Decimal`, `ByteRanges`, `LimitedCopy`,
`TimeoutConn`). A rate bound over integer division, and sleeps only where they are needed; a rendezvous
protocol of two goroutines and any number of clients, told from inside and from outside;
hash rings with exact sizes and monotone consistent hashing; weighted draws that are exact; range headers
that are read as section 2.1 of RFC 7233 means them; limits on readers that are kept to or not.

`ObjectIndexes`, `Arithmetic` and `Sorting` hold what the others share.

## Where the code falls short of its purpose

For each of these a lemma or contract gives the exact condition under which the code does what it is
for.

- `throttledRemove` adds the batch size of the moment to its index after it has waited. If
  `BulkRemoveCount` was raised meanwhile, parts between the two sizes are skipped, and stay on disk
  although nothing knows about them (`RaisedBatchSizeLosesAPart`). An advance loses nothing exactly
  when the size was not raised or nothing was left (`SafeIffNothingSkipped`). A removal has gone
  through its objects once each and in order exactly when no advance moved the next batch
  (`RemovalsGoThroughAll`): a lowered size goes through some of them twice.
- `multiReadCloser.WriteTo` passes its readers without closing them, and a later `Close` closes only
  those that it did not get to (`CopyAndClose`). So what `io.Copy` and `Close` are used on is closed,
  source by source and once, if it is not itself a reader of several; if it is, from single readers,
  it is closed only if the copy got past none of them (`CopyThenClose`). Reading through `Read` closes
  everything (`DrainAndClose`).
- A turn of `lazilyRespond` that opened something leaves it open in exactly two cases (`Serve`),
  whether the turn succeeds or not. One is a hole joined to a stored part that needs neither a skip nor
  a limit, when the copy got past one of the two. The other is a failed skip in a stored part that is a
  file: it happens only in the first turn of a request that begins inside a part, and nothing closes
  that file.
- The predicate of the binary search in `getContents` is not monotone. A part that would do is found
  exactly when the first place that the search looks at, among the parts after the missing one, is
  still inside the request; that is always so when no stored part lies beyond the request
  (`NextAvailable`), and it can fail otherwise (`SearchMayMiss`). The bytes served are right regardless
  (`LazilyRespond`).
- The legacy ring is always overfilled and then cut. An upstream owns what those before it in the list
  leave of the maximum (`OwnedPoints`), and none exactly when they use it up (`OwnsAPoint`); with equal
  weights the last one has none from 41 upstreams on (`LastOfFortyOne`). The lookup ends at the last
  point instead of wrapping around (`Find`).
- The weighted random balancer returns an error for some draws exactly when the weights add up to
  2^32 or more (`AlwaysSelects`).
- A range whose numbers do not fit 64 bits is refused, where RFC 7233 would clamp its end
  (`ReadPrinted`), and so is every header that does not spell its unit in lower case
  (`UnitIsLowerCase`), although the grammar does not tell the letters apart.
- `ReadFrom` of `timeoutConn` calls `CopyN` again and again, and limits above its maximum are never
  counted down. What it sends is what the limits allow if and only if one of them is not above the
  maximum, or none is below what the source has (`KeepsLimits`); otherwise it sends all of the source.
- `ReadFrom` of the throttled writer takes the limit off a limited reader and never counts it down: it
  copies all that is behind the limit, unless that is 0 or less at once (`ReadFrom`).
- In a cache that keeps to its limits `PromoteObject` panics at a cached object exactly when the tier
  size is 0 (`PanicsIffNoRoom`). A cache for fewer than four objects gets there with the first object
  it takes; each panic moves an object up, out of the way of one more (`SmallCache`).
- A shrink converts the unsigned difference of objects and new size to a signed number. It asks for no
  more objects than there are exactly when the new size is not more than 2^63 beyond their number
  (`ConversionHolds`). Beyond that, it empties the cache and leaves slots unfilled (`UnfilledSlots`).
- `Set` of both Ketama balancers divides by zero, and panics, exactly when there are upstreams whose
  weights wrap around to 0 (`Set`).

## Model

| member | source | states |
|---|---|---|
| `TieredLRU.TieredLRUCache.constructor` | cache/lru/lru.go:266-285 | an empty cache: four empty tiers, an empty map, a tier size of a quarter of the objects |
| `TieredLRU.TieredLRUCache.LookupBounded` | cache/lru/lru.go:266-272 | in every state that keeps to the limits the map has as many keys as the ranked list, and no more than the objects allowed, or one if none is allowed |
| `TieredLRU.TieredLRUCache.AddObject` | cache/lru/lru.go:83-106 | refuses exactly the cached objects and then changes nothing; otherwise the ranked list becomes `Added`, the storage loses exactly the evicted part, and lists, map and tier limits still agree |
| `TieredLRU.TieredLRUCache.FreeSpaceInLastList` | cache/lru/lru.go:111-156 | makes room in the last tier: the ranked list is unchanged unless all tiers are full, and then loses its last object, as do the map and the storage |
| `TieredLRU.TieredLRUCache.Cascade` | cache/lru/lru.go:128-146 | moving a front element up through every tier leaves the ranked list as it is and only changes the sizes of two tiers |
| `TieredLRU.TieredLRUCache.EvictLast` | cache/lru/lru.go:147-155 | takes the worst object off the ranked list, the map and the disk |
| `TieredLRU.TieredLRUCache.Relocate` | cache/lru/lru.go:132-145 | taking an element out of one list, correcting its entry and pushing it to another keeps lists and map in agreement; the entry is always found |
| `TieredLRU.TieredLRUCache.PromoteObject` | cache/lru/lru.go:174-237 | a cached object is promoted in the ranked list with nothing else lost or added, also when the tier above is full and empty, which makes the code panic; any other object is added as by `AddObject` |
| `TieredLRU.TieredLRUCache.PanicsIffNoRoom` | cache/lru/lru.go:210-226 | within the limits, a promotion finds a full upper tier without a last element if and only if the tier size is 0 |
| `TieredLRU.SmallCache` | cache/lru/lru.go:174-237 | a cache for fewer than four objects that takes one, panics at its promotion and then holds two |
| `TieredLRU.TieredLRUCache.PromoteTier` | cache/lru/lru.go:210-236 | whether or not the upper tier is full, the swap amounts to moving one object of the ranked list |
| `TieredLRU.TieredLRUCache.MoveToFront` | cache/lru/lru.go:199-208 | an object of the uppermost tier becomes the head of the ranked list |
| `TieredLRU.TieredLRUCache.Remove` | cache/lru/lru.go:159-169 | the given objects, cached or not and repeated or not, leave the map and the ranked list |
| `TieredLRU.TieredLRUCache.ResizeDown` | cache/lru/lru.go:388-402 | cuts the given number of objects off the ranked list, worst first, or all there are; a slot of the result stays unfilled only for objects that do not exist |
| `TieredLRU.TieredLRUCache.RemoveFromList` | cache/lru/lru.go:407-418 | empties the back of one list into a slice and touches nothing outside it |
| `TieredLRU.TieredLRUCache.SpillTier` | cache/lru/lru.go:312-327 | what exceeds the new size goes to the tier below without changing the ranked list |
| `TieredLRU.TieredLRUCache.Shrink` | cache/lru/lru.go:304-342 | whenever the conversion holds, the ranked list becomes `Shrunk` and the goroutine is given exactly the dropped objects, also where the unsigned difference wraps to a negative number |
| `TieredLRU.ConversionHolds` | cache/lru/lru.go:305-305 | the converted difference asks for no more objects than there are if and only if the new size is not more than 2^63 beyond their number; with fewer than 2^63 objects it is then the exact difference |
| `TieredLRU.UnfilledSlots` | cache/lru/lru.go:388-402 | beyond that boundary the cache is emptied and slots of the result are left unfilled |
| `TieredLRU.TieredLRUCache.Resize` | cache/lru/lru.go:298-344 | `Shrink` when the tier size falls, otherwise only the new tier size; all limits hold afterwards |
| `TieredLRU.TieredLRUCache.ChangeConfig` | cache/lru/lru.go:288-295 | sets the limits and leaves a cache that keeps to them |
| `TieredLRU.TieredLRUCache.RemoveIfMissing` | cache/lru/lru.go:377-386 | discards exactly those of the given parts that the map does not hold |
| `TieredLRU.TieredLRUCache.ThrottledRemove` | cache/lru/lru.go:348-368 | undisturbed, its batches together discard exactly the given parts that the map does not hold |
| `TieredLRU.TieredLRUCache.Stats` | cache/lru/stats.go:62-79 | the number of objects is the length of the ranked list |
| `TieredLRU.ShrunkOids` | cache/lru/lru.go:304-342 | the cut, the spilling and the trimming together are one shrink of the ranked list, and their two lists of objects one after the other are the dropped objects |
| `Tiers.LinkedRanking` | cache/lru/lru.go:40-56 | agreement of lists and map means that the ranked list holds every key once and nothing else |
| `Tiers.LinkedMoved` | cache/lru/lru.go:132-145 | what a move between two tiers must do to the map for the agreement to hold |
| `Tiers.PromotedTiers` | cache/lru/lru.go:210-236 | two tiers after the swap, put together, are the promotion in the ranked list |
| `RankedMeaning.AddKeepsOrder` | cache/lru/lru.go:83-156 | an insertion adds one object, all others keep their order, and the last one goes exactly when all four tiers are full |
| `RankedMeaning.AddWithRoom` | cache/lru/lru.go:93-103 | if the last tier has room or is empty, only it grows, and the new object is its head |
| `RankedMeaning.AddCascades` | cache/lru/lru.go:128-146 | if it is full, only the lowest tier above it that has room grows, by one, and the new object comes behind one object of the last tier |
| `RankedMeaning.AddEvicts` | cache/lru/lru.go:147-155 | if all four tiers are full, none changes its size, the new object is the head of the last one and the last object of all is evicted |
| `RankedMeaning.PromoteKeepsOrder` | cache/lru/lru.go:174-237 | a promotion keeps all other objects in order and puts the object where the tier above began, and into that tier |
| `RankedMeaning.PromotePlaces` | cache/lru/lru.go:199-236 | which tiers change their sizes by a promotion, and where the object is then |
| `RankedMeaning.RemoveKeepsOrder` | cache/lru/lru.go:159-169 | a removal keeps all other objects in order |
| `RankedMeaning.RemovePlaces` | cache/lru/lru.go:163-168 | the tier that held the object loses one, and no other changes its size |
| `RankedMeaning.ShrinkKeepsBest` | cache/lru/lru.go:298-344 | a shrink keeps a prefix within all limits; no object rises, and a tier that is not full then has lost nothing that was in it or above; the dropped objects are the rest, each once, worst first |
| `RankedMeaning.SpillsOneWay` | cache/lru/lru.go:311-335 | that leaves only one choice for the sizes of the tiers |
| `Ranked.ShrinkSteps` | cache/lru/lru.go:304-339 | the result does not depend on how many objects the first cut takes |
| `Ranked.BoundedCount` | cache/lru/lru.go:266-272 | tier limits bound the whole cache |
| `ZoneSteps.RunKeepsInv` | handler/cache/part_writer.go:85-103 | over every run with safe advances: no object twice in the index, no tier above its limit, every stored part tracked |
| `ZoneSteps.NoPartIsLost` | cache/lru/lru.go:298-386 | from an empty zone, every stored part is tracked, and there are never more of them than the objects allowed (or one if none is allowed), the pending removals and the unfinished flushes together |
| `ZoneSteps.StepKeepsTracked` | handler/purge/handler.go:77-102 | each step, purge, expiration and flush among them, keeps every stored part tracked |
| `ZoneSteps.FlushPutsAway` | handler/cache/part_writer.go:91-101 | a part that was asked about is in the index, one that was saved is on disk, and one whose flush is over is in the index |
| `ZoneSteps.PurgeClears` | handler/purge/handler.go:77-102 | after a purge or an expiration nothing of the object is on disk and nothing that was is in the index; other objects are not touched |
| `ZoneSteps.StaysPurged` | storage/utils.go:12-24 | and nothing of it comes back to the disk, over every run, until a flush saves a part of it |
| `ZoneSteps.BatchDiscards` | cache/lru/lru.go:377-386 | a batch discards exactly those of its parts that the index does not hold |
| `ZoneSteps.ShrinkHandsOver` | cache/lru/lru.go:298-344 | what a smaller size takes out of the index is handed to one new removal, and nothing else changes |
| `ZoneSteps.IndexChanges` | cache/lru/lru.go:83-237 | only a flush or a promotion puts a part into the index; what leaves it is evicted and off the disk, or is purged or expires with its object, or is handed to a removal |
| `ZoneSteps.IndexedStaysStored` | cache/lru/lru.go:147-155 | a part on disk that the index holds after a step was not discarded by it, unless a stale object was discarded behind the back of the index |
| `ZoneSteps.RemovalsGoThroughAll` | cache/lru/lru.go:348-368 | from an empty zone, a finished removal has gone through its objects once each and in order if and only if none of its advances moved the next batch, whatever ran in between |
| `ZoneSteps.SafeIffNothingSkipped` | cache/lru/lru.go:363-367 | an advance loses no pending object if and only if the batch size was not raised or nothing was left |
| `ZoneSteps.RaisedBatchSizeLosesAPart` | cache/lru/lru.go:363-367 | a run after which a part is on disk and nothing knows about it |
| `Readers.MultiReadCloser.Read` | utils/readers.go:23-43 | hands out the concatenation, whatever its readers do; no error unless one of them has one |
| `Readers.MultiReadCloser.WriteTo` | utils/readers.go:45-64 | copies the concatenation, or a prefix of it on an error; no reader that is not made of several is closed by it |
| `Readers.MultiReadCloser.Close` | utils/readers.go:66-80 | closes each reader from the current one on, once, and none before it |
| `Readers.SkippingReadCloser.Read` | utils/readers.go:120-130 | hands out the bytes after those to be skipped, also when the skip is interrupted and resumed |
| `Readers.LimitedReadCloser.Read` | utils/readers.go:82-92 | hands out the first bytes, as many as the limit |
| `Readers.SkipReadCloser` | utils/readers.go:105-118 | a file is moved forward, anything else wrapped; both give the suffix |
| `Readers.LimitReadCloser` | utils/readers.go:88-93 | a reader of the prefix |
| `Readers.PartReadCloser.Read` | handler/cache/part_reader.go:24-28 | passes the bytes on and counts them |
| `Readers.PartReadCloser.Close` | handler/cache/part_reader.go:30-45 | reads on exactly to the end of the part, or of the body if that comes first, unless the body fails, and closes the body once |
| `Readers.DrainAndClose` | utils/readers.go:23-80 | reading any nest of readers to its end and closing it delivers all bytes and closes every source exactly once |
| `Readers.CopyAndClose` | utils/readers.go:45-80 | from single readers, copy and close leave exactly those unclosed that the copy got past, and close all the others once, also when the copy fails |
| `Readers.CopyThenClose` | handler/cache/handler_helpers.go:274-288 | whether the copy succeeds or not: what is not made of several readers is closed exactly once, source by source; of what is, exactly the readers that the copy got past are left unclosed |
| `RangeServer.BreakInIndexes` | utils/indexes.go:9-20 | exactly the parts that a byte range touches, in order |
| `RangeServer.ReqHandler.LazilyRespond` | handler/cache/handler_helpers.go:242-296 | for every range inside the object, every set of stored parts, and parts coming and going meanwhile: writes exactly the bytes of the range; a prefix of them if it stops early, which only a failure can make it do; the upstream is left alone as long as every part is found |
| `RangeServer.ReqHandler.Serve` | handler/cache/handler_helpers.go:248-294 | one turn covers at least one index and never more than there are, and writes exactly the bytes that they are for; on success and failure alike, what it opened is closed exactly once if and only if the skip in a file did not fail and, for a hole joined to a stored part without skip or limit, the copy got past neither |
| `RangeServer.ReqHandler.Trim` | handler/cache/handler_helpers.go:256-272 | offset and limit leave exactly the requested part of what the indexes cover |
| `RangeServer.ReqHandler.GetContents` | handler/cache/handler_helpers.go:208-240 | a reader for exactly the bytes of the indexes that it claims to cover; a stored part is all that is taken, with a count of one; otherwise the upstream is asked for exactly the hole in front of the part that the search finds, if that is still stored, and else for all of the rest |
| `RangeServer.ReqHandler.GetPartFromStorage` | handler/cache/handler_helpers.go:187-206 | a part that is found is opened and promoted, and holds its slice of the object |
| `RangeServer.ReqHandler.FillHole` | handler/cache/handler_helpers.go:228-236 | the hole from the upstream and the stored part after it join without gap or overlap |
| `RangeServer.ReqHandler.FetchRest` | handler/cache/handler_helpers.go:238-239 | the last position asked for is right although the part number and the product may wrap |
| `RangeServer.ReqHandler.NextAvailable` | handler/cache/handler_helpers.go:223-228 | the search finds the smallest available part after the missing one and within the request, or nothing; something if and only if its first look beyond the missing part falls within the request, which it does whenever such a part exists and none lies beyond the request |
| `RangeServer.SearchWindow` | handler/cache/handler_helpers.go:224-227 | for every such predicate the library search settles on the first hit or on the end, by where it first looks |
| `RangeServer.SearchMayMiss` | handler/cache/handler_helpers.go:224-227 | the condition of `NextAvailable` can fail with a part there that would do |
| `CacheHandler.KnownRanged` | handler/cache/handler.go:112-138 | status, Content-Range and body follow from the header: an error and no body, nothing but a proxied request, or one range with exactly its bytes, or without a body for HEAD |
| `CacheHandler.KnownFull` | handler/cache/handler.go:140-154 | sends exactly the object, or a prefix of it if something fails, and nothing for HEAD |
| `CacheHandler.OneRangeServed` | handler/cache/handler.go:112-138 | for every spelling of a single range after the unit: refused if and only if it names no existing position or does not fit 64 bits; otherwise the Content-Range, parsed again, names exactly the positions asked for and the body holds their bytes |
| `CacheHandler.SpacedRangeServed` | handler/cache/handler.go:112-138 | what `OneRangeServed` states, for any white space, also next to a hyphen |
| `CacheHandler.SavedIsServed` | handler/cache/handler_helpers.go:187-206 | what the part writer saves under a part number is what the range server expects to find there |
| `PartWriter.PartWriter.Write` | handler/cache/part_writer.go:46-83 | consumes all of the data unless saving fails, and keeps buffer, position and saved parts in agreement; terminates although some turns consume nothing |
| `PartWriter.PartWriter.FlushBuffer` | handler/cache/part_writer.go:85-103 | leaves a buffer that is neither full nor the last one, hands over any other under the number of its own part: asks about it, saves it if the answer is yes, and announces it then |
| `PartWriter.PartWriter.Close` | handler/cache/part_writer.go:105-116 | reports a short write exactly when too few or too many bytes came; otherwise the parts handed over are the final parts of the stream |
| `PartWriter.WriteAll` | handler/cache/part_writer.go:26-116 | for every split of a stream into writes, a successful close has asked about the final parts of the stream in order, saved exactly those with the answer yes, and announced exactly these |
| `PartWriter.FinalPartsExact` | handler/cache/part_writer.go:46-116 | the final parts of a piece of an object are exactly the parts whose whole extent lies inside it, each with its bytes |
| `PartWriter.FinalPartAt` | handler/cache/part_writer.go:85-103 | they come in order, each once |
| `PartWriter.KeptMember` | handler/cache/part_writer.go:91-101 | a part is saved if and only if its question was answered with yes |
| `Throttle.ThrottledWriter.constructor` | utils/throttle/throttled_writer.go:29-37 | the minimum write never exceeds the speed |
| `Throttle.ThrottledWriter.Write` | utils/throttle/throttled_writer.go:39-52 | delivers its buffer in order unless the underlying writer fails; the bytes written stay below the speed times the seconds begun; every sleep is asked for while less than the minimum may be written, is the shortest one or a second, and a second only if a whole second of writing is missing; none if all of the buffer is allowed at once |
| `Throttle.ThrottledWriter.ReadFrom` | utils/throttle/throttled_writer.go:55-74 | keeps to the rate, and sleeps only as `Write` does; delivers the bytes of the reader in order, all of them unless something fails or the limit around it is not positive |
| `Throttle.ThrottledWriter.HowMuchCanIWrite` | utils/throttle/throttled_writer.go:96-103 | the grant is what is allowed or the minimum, whichever is larger, and stays within the rate; no sleep if the minimum is allowed, otherwise at most one |
| `Throttle.ThrottledWriter.WaitAtLeastMinWrite` | utils/throttle/throttled_writer.go:82-94 | one sleep is always enough |
| `Throttle.SleepSeconds` | utils/throttle/throttled_writer.go:82-94 | a writer within its rate is less than two seconds behind, so the sleep comes to at most one |
| `ExpireHeap.ExpireHeap.Push` | storage/scheduler.go:23-39 | keeps the heap order and adds one element |
| `ExpireHeap.ExpireHeap.RemoveFirst` | storage/scheduler.go:41-47 | takes out one element, and no other expires earlier |
| `ExpireHeap.FirstIsLeast` | storage/scheduler.go:29-31 | heap order puts the earliest expiry in front |
| `Scheduler.ProtocolHolds` | storage/scheduler.go:89-183 | over all interleavings: no callback runs twice, every client that asks gets the answer to its own question, and accepted expiries are those that fired and those still in the heap |
| `Scheduler.DroppedNeverRuns` | storage/scheduler.go:89-116 | a callback that was overwritten or cleaned up never runs |
| `Scheduler.ThrownOutIsDropped` | storage/scheduler.go:89-116 | overwriting and cleaning up do drop the callback in the map |
| `Scheduler.RunKeepsInv` | storage/scheduler.go:89-183 | each callback is in exactly one place at any time |
| `Scheduler.NeverStuck` | storage/scheduler.go:89-183 | as long as a client or a handler is in the middle of something, some step other than the timer's is possible |
| `Scheduler.InternalStepsEnd` | storage/scheduler.go:89-183 | and only so many of them are, until everybody is idle |
| `SchedulerHistory.HistoryHolds` | storage/scheduler.go:89-165 | over all interleavings, told by what went over the channels: exactly those callbacks run that were the last ones scheduled for a key when the key expired, every answer says whether there was one, what expires is the earliest of what was accepted, and every scheduled callback is that of a call for its key |
| `SchedulerHistory.LeavesByRunning` | storage/scheduler.go:98-113 | without a cleanup or another AddEvent for its key, a callback leaves the map only by running |
| `SchedulerHistory.RunIffPlace` | storage/scheduler.go:108-113 | a callback has run if and only if its place says so |
| `SchedulerHistory.CallsCarriedOut` | storage/scheduler.go:168-183 | every call of a client is carried out in full, in the order of its sends and receives, before the next one |
| `Ketama.Ketama.Set` | upstream/balancing/weighted/ketama/impl.go:47-75 | the ring is sorted and holds exactly the points of the upstreams; or the code panics, exactly when there are upstreams and their weights wrap around to 0 |
| `Ketama.Ketama.Get` | upstream/balancing/weighted/ketama/impl.go:78-97 | the owner of the largest point strictly below the hash, of the largest of all if there is none; an error exactly for an empty ring |
| `Ketama.Keys` | upstream/balancing/weighted/ketama/impl.go:62-71 | the strings that are hashed for the points of an upstream |
| `Ketama.KeysDiffer` | upstream/balancing/weighted/ketama/impl.go:63-63 | other hosts, ports or numbers give other strings |
| `Ketama.CountBounds` | upstream/balancing/weighted/ketama/impl.go:59-73 | the points of an upstream fall short of its exact proportional share by less than 4 |
| `Ketama.RingSize` | upstream/balancing/weighted/ketama/impl.go:51-73 | at most 160 points for each upstream, and more than 156 |
| `Ketama.OwnedPoints` | upstream/balancing/weighted/ketama/impl.go:59-73 | each upstream owns as many points of the ring as its count says |
| `Ketama.EqualRingMember` | upstream/balancing/weighted/ketama/impl.go:59-73 | with equal weights an upstream owns the same 160 points in every ring |
| `Ketama.OnlyToTheNew` | upstream/balancing/weighted/ketama/impl.go:47-97 | with distinct points, and whenever the old upstreams keep their numbers of points, adding upstreams changes the answer for a path only to one of the added ones |
| `Ketama.EqualOnlyToTheNew` | upstream/balancing/weighted/ketama/impl.go:47-97 | so it does with equal weights |
| `Ketama.MeanKeeps` | upstream/balancing/weighted/ketama/impl.go:51-60 | whatever the weights are, an upstream of their mean weight leaves all others their numbers of points |
| `Continuum.EqualShare` | upstream/balancing/weighted/ketama/impl.go:51-60 | with equal weights the quotient is exactly 160 |
| `Continuum.HashBytes` | upstream/balancing/weighted/ketama/impl.go:37-44 | byte j of the hash, from the least significant one on, is byte 4 times the alignment plus j of the digest |
| `Continuum.HashesEqual` | upstream/balancing/weighted/ketama/impl.go:37-44 | two hashes are equal if and only if their four bytes are |
| `Continuum.WrappedShare` | upstream/balancing/weighted/ketama/impl.go:60-60 | the share for products that wrap around at 2^32 too |
| `LegacyKetama.Ketama.Set` | upstream/balancing/weighted/legacyketama/impl.go:48-89 | the ring is sorted and holds exactly the first points, in the order of the upstreams, up to the maximum; or the code panics, exactly when there are upstreams and their weights wrap around to 0 |
| `LegacyKetama.Find` | upstream/balancing/weighted/legacyketama/impl.go:117-130 | the least point that is not below the hash, or the last point; -1 for an empty ring |
| `LegacyKetama.Ketama.Get` | upstream/balancing/weighted/legacyketama/impl.go:92-110 | the owner of that point for the hash of the digest in hexadecimal; an error exactly for an empty ring; the first point is never a fallback |
| `LegacyKetama.Keys` | upstream/balancing/weighted/legacyketama/impl.go:65-86 | the strings that are hashed for the points of an upstream, without port 80 |
| `LegacyKetama.KeysDiffer` | upstream/balancing/weighted/legacyketama/impl.go:65-71 | other hosts, ports or numbers give other strings |
| `LegacyKetama.HexMeans` | upstream/balancing/weighted/legacyketama/impl.go:99-100 | two lower-case digits for each byte of the digest, read back as that byte |
| `LegacyKetama.Overfull` | upstream/balancing/weighted/legacyketama/impl.go:62-63 | rounding goes past the exact share of every upstream, a weight of 0 included |
| `LegacyKetama.Underfull` | upstream/balancing/weighted/legacyketama/impl.go:62-63 | and by one hash at most |
| `LegacyKetama.RingSize` | upstream/balancing/weighted/legacyketama/impl.go:52-87 | exactly 160 points for each upstream, whatever the weights are |
| `LegacyKetama.OwnedPoints` | upstream/balancing/weighted/legacyketama/impl.go:61-87 | for all weights, how many points of the ring each upstream owns |
| `LegacyKetama.EqualRing` | upstream/balancing/weighted/legacyketama/impl.go:61-87 | with equal weights, point by point what the cut leaves: 164 to an upstream until 160 for each are used up |
| `LegacyKetama.OwnsAPoint` | upstream/balancing/weighted/legacyketama/impl.go:74-79 | for all weights, exactly which upstreams are left with a point |
| `LegacyKetama.OwnsEqual` | upstream/balancing/weighted/legacyketama/impl.go:74-79 | with equal weights the upstream at index j has a point if and only if 164 j < 160 n |
| `LegacyKetama.LastOfFortyOne` | upstream/balancing/weighted/legacyketama/impl.go:74-79 | the last upstream is left with none if and only if there are 41 or more |
| `LegacyKetama.OnlyToTheNewOrCut` | upstream/balancing/weighted/legacyketama/impl.go:48-110 | an upstream added at the end changes an answer only to itself or to an upstream that the old ring had cut short |
| `WeightedRandom.Random.Set` | upstream/balancing/weighted/random/impl.go:29-40 | sorts the slice of the caller in place, the heaviest first, keeps it, and sums up the weights |
| `WeightedRandom.Random.Get` | upstream/balancing/weighted/random/impl.go:42-61 | the first upstream whose reached weight, in 32 bits, is above the draw, an error if there is none or no weight |
| `WeightedRandom.ExactShare` | upstream/balancing/weighted/random/impl.go:50-58 | each upstream is selected by exactly as many draws as its weight says, in whatever order the upstreams are |
| `WeightedRandom.AlwaysSelects` | upstream/balancing/weighted/random/impl.go:50-60 | every draw selects an upstream if and only if the weights add up to less than 2^32 |
| `ByteRanges.ParseRequestRange` | utils/httputils/request_range.go:28-61 | no header, an error, or one range for each element that is not blank, in the order of the header and all inside the object |
| `ByteRanges.Answer` | utils/httputils/request_range.go:28-61 | there is exactly one right answer for every header |
| `ByteRanges.ParseReqByteRange` | utils/httputils/request_range.go:64-88 | an accepted range is not empty and inside the object |
| `ByteRanges.ParseEndRelativeRange` | utils/httputils/request_range.go:91-100 | likewise for the last bytes of an object |
| `ByteRanges.ReadPrinted` | utils/httputils/request_range.go:64-100 | a specification, with leading zeros or without, is read as exactly the positions that section 2.1 of RFC 7233 gives it, and refused if and only if it has none or does not fit 64 bits |
| `ByteRanges.HeaderMeans` | utils/httputils/request_range.go:28-61 | for every header written by those rules after the unit, with blanks and tabs around the elements, empty elements and leading zeros: accepted if and only if every specification is and there is one, and then one range for each |
| `ByteRanges.AcceptedOnly` | utils/httputils/request_range.go:28-61 | nothing else is accepted, except that any white space will do, also next to a hyphen; and it is taken for what it says |
| `ByteRanges.SpacedHeaderMeans` | utils/httputils/request_range.go:28-61 | what `HeaderMeans` states, for any white space, also next to a hyphen |
| `ByteRanges.UnitIsLowerCase` | utils/httputils/request_range.go:36-39 | any other unit, and any other spelling of this one, is refused |
| `ByteRanges.RangeHeaderRoundTrip` | utils/httputils/request_range.go:23-61 | parsing the printed range gives that one range back if and only if it is not empty and inside the object |
| `ByteRanges.ParseResponseContentRange` | utils/httputils/response_range.go:19-56 | an accepted range is not empty and inside the object; only the empty header is no header |
| `ByteRanges.ContentRangeMeans` | utils/httputils/response_range.go:19-56 | a header of three numbers, however spelled, is read as what they say if that is a range inside the object in 64 bits, and refused otherwise |
| `ByteRanges.ContentRangeOnly` | utils/httputils/response_range.go:19-56 | nothing but three numbers is accepted, with any white space around them, and they are taken for what they say |
| `ByteRanges.ContentRangeRoundTrip` | utils/httputils/response_range.go:19-56 | parsing the printed header gives start, length and size back, and refuses every range that is empty or not inside the object |
| `Decimal.SpaceChars` | utils/httputils/request_range.go:42-50 | blanks, tabs and line ends are white space, and no other character below 0x7F is |
| `LimitedCopy.CopiesTheLeast` | utils/copy_n.go:6-17 | however limits are nested, exactly the first bytes of the innermost source are copied that the argument, every limit and the source allow |
| `LimitedCopy.EarlyEnd` | utils/copy_n.go:6-17 | an early end is reported if and only if no limit is as small as the argument and the source has less than that |
| `LimitedCopy.LeftBehind` | utils/copy_n.go:6-17 | what is copied is gone from the source; no limit is counted down if all are above the argument, and otherwise one that is not is |
| `TimeoutConn.Conn.ReadFrom` | utils/netutils/timeout_conn.go:77-86 | sends all of the source if all limits are above the maximum, and otherwise what the limits allow |
| `TimeoutConn.KeepsLimits` | utils/netutils/timeout_conn.go:77-86 | that is what reading through the limits gives if and only if one is not above the maximum or none is below what the source has |
| `Sorting.Search` | handler/cache/handler_helpers.go:224-227 | the library's binary search: for any predicate, a place where it changes from false to true |

## Left out

- Lists are sequences of element objects: the links inside `container/list` are not part of this model.
- Mutexes: a section that holds one is one step. Logging, the `debug` switch with `checkTiers`, and the
  request statistics of `Lookup` are left out.
- TieredLRU.TieredLRUCache.ChangeConfig: a shrink to a size of more than 2^63 beyond the number of
  objects, where the conversion fails (`ConversionHolds`), and the removal timeout, are not covered.
- TieredLRU.TieredLRUCache.ThrottledRemove: assumes that nothing runs between its batches; `ZoneSteps`
  covers what does.
- ZoneSteps.NoPartIsLost: runs in which `PromoteObject` panics are not covered. Purge and expiration are
  one step each, without errors; a purge that races with a flush is not covered, and neither is equality
  of index and storage, which does not hold since `handle` discards stale objects behind the back of the
  index.
- Readers.PartReadCloser.Close: what is read on is stated for a body whose own Close takes no bytes,
  as that of a pipe.
- Readers.CopyThenClose: readers of several inside a reader of several, which the source never builds.
- RangeServer.ReqHandler.LazilyRespond: objects of size 0 have no range to serve; the size plus one
  part stays below 2^63 and part numbers fit 32 bits. The upstream is assumed to honour byte ranges, and
  the response to take the bytes through `Write`, or through a `ReadFrom` that keeps to limits:
  `KeepsLimits` says when that of `timeoutConn` does.
- CacheHandler.KnownRanged: the other headers; more than one range is left to the upstream, as in the
  source.
- CacheHandler.KnownFull: an empty object, for which the code asks the upstream for its first byte.
- PartWriter.PartWriter.Write: the position stays within the 2^32 parts that a part number can name.
- Throttle.ThrottledWriter.Write: the signed 64-bit overflow of the products.
- Throttle.ThrottledWriter.ReadFrom: an underlying writer that reads by itself.
- Scheduler.NeverStuck: `Destroy`, after which a handler can stay blocked, and the real timer. That a
  callback never runs early, or always runs in the end, is not claimed: a stale tick can survive a reset
  of the timer, and the two sends of `AddEvent` can straddle the expiry. `expiresDict` is never read.
- Ketama.RingSize: the results about sizes, here and for the legacy ring, are for weights whose products
  and sums do not wrap.
- Ketama.OnlyToTheNew: an added upstream that changes the numbers of points of the others.
- WeightedRandom.Random.Set: the sum of the weights is not bounded by 63 bits.
- LimitedCopy.CopiesTheLeast: read errors.
- TimeoutConn.Conn.ReadFrom: errors, deadlines and the throttle in front of the connection.
- Strings are sequences of characters; encoding is not modelled. md5 is an unknown function.
- HTTP plumbing and headers, configuration, application start and reload, DNS, the other handlers, paths,
  renames and metadata on disk: input and output or thin wrappers around libraries.
- The location muxer and the cacheability rules rest on libraries that are not part of this model.
- The rendezvous balancer computes with floating point numbers; round robin and unweighted random
  selection would only add easy members.
