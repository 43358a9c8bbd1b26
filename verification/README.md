# Verification of simple-s3-cache

A model in Dafny of the page cache in front of S3, and proofs about it: that the
bytes of one response never mix object versions, that a write is seen by later
reads, that peers learn of invalidations, and that pages are cut, stored, moved
between peers and put together again byte for byte.

`dafny verify dfyconfig.toml` checks the whole project.

## What is modelled

- `RangePlan`, `RangeHeader`, `Integers`, `Text`: reading a Range header, and cutting a byte range into page spans, with 64-bit wrap-around written out.
- `PageStreams`: cutting spans out of pages, streaming a page while it is filled, and splitting the body of a cold object into pages.
- `CacheIndex`: the tables of the cache (generations, objects, pages) and their transactions as values.
- `CacheMachine`, `CacheSafety`, `CacheRuns`, `CacheCollection`, `CacheProgress`: one node and its upstream as a step machine. Each statement under its own lock, each file operation and each upstream exchange is a step, so any calls interleave. `CacheSafety` has the steps, `CacheRuns` the results about whole runs, `CacheCollection` the collection of generation rows, `CacheProgress` what can be done from every state.
- `CacheStore`, `Lru`, `SizeAccounting`: the cache as an object with its methods, run one call at a time: size counters, page writers, eviction and collection.
- `PageFrames`, `PageFrameIO`: the page frame stream between peers, its grammar, and the writer and readers as objects.
- `Router`, `DistributedRead`: page ownership, and the merge of the streams of several owners.
- `PeerReadiness`, `RetryQueue`, `RetryProgress`: invalidation broadcast, bounded retry and the degraded flag, as a step machine with a lossy network and as an object.
- `EpochCatchUp`: how nodes with different epochs for one object come to agree.
- `FillCoalescing`, `FillOutcomes`: sharing of fills, the fill semaphores, and what a fill comes to.
- `AwsChunked`, `AwsEncoding`: the two decoders of the aws-chunked upload encoding, and all that they accept.

## Results that hold only on a condition

The condition is stated and shown to be exact, and a lemma gives a state or an
input on the other side of it.

- Page enumeration and page bounds are right exactly as long as the 64-bit products do not wrap (`RangePlan.WrappedTiling` with `LastPageOverflows`, `RangePlan.BoundsAgreeExactly` with `HugeIndexWrapsIntoObject`).
- Collecting a generation row is harmless exactly when every open call of the object remembers epoch 0 and no open fill of it is older than the last advance (`CacheCollection.CollectionIsSafeExactly`, with `UnsafeCollectionBreaks` for every other case). The code collects by age alone; the step machine collects under this condition.
- A remote invalidation removes the pages of a peer exactly when the row of the peer is not ahead of the epoch sent (`CacheIndex.RemoteInvalidationDropsPages`, with `AheadPeerKeepsPages`).
- Check and clear of the degraded flag are two critical sections. Whatever the peers may have missed, clearing is sound exactly when no peer is in doubt about the last epoch broadcast for an object (`PeerReadiness.ClearIsSafeExactly`, with `RacingClearIsUnsound` and `UnsentEpochIsNoExcuse` for runs that get there). The generation of the object does not matter: it also moves without a broadcast.
- Queue and flags live in memory. A restart comes up ready, which is sound exactly when it loses nothing about a last epoch (`PeerReadiness.RestartIsSafeExactly`, with `RestartForgets`).
- The last page of a cold body is committed before its length is checked; it is a page of the object exactly when the body is complete or ends at a page boundary (`PageStreams.ColdPagesOfTruncatedBody`, with `CutPageIsNoPage`). What can be served from a page that was cut short is right all the same (`PageStreams.SpanOfPrefix`).
- The two aws-chunked decoders give the same result exactly when no negative size is met and the body is not cut where the streaming reader takes its end for a clean EOF (`AwsChunked.DecodeBothWays`, with `NegativeSizePanics` and `AwsEncoding.CutInsideChunk`).
- Timestamps start again from the clock after a restart. A page just stored or read is last in line for eviction exactly when no other row is ahead of it (`Lru.TouchedAreLast`, with `RowAheadOutlives`).
- The range parser by itself also accepts signed positions (`RangeHeader.ParserIsLaxExactly`, with `SignedHeaderParses`).

Assumptions that the results make: an etag determines the bytes of an object;
object ids and page paths are injective digests; one page size is configured per
bucket and does not change; database writes are serialised.

## Model

| member | source | states |
|---|---|---|
| `CacheRuns.NoMixedVersions` | internal/proxy/proxy.go:3184-3208 | In every interleaving of upstream writes, invalidations, evictions, metadata upserts, collections and other writers, a cached GET that ends without error has sent exactly the byte range it was asked for, of one single upstream version: the one named by the etag of the object row that was there when it was planned |
| `CacheRuns.PlanIsKept` | internal/proxy/proxy.go:2466-2477 | As long as a GET is open it keeps the range it was asked for and the object row it was planned from |
| `CacheRuns.ReaderWasPlanned` | internal/proxy/proxy.go:2873-2889 | Every open GET goes back to a plan for its object and its range, and was open ever since, so the results above cover every GET |
| `CacheRuns.FilesNameTheirContent` | internal/cache/cache.go:665-702 | In every run the file at the path of (object, page, etag, epoch) holds that page of the version with that etag, or a beginning of it when a body ended early, also when the writer that renamed it then lost its commit |
| `CacheRuns.FreshAfterInvalidation` | internal/cache/cache.go:1265-1328 | After a local invalidation, every page row of the object that exists at any later moment holds bytes read from upstream at or after the write that was newest then, with fills in flight and a raced PutObject re-inserting old metadata |
| `CacheRuns.ReadYourWrites` | internal/proxy/proxy.go:1422-1439 | A GET planned after a local invalidation that ends without error has sent exactly the byte range it was asked for, of the version newest at that invalidation or of a later one |
| `CacheRuns.ObjectRowIsNewer` | internal/cache/cache.go:458-462 | An object row that exists at any moment after a local invalidation was written by a PutObject call whose upsert came later, with the etag, size and epoch of that call, and has stayed since |
| `CacheRuns.PageRowWasCurrent` | internal/cache/cache.go:1290-1298 | Every page row in every run was inserted by a commit that found, at that moment, its own etag in the object row and its own epoch in the generation row; a fill with any other etag or epoch never inserts |
| `CacheRuns.EpochFence` | internal/cache/cache.go:1265-1328 | In every reachable state each page row has an object row, carries the current generation of its object, and no object row is ahead of its generation |
| `CacheRuns.AdvanceRemovesPages` | internal/cache/cache.go:428-470 | Every step that advances a generation leaves no page row of that object |
| `CacheRuns.StaleWriterNeverCommits` | internal/cache/cache.go:603-702 | A writer opened before an advance stays behind for as long as it is open and the generation of its object is not collected, so in no such run does it insert a row |
| `CacheCollection.CollectionIsSafeExactly` | internal/cache/cache.go:1018-1042 | After a collection of a generation row, every continuation keeps the epoch fence and holds no page older than the last advance, if and only if every open put, fill and reader of the object remembers epoch 0 and no open fill of it was read before that advance |
| `CacheCollection.CollectionKeepsInvExactly` | internal/cache/cache.go:1018-1042 | Under exactly the same condition the collection keeps the invariant behind all results on runs |
| `CacheCollection.UnsafeCollectionBreaks` | internal/cache/cache.go:1018-1042 | In every other case steps are given that lead to an object row ahead of its generation, or to a page row older than the last invalidation |
| `CacheCollection.UnsafeCollectionRevivesOldPage` | internal/cache/cache.go:1018-1042 | A concrete state in which a collection lets a writer of before an invalidation insert its page |
| `CacheRuns.RunKeepsInv` | internal/cache/cache.go:307-486 | Every state of every run satisfies the invariant over rows, files, open puts, open fills and readers |
| `CacheSafety.StepKeepsInv` | internal/cache/cache.go:307-781 | Every single step, of any call and in any order, keeps that invariant |
| `CacheSafety.ServeExtends` | internal/proxy/proxy.go:3184-3208 | Serving the right page, or a beginning of it that contains the whole span, extends what was sent by exactly the next span of the same version |
| `CacheSafety.InvalidateKeepsInv` | internal/cache/cache.go:428-470 | An invalidation, local or remote, keeps the invariant for calls that are still open |
| `CacheSafety.RestartKeepsInv` | internal/cache/cache.go:165-254 | A restart, which ends all calls and keeps tables and files, keeps the invariant; runs may contain any number of them |
| `CacheSafety.RenameKeepsInv` | internal/cache/cache.go:679-690 | Renaming a page file into place before the fenced insert keeps every file named by its content |
| `CacheSafety.PutUpsertKeepsInv` | internal/cache/cache.go:331-351 | An object row written with an epoch read earlier never gets ahead of its generation |
| `CacheSafety.CollectGenerationKeepsInv` | internal/cache/cache.go:1018-1042 | A collection that resets no remembered epoch and revives no old fill keeps the invariant, also with calls open |
| `CacheProgress.MetadataGetsIn` | internal/cache/cache.go:331-364 | From any state, metadata of any version upstream has had gets into the cache with the current generation, so that a fill for it can commit |
| `CacheProgress.GetCompletes` | internal/proxy/proxy.go:3184-3208 | A GET whose etag is the newest can be served to its end from any point, whatever the cache holds, and gets exactly its range |
| `CacheProgress.ColdGetCompletes` | internal/proxy/proxy.go:2466-2477 | From any state a GET for any range of the newest version can be planned and served, even of an object that the cache has never seen |
| `CacheProgress.FillGetsIn` | internal/cache/cache.go:603-702 | A fill whose object has its etag and generation gets its row and its file into the cache, and as a whole page it is found there by readers |
| `CacheProgress.WarmGetCompletes` | internal/proxy/proxy.go:3184-3208 | A GET whose remaining pages are all cached can be served to its end without any request to upstream, and gets exactly its range of the version its etag names |
| `CacheIndex.InvalidateKeepsFence` | internal/cache/cache.go:428-470 | An invalidation never lowers a generation, touches no other object, keeps the fence and, when it advances, leaves no page of the object |
| `CacheIndex.InvalidationExactly` | internal/cache/cache.go:428-470 | The object row is gone after a local invalidation, and after a remote one unless its epoch is higher than the one sent; a kept row, all other object rows, the pages of objects that stay and all other generations are unchanged; the generation is one higher, or the larger of its value and the epoch sent |
| `CacheIndex.UpsertKeepsFence` | internal/cache/cache.go:331-351 | Writing an object row keeps the fence if and only if its epoch is not ahead of the generation |
| `CacheIndex.CommitKeepsFence` | internal/cache/cache.go:1265-1328 | A page row inserted under the commit check keeps the fence |
| `CacheIndex.RemoteInvalidationsJoin` | internal/cache/cache.go:428-470 | Any finite sequence of remote invalidations, in any order and with any duplicates, leaves the same generations, objects and pages as one at the largest epoch |
| `CacheIndex.RemoteInvalidationDropsPages` | internal/cache/cache.go:449-452 | A remote invalidation removes the pages of an object if and only if the object row is not ahead of the epoch sent |
| `CacheIndex.AheadPeerKeepsPages` | internal/cache/cache.go:449-452 | A concrete peer that ran ahead on its own and keeps its pages through a remote invalidation |
| `CacheStore.Cache.constructor` | internal/cache/cache.go:165-254 | Opening what an earlier process left keeps its tables and files, and has exact size counters |
| `CacheStore.Cache.ReadCacheSize` | internal/cache/cache.go:791-822 | The counters read back are exact, with an entry for exactly the buckets that have page rows |
| `CacheStore.Cache.Timestamp` | internal/cache/cache.go:291-300 | Timestamps strictly increase: the clock where that is later, else one more than the last |
| `CacheStore.Cache.PutObject` | internal/cache/cache.go:307-364 | Rejects exactly the invalid metadata; otherwise the only change to the object rows is this row, with the given etag, sizes and identity and the current generation; no page and no generation changes; fence and counters stay right |
| `CacheStore.Cache.InvalidateObject` | internal/cache/cache.go:395-486 | The object row is gone, unless the epoch sent is below that of the row; its pages go with it, and exactly their files; every other row and generation stays; the result is the new generation, one higher or the larger of the two; fence and counters stay right |
| `CacheStore.Cache.AdjustCacheSize` | internal/cache/cache.go:866-884 | The new counters are the ones that SizeAccounting.AdjustKeepsExact shows to stay exact |
| `CacheStore.Cache.PagesSize` | internal/cache/cache.go:903-909 | The loop adds up to the total of the rows |
| `CacheStore.Cache.RemovePage` | internal/cache/cache.go:1441-1458 | One row, its file and its bytes are gone and nothing else; fence and counters stay right |
| `CacheStore.Cache.OpenPage` | internal/cache/cache.go:716-781 | Serves a page only of the expected etag and epoch and of the recorded length; anything else is removed and counted off |
| `CacheStore.Cache.CollectMetadata` | internal/cache/cache.go:976-1042 | Removes exactly the old object rows without pages and then the old generations without object; fence and counters stay right |
| `CacheStore.Cache.FlushTouches` | internal/cache/cache.go:1530-1543 | Exactly the touched rows get the new access time, later than all earlier timestamps, so that they are last in line for eviction unless a row left by an earlier process is ahead of the clock; no size changes |
| `CacheStore.Cache.OldestPages` | internal/cache/cache.go:1387-1439 | The batch has the given number of distinct rows, or all there are, in order of last access, and no row left out was used before one in it |
| `CacheStore.Cache.RemoveBatch` | internal/cache/cache.go:911-944 | Removing a batch oldest first until the target is met makes progress and does not change what one-at-a-time eviction would end with |
| `CacheStore.Cache.EvictDown` | internal/cache/cache.go:911-944 | The batched loop ends, with exactly the rows that removing one oldest page at a time leaves |
| `CacheStore.Cache.EvictBuckets` | internal/cache/cache.go:946-974 | Whatever order the buckets are visited in, each capped bucket ends within its cap, with its least recently used pages gone first and none more than needed; other buckets keep everything |
| `CacheStore.Cache.Evict` | internal/cache/cache.go:911-974 | After both phases the cache and every capped bucket fit; first in each capped bucket and then, of what that left, in the whole cache the least recently used pages went first, the earlier created of two used at the same time, and a page went only if all pages used since then were too much; the files of exactly the removed rows are gone |
| `CacheStore.Cache.BeginPageWrite` | internal/cache/cache.go:603-644 | A writer opens exactly if the object row has this etag and the generation row this epoch |
| `CacheStore.Cache.PutPageIfCurrent` | internal/cache/cache.go:1265-1328 | Inserts if and only if the object row has this etag and the generation row this epoch; then exactly this row is new, with a fresh access time and the old creation time if it replaces a row, and is last in line for eviction if and only if no other row is ahead of that time; counters stay exact; otherwise nothing changes |
| `CacheStore.PageWriter.Write` | internal/cache/cache.go:646-659 | Appends exactly when the writer is open and the page stays within the size of the cache and the cap of its bucket; otherwise the bytes stay as they were |
| `CacheStore.PageWriter.Commit` | internal/cache/cache.go:665-702 | Wins if and only if the object row has this etag and the generation row this epoch; then exactly this row and this file, with the written bytes, are new; a losing one leaves no row of its own; fence and counters stay right |
| `CacheStore.PageWriter.Abort` | internal/cache/cache.go:704-714 | Closes the writer and changes nothing in the cache |
| `CacheStore.CommitThenOpen` | internal/cache/cache.go:665-781 | What was committed is what OpenPage then serves |
| `Lru.EvictKeepsLargestSuffix` | internal/cache/cache.go:911-944 | LRU eviction fits and removes the shortest sufficient prefix of the LRU order: any part of that order that fits is contained in what it keeps |
| `Lru.EvictionIsLru` | internal/cache/cache.go:1387-1411 | In terms of access times alone: a page used later than one that is kept is kept, and so is one created later if both were used at the same time; and a page went only if the pages used since its last use were too much for the limit |
| `Lru.BucketPhaseIsLru` | internal/cache/cache.go:946-974 | The same inside each capped bucket, whatever the other buckets hold; a bucket without a cap keeps everything |
| `Lru.BatchIsLru` | internal/cache/cache.go:1387-1439 | The candidates of a batch come in order of last access, and none of the others was used before them |
| `Lru.JustUsedSurvives` | internal/cache/cache.go:911-974 | The page used last survives both phases of an eviction if it fits in the cache and in its bucket |
| `Lru.RowAheadOutlives` | internal/cache/cache.go:291-300 | Two rows of which the one just stored goes first, because an earlier process had a later clock |
| `Lru.TouchedAreLast` | internal/cache/cache.go:291-300 | Rows that take a timestamp were used after all others if and only if no other row is at or ahead of it |
| `Lru.OldestIsUnique` | internal/cache/cache.go:1387-1411 | The LRU order has exactly one oldest row, ties broken by the digest of the key |
| `Lru.BucketDone` | internal/cache/cache.go:946-974 | Visiting one more bucket extends the set of finished buckets, whatever the order |
| `Lru.BucketsWithinCaps` | internal/cache/cache.go:946-974 | After the bucket phase every capped bucket is within its cap and kept the largest part of its own LRU order |
| `Lru.EvictionFits` | internal/cache/cache.go:911-974 | After both phases the whole cache is within its limit and every capped bucket within its cap |
| `Lru.EvictWhole` | internal/cache/cache.go:911-944 | Evicting the scope of all pages is plain LRU eviction |
| `SizeAccounting.AdjustKeepsExact` | internal/cache/cache.go:866-884 | Exact counters stay exact under any change that moves one bucket by the amount given |
| `SizeAccounting.WithoutObject` | internal/cache/cache.go:480-483 | Removing an object changes the total and its bucket by the bytes of its pages, and no other bucket |
| `SizeAccounting.WithPage` | internal/cache/cache.go:692-697 | Inserting or overwriting a row changes the total and its bucket by the difference in size |
| `RangePlan.PagesForRange` | internal/cacheplan/range.go:71-94 | For valid input the spans tile the range, consecutive in index, disjoint and in order, if and only if the end of the last page is a 64-bit number |
| `RangePlan.WrappedTiling` | internal/cacheplan/range.go:79-91 | The exact condition for the wrapping arithmetic: the enumeration tiles if and only if the last page does not overflow |
| `RangePlan.TilingIsUnique` | internal/cacheplan/range.go:71-94 | A range has exactly one tiling by pages |
| `RangePlan.TilingSelectsRange` | internal/cacheplan/range.go:71-94 | The bytes selected by the spans are exactly the bytes of the range |
| `RangePlan.BoundsAgreeExactly` | internal/cacheplan/range.go:96-117 | The 64-bit page bounds are those over the integers if and only if the products involved do not wrap into the object |
| `RangePlan.PlannedBoundsAreExact` | internal/cacheplan/range.go:96-117 | For every page index that a plan can contain the page bounds are exact |
| `RangePlan.HugeIndexWrapsIntoObject` | internal/cacheplan/range.go:107-110 | A concrete huge page index whose start wraps around to a byte of the object |
| `RangePlan.LastPageOverflows` | internal/cacheplan/range.go:83-91 | A concrete range whose last page ends beyond the largest offset, and whose spans do not tile it |
| `PageStreams.PageSpanStream.Write` | internal/proxy/proxy.go:3908-3928 | After any chunk the client has exactly the window of the bytes received so far |
| `PageStreams.CopyPageResponseToWriter` | internal/proxy/proxy.go:3930-3958 | However a response is chunked, the stored page is the whole response and the client gets what copying the stored page would give |
| `PageStreams.SpanOfPage` | internal/proxy/proxy.go:3960-3976 | Copying a span out of its page gives exactly those bytes of the object |
| `PageStreams.FillSendsSpan` | internal/proxy/proxy.go:3890-3958 | A fill of the right page sends exactly the requested bytes, for every chunking |
| `PageStreams.BufferColdFullPage` | internal/proxy/proxy.go:2713-2737 | Feeding a chunk keeps the committed pages the full pages received so far and the open page the remainder |
| `PageStreams.StreamColdFullObject` | internal/proxy/proxy.go:2664-2711 | For every chunking the client gets the whole body and the commits are its pages, each once and in order |
| `PageStreams.ColdPagesOfTruncatedBody` | internal/proxy/proxy.go:2703-2709 | Pages stored from a body that stops early are pages of the object if and only if nothing is missing or the length of the body is a multiple of the page size |
| `PageStreams.CutPageIsNoPage` | internal/proxy/proxy.go:2703-2709 | A body cut inside a page, whose stored page is not the page of the object |
| `PageStreams.SpanOfPrefix` | internal/proxy/proxy.go:3960-3976 | A span that can be copied out of the beginning of a page is the span of the whole page |
| `PageStreams.ColdPagesMatchBounds` | internal/cacheplan/range.go:96-117 | The pages stored from a full body are exactly those of the page bounds, one for each page index |
| `PageFrames.RoundTrip` | internal/peer/pageframe.go:78-125 | Reading what the writer wrote gives exactly the pages written and then a clean end, however much of each body is read before it is closed |
| `PageFrames.OnlyEncodingsRead` | internal/peer/pageframe.go:206-305 | Any byte string that reads to a clean end begins with the encoding of pages with exactly the expected indexes, within the size limit |
| `PageFrames.NoStrictPrefixEndsCleanly` | internal/peer/pageframe.go:206-305 | No strict prefix of a valid stream reaches a clean end, however its bodies are partly read and closed |
| `PageFrames.CleanEndIgnoresRest` | internal/peer/pageframe.go:218-223 | Bytes behind a clean end change nothing |
| `PageFrames.BigEndianRoundTrip` | internal/peer/pageframe.go:95-98 | Fixed-width big-endian numbers read back |
| `PageFrameIO.PageFrameWriter.constructor` | internal/peer/pageframe.go:61-72 | Starts a stream with the header |
| `PageFrameIO.PageFrameWriter.WritePageFrom` | internal/peer/pageframe.go:78-114 | Accepts exactly the increasing non-negative indexes on an open writer, and then the output is the encoding of the pages written; after a source that ends early it stands inside the body of that page |
| `PageFrameIO.ShortPageIsNoticed` | internal/peer/pageframe.go:102-110 | A stream broken inside the body of a page never reaches a clean end, however its bodies are read |
| `PageFrameIO.PageFrameWriter.WriteEnd` | internal/peer/pageframe.go:116-125 | Closes a stream once; the output is then a whole encoded body |
| `PageFrameIO.PayloadReader.Read` | internal/peer/pageframe.go:273-292 | Delivers the next bytes of the body and never a byte behind it; a body that ends early is an error |
| `PageFrameIO.PayloadReader.Close` | internal/peer/pageframe.go:294-305 | Afterwards the connection stands behind the body, or at its end when the body was cut short, whatever was read before |
| `PageFrameIO.NewPageFrameReader` | internal/peer/pageframe.go:153-191 | Accepts exactly increasing non-negative expected indexes, a positive limit and the stream header |
| `PageFrameIO.PageFrameReader.NextPageStream` | internal/peer/pageframe.go:206-264 | The next frame is the one of the stream grammar: page, clean end or error, with the reader advanced accordingly |
| `PageFrameIO.ConsumeAll` | internal/peer/pageframe.go:206-305 | A consumer that reads part of each body and closes it sees what the stream grammar says |
| `Router.NewRouter` | internal/peer/router.go:43-88 | A ring exists exactly when the trimmed peers are complete, distinct and contain the local one where needed; it is sorted and holds exactly those peers |
| `Router.OwnerForRoutingKey` | internal/peer/router.go:120-131 | The loop finds the owner: no peer has a higher score, and every other peer with the same score has a larger id |
| `Router.LessIsLexicographic` | internal/peer/router.go:120-131 | Ids are compared lexicographically: a proper prefix, or smaller where they first differ |
| `Router.OwnerIsUnique` | internal/peer/router.go:120-131 | The owner depends on the set of peers only, not on their order |
| `Router.RemovalMovesOnlyOwned` | internal/peer/router.go:120-131 | Removing a peer moves exactly the pages it owned |
| `Router.AdditionMovesOnlyToNewPeer` | internal/peer/router.go:120-131 | Adding a peer moves pages only to it |
| `Router.RingIsCanonical` | internal/peer/router.go:151-160 | Two rings with the same members are the same sequence, so they hash alike |
| `DistributedRead.GroupCoordinatorPageBatches` | internal/proxy/proxy.go:2974-2986 | Each owner gets exactly its pages, in plan order, and no owner without pages gets a batch |
| `DistributedRead.PageInOwnersBatch` | internal/proxy/proxy.go:2974-2986 | A planned page is in the batch of its owner and in no other |
| `DistributedRead.OwnerAcceptsExactly` | internal/proxy/proxy.go:929-963 | Where no 64-bit product wraps, an owner accepts exactly the nonempty batches of existing pages that it owns, each once and in order |
| `DistributedRead.BatchIsAccepted` | internal/proxy/proxy.go:929-963 | Every batch of a planned read passes the checks of its owner |
| `DistributedRead.DistributedReadIsLocalRead` | internal/proxy/proxy.go:3125-3182 | With honest owners, and own pages that can be served, the merge of the frame streams sends exactly the bytes of the range and leaves every stream at its end marker |
| `DistributedRead.OwnPagesServe` | internal/proxy/proxy.go:3160-3182 | Cached pages of the object are own pages that can be served |
| `DistributedRead.SuccessReadsEveryStream` | internal/proxy/proxy.go:3125-3158 | When the merge succeeds each stream on its own reads to a clean end |
| `DistributedRead.SuccessSendsFrames` | internal/proxy/proxy.go:3125-3182 | For any bytes from the owners: when the merge succeeds, what was sent is the concatenation, in page order, of each span copied whole out of the frame that its owner sent for its page |
| `DistributedRead.SuccessReadsWholeFrames` | internal/proxy/proxy.go:3125-3158 | And each stream then holds exactly one frame for each page asked of that owner, in order, and the end marker |
| `DistributedRead.TruncationIsNoticed` | internal/proxy/proxy.go:3125-3158 | A response cut short anywhere is never taken for a whole one |
| `DistributedRead.StreamCoordinatorPageSpans` | internal/proxy/proxy.go:3125-3182 | The loop of the coordinator computes that merge, and stops with what it has sent at the first span, own or remote, that fails |
| `PeerReadiness.ReadinessIsSound` | internal/proxy/proxy.go:1504-1720 | In every run with lost requests, lost answers, retries in any order, generations that move without a broadcast, and clears and restarts that happen without doubt, a ready node has every peer at or above every epoch it ever broadcast, or is about to send that peer the last one; with no broadcast in progress, every peer is at or above every epoch |
| `PeerReadiness.NothingIsForgotten` | internal/proxy/proxy.go:1527-1602 | In every run, raced or not, whatever is owed to a peer is applied there, queued at that epoch or a later one, covered by the sticky flag or still being sent, until a restart that loses it |
| `PeerReadiness.ClearIsSafeExactly` | internal/proxy/proxy.go:1698-1709 | Clearing the degraded flag leaves a sound node for every state of the peers that agrees with what the node keeps, if and only if no peer is in doubt about the last epoch broadcast for an object: a send of it failed (queued, untracked, or marked and not queued yet), it is not acknowledged since, and it is not about to be sent |
| `PeerReadiness.ClearInRunIsSafeExactly` | internal/proxy/proxy.go:1698-1709 | The same in every state of every run, raced or not |
| `PeerReadiness.UnsentEpochIsNoExcuse` | internal/proxy/proxy.go:2988-2994 | A concrete run in which the generation moves on without a broadcast, so that every queued epoch is older than it, and a clear leaves a ready node whose peer missed an invalidation |
| `PeerReadiness.RestartIsSafeExactly` | internal/proxy/proxy.go:1504-1720 | A restart, which forgets queue, flags and broadcasts and comes up ready, is sound for every state of the peers that agrees with what the node kept, if and only if no last epoch was failing or about to be sent without being acknowledged |
| `PeerReadiness.RestartForgets` | internal/proxy/proxy.go:1504-1720 | A concrete run in which a queued epoch is lost by a restart |
| `PeerReadiness.UninterruptedClearIsSafe` | internal/proxy/proxy.go:1698-1709 | A check followed at once by its clear is safe unless a failure is marked and not queued yet |
| `PeerReadiness.RacingClearIsUnsound` | internal/proxy/proxy.go:1698-1709 | A concrete run in which a failure between check and clear leaves a ready node with a peer that missed an invalidation |
| `PeerReadiness.StepKeepsInv` | internal/proxy/proxy.go:1504-1720 | Every step keeps the readiness invariant, except a clear in doubt and a restart that loses something |
| `RetryQueue.PeerRetry.Enqueue` | internal/proxy/proxy.go:1559-1602 | A retry is given up, with the sticky flag, only for a new key when the queue is at its limit; otherwise the queue has that key, at the larger of the two epochs, and all other entries as before; a worker is started exactly when none runs |
| `RetryQueue.PeerRetry.Remove` | internal/proxy/proxy.go:1687-1696 | An acknowledgement removes its entry unless a newer epoch replaced it, and no other |
| `RetryQueue.PeerRetry.Snapshot` | internal/proxy/proxy.go:1677-1685 | The list holds exactly the pending entries |
| `RetryQueue.PeerRetry.MarkDegraded` | internal/proxy/proxy.go:528-553 | The node is degraded, and for a failed invalidation only if no other reason was or is given |
| `RetryQueue.PeerRetry.RetryPending` | internal/proxy/proxy.go:1640-1675 | A round leaves exactly the entries that were not acknowledged, and recovers the node exactly when there are none and none was dropped |
| `RetryQueue.PeerRetry.FinishIfIdle` | internal/proxy/proxy.go:1711-1720 | A worker ends exactly when nothing is pending, so no entry is left without a worker |
| `RetryProgress.EnqueueExactly` | internal/proxy/proxy.go:1559-1602 | The same of the step that queues a retry between other steps |
| `RetryProgress.NothingIsGivenUp` | internal/proxy/proxy.go:1573-1588 | In every run in which no more keys were ever queued than the limit, no failed invalidation is given up |
| `RetryProgress.RetriesEmptyTheQueue` | internal/proxy/proxy.go:1640-1696 | From every state of every run, acknowledged retries empty the queue, and then every peer has at least the epochs that were queued for it |
| `RetryProgress.NodeRecovers` | internal/proxy/proxy.go:1640-1709 | If no more keys were ever queued than the limit, then once the retries are acknowledged the check succeeds and a clear makes the node ready, unless it is degraded for another reason |
| `EpochCatchUp.ReadObject` | internal/proxy/proxy.go:978-1028 | The code of an owner computes the answer and the new tables that the results below are about |
| `EpochCatchUp.OwnerAcceptsExactly` | internal/proxy/proxy.go:978-1028 | An owner accepts an epoch if and only if it is not ahead of it, then has that epoch and identity; a refusal leaves its epoch alone; nothing changes for other objects |
| `EpochCatchUp.OwnerKeepsFence` | internal/proxy/proxy.go:978-1028 | Adopting an epoch and identity, or refusing it, keeps the epoch fence of the owner |
| `EpochCatchUp.LevelCoordinatorIsServed` | internal/proxy/proxy.go:2925-2938 | A coordinator that is not behind the owners it asks is served at once |
| `EpochCatchUp.AttemptExactly` | internal/proxy/proxy.go:2925-2938 | A distributed read is refused if and only if some owner asked is ahead; a refusal raises the epoch of the coordinator by exactly one, and every other epoch stays or becomes that of the coordinator |
| `EpochCatchUp.ServedOwnersAgree` | internal/proxy/proxy.go:978-1028 | After a served read every owner asked has the epoch of the coordinator and the etag, size and page size that the coordinator planned with |
| `EpochCatchUp.PlanIsCurrent` | internal/proxy/proxy.go:2770-2800 | A coordinator plans with its own row, or with metadata of upstream if it has none or one adopted from a peer; the row carries its current generation |
| `EpochCatchUp.CatchUpEnds` | internal/proxy/proxy.go:2988-2994 | In every run of reads by any coordinators asking any owners in any order, no epoch passes the initial maximum and a node is refused at most as often as it was behind that maximum |
| `EpochCatchUp.LaggingCoordinatorIsServed` | internal/proxy/proxy.go:2925-2938 | A coordinator that keeps trying is served, after at most (largest owner epoch minus its own) refusals |
| `FillCoalescing.OneFillPerPage` | internal/proxy/proxy.go:3263-3322 | In every interleaving at most one request fills a given page of a given version and epoch |
| `FillCoalescing.TokensAreConserved` | internal/proxy/proxy.go:3547-3593 | At every moment each semaphore holds exactly the tokens of the requests that hold it, and never more than its capacity |
| `FillCoalescing.OwnersNeverBlock` | internal/proxy/proxy.go:3481-3545 | No release blocks, no call is closed twice, and an owner removes its own entry from the table |
| `FillCoalescing.NoWaiterIsStranded` | internal/proxy/proxy.go:3275-3303 | A waiter can wake, or the owner of its call is at work and can take its next step |
| `FillCoalescing.OwnerFinishes` | internal/proxy/proxy.go:3304-3322 | However the other requests are scheduled, once an owner has taken the at most seven steps it had left, its call is closed |
| `FillCoalescing.ClosedCallsStayInRun` | internal/proxy/proxy.go:3304-3322 | A closed call stays closed with its outcome for the rest of the run |
| `FillCoalescing.RefusedAttemptLeavesNoTokens` | internal/proxy/proxy.go:3551-3558 | An attempt that is denied the token of the object gives the global one back and holds none |
| `FillCoalescing.NothingIsLeftBehind` | internal/proxy/proxy.go:3481-3545 | When no fill is in progress the table is empty, every semaphore is free and every call is closed |
| `FillOutcomes.ClosedCallsTell` | internal/proxy/proxy.go:3304-3322 | A closed call is a success if and only if in some earlier step its fill, holding both tokens, was fetched |
| `FillOutcomes.WaiterGets` | internal/proxy/proxy.go:3275-3303 | A waiter succeeds if and only if the fill it waited for was fetched and it then finds the page; it starts over if the page is gone again, and fails otherwise |
| `FillOutcomes.AdmissionIsExact` | internal/proxy/proxy.go:3547-3593 | A fill is refused if and only if the requests that hold a token are as many as the limit, first over all fills and then for its object |
| `FillCoalescing.StepKeepsInv` | internal/proxy/proxy.go:3263-3322 | Every step keeps the table, the calls and the tokens consistent |
| `AwsChunked.DecodeAwsChunkedBody` | internal/proxy/proxy.go:2142-2171 | The loop yields the bytes the format prescribes, and no error exactly for a complete body |
| `AwsChunked.BufferedReader.DiscardTrailers` | internal/proxy/proxy.go:2173-2183 | Stops exactly behind the empty line after the trailers, or fails when there is none |
| `AwsChunked.BufferedReader.ReadCRLF` | internal/proxy/proxy.go:2185-2194 | Accepts exactly the terminator and tells a wrong one from a missing one |
| `AwsChunked.DecodeReader.Read` | internal/proxy/proxy.go:2065-2102 | Whatever the buffer size, a read without error takes bytes off the front of what is to come, and an error says how the body ended |
| `AwsChunked.DecodeReader.NextChunk` | internal/proxy/proxy.go:2108-2128 | Moves to the data of the next chunk, to the end, or reports what the format says is wrong |
| `AwsChunked.ReadAll` | internal/proxy/proxy.go:2065-2128 | For every sequence of buffer sizes the bytes read are those of the format, and a truncated body ends in a clean EOF if and only if the bytes present of the chunk in whose data it is cut (none for a cut elsewhere) are exactly those of some number of reads from the first read in that chunk on |
| `AwsChunked.ConstantBuffers` | internal/proxy/proxy.go:2065-2102 | With buffers of n bytes that is the case if and only if n divides the number of those bytes |
| `AwsChunked.DecodersAgreeExactly` | internal/proxy/proxy.go:2108-2171 | The bodies that the two decoders describe are the same if and only if no negative chunk size is met; otherwise the streaming one ends in a panic and the batch one does not |
| `AwsChunked.DecodeBothWays` | internal/proxy/proxy.go:2065-2171 | Decoding in both ways, the second through buffers of any sizes, gives the same bytes and the same verdict (body, error or crash) if and only if no negative size is met and the body is not one that is truncated and ends in a clean EOF |
| `AwsChunked.NegativeSizePanics` | internal/proxy/proxy.go:2086-2088 | Any body that begins with the size -1 makes the streaming reader panic and the batch decoder not |
| `AwsChunked.CutShortIsTruncated` | internal/proxy/proxy.go:2142-2194 | Cutting a complete body short anywhere makes it a truncated one whose bytes are the first bytes of the whole |
| `AwsEncoding.CutInsideChunk` | internal/proxy/proxy.go:2086-2091 | A body cut k bytes into a chunk is truncated, with exactly those k bytes, so that any buffer size dividing k makes it look complete |
| `AwsEncoding.DecodersInvertEncoder` | internal/proxy/proxy.go:2142-2194 | Both decoders invert the chunk encoder for any split of the payload, any spelling of the sizes, any chunk extensions, either line end, any trailers and anything behind the body |
| `AwsEncoding.OnlyEncodingsDecode` | internal/proxy/proxy.go:2108-2194 | Whatever the streaming reader reads to its end is such an encoding of the bytes it read |
| `AwsEncoding.DecodesExactly` | internal/proxy/proxy.go:2108-2194 | The streaming reader accepts a byte string, with these data and this rest, if and only if it is an encoding of the data followed by the rest |
| `AwsEncoding.NumeralIsHead` | internal/proxy/proxy.go:2114-2117 | Every size can be written in upper, lower or mixed case, with any extension and either line end |
| `Integers.DigitExactly` | internal/proxy/proxy.go:2114-2117 | In a base up to 16 the digits are the usual characters, in either case, and nothing else |
| `Integers.HexRoundTrip` | internal/proxy/proxy.go:2114-2117 | Hexadecimal numerals read back as the number written, in upper, lower or mixed case |
| `Integers.DecimalRoundTrip` | internal/cacheplan/range.go:134-149 | Decimal numerals read back as the number written |
| `Integers.SignParses` | internal/proxy/proxy.go:2114-2117 | A sign is accepted, and the number must fit in 64 bits |
| `RangeHeader.ClassifierIsExact` | internal/s3request/classify.go:119-165 | The classifier accepts exactly the headers that write one well-formed range of section 14.1.2 of RFC 9110 with 64-bit positions, between optional white space |
| `RangeHeader.ParserMeetsStandard` | internal/cacheplan/range.go:21-69 | For every such header the parser returns exactly the bytes the standard selects, and fails exactly when it selects none |
| `RangeHeader.AcceptedHeadersParse` | internal/cacheplan/range.go:21-69 | An accepted header fails to parse if and only if the object is empty, the first position is past its end, or the suffix length is zero |
| `RangeHeader.ParserIsLaxExactly` | internal/cacheplan/range.go:134-148 | A header that parses is accepted by the classifier if and only if no position carries a sign |
| `RangeHeader.SignedHeaderParses` | internal/cacheplan/range.go:134-148 | Concrete headers with signed positions that parse and that the classifier refuses |

## Left out

- SQLite, the file system and SHA-256: tables and files are maps, digests are injective functions, rendezvous scores are arbitrary; corruption, migration and checkpointing would add no property of the design.
- HTTP, signing, TLS, timeouts, JSON, metrics and logging: the network is a step that succeeds, fails, or loses its answer.
- Conditional requests and the choice of response status: branch by branch tests of single headers.
- The refetch after an object changed: it plans anew with a clamped range; each plan on its own is covered by the run results.
- Client write errors: a response that ends with an error has sent a prefix, and nothing more is claimed about it.
- PutPage, StorePage and ListPages: the proxy does not use them, and PutPage is not fenced.
- Worker shutdown and the timing of retries, touches and evictions.
- The upload spool, and the check of a decoded length against its header.
- CacheRuns.RunKeepsInv: generations are collected under the exact condition of CacheCollection.CollectionIsSafeExactly, which the code does not check.
- CacheRuns.StaleWriterNeverCommits: the generation of the object is not collected while the writer is open; a safe collection may let a writer of epoch 0 commit, and then its page is not older than the last advance.
- CacheRuns.FreshAfterInvalidation: does not promise that a newer page row survives, because a reader of an older version may delete it; that costs a miss only.
- CacheStore.Cache.Evict: calls run one at a time and every file removal succeeds; interleaved removals are steps of CacheMachine, where counters are not modelled.
- PeerReadiness.ReadinessIsSound: peers do not collect generation rows; clears and restarts happen without doubt, which the code does not check at that moment.
- PeerReadiness.NothingIsForgotten: restarts lose nothing; the code may restart at any time.
- RetryQueue.PeerRetry.RetryPending: one round with nothing in between; rounds with broadcasts in between are runs of PeerReadiness.
- PageStreams.StreamColdFullObject: page writers always open and accept the data.
- PageStreams.BufferColdFullPage: the same.
- RangePlan.PagesForRange: with a page size of 1 the range ends below 2^63-1, as every range within an object does; otherwise the loop would never stop.
- EpochCatchUp.CatchUpEnds: distributed reads are not interleaved, upstream is quiet, and a refused epoch is the only failure.
- CacheProgress.GetCompletes: the steps are there to be taken; that a scheduler takes them is not said.
- FillCoalescing.OwnerFinishes: does not say that the scheduler ever runs the owner.
- DistributedRead.DistributedReadIsLocalRead: batches are opened before the first byte, and each honest owner serves the same version; the fallback to a local read is EpochCatchUp's subject.
- RangeHeader.ClassifierIsExact: only the Range value; the rest of request classification tests one header at a time.
