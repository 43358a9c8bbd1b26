/** Page sizes, the order of eviction, and one-page-at-a-time LRU eviction. */
module Lru {
  import opened Results
  import opened CacheIndex

  type Pages = map<PageKey, PageRow>

  // -------------------------------------------------------------------- totals

  ghost function Total(pages: Pages): nat {
    if pages == map[] then 0
    else
      var k :| k in pages;
      pages[k].size + Total(pages - {k})
  }

  /** The total does not depend on the order of summation. */
  lemma {:induction false} TotalWithout(pages: Pages, k: PageKey)
    requires k in pages
    ensures Total(pages) == pages[k].size + Total(pages - {k})
    decreases |pages|
  {
    var j :| j in pages && Total(pages) == pages[j].size + Total(pages - {j});
    if j != k {
      TotalWithout(pages - {j}, k);
      TotalWithout(pages - {k}, j);
      assert pages - {j} - {k} == pages - {k} - {j};
    }
  }

  lemma TotalWith(pages: Pages, k: PageKey, row: PageRow)
    ensures Total(pages[k := row]) == Total(pages - {k}) + row.size
    ensures k in pages ==> Total(pages[k := row]) == Total(pages) - pages[k].size + row.size
    ensures k !in pages ==> Total(pages[k := row]) == Total(pages) + row.size
  {
    TotalWithout(pages[k := row], k);
    assert pages[k := row] - {k} == pages - {k};
    if k in pages {
      TotalWithout(pages, k);
    } else {
      assert pages - {k} == pages;
    }
  }

  lemma {:induction false} TotalSplit(pages: Pages, ks: set<PageKey>)
    requires ks <= pages.Keys
    ensures Total(pages) == Total(Only(pages, ks)) + Total(pages - ks)
    decreases |ks|
  {
    if ks == {} {
      assert pages - ks == pages;
      assert Only(pages, ks) == map[];
    } else {
      var k :| k in ks;
      TotalWithout(pages, k);
      TotalSplit(pages - {k}, ks - {k});
      assert pages - {k} - (ks - {k}) == pages - ks;
      TotalWithout(Only(pages, ks), k);
      assert Only(pages, ks) - {k} == Only(pages - {k}, ks - {k});
    }
  }

  function Only(pages: Pages, ks: set<PageKey>): Pages {
    map k | k in pages && k in ks :: pages[k]
  }

  /** The pages of one bucket. */
  function InBucket(pages: Pages, bucket: string): Pages {
    map k | k in pages && k.id.bucket == bucket :: pages[k]
  }

  // --------------------------------------------------------------------- order

  /** What the eviction query sorts by: last access, creation, object digest,
      page index. */
  datatype LruKey = LruKey(accessed: int, created: int, digest: nat, index: nat)

  predicate Before(a: LruKey, b: LruKey) {
    || a.accessed < b.accessed
    || (a.accessed == b.accessed && a.created < b.created)
    || (a.accessed == b.accessed && a.created == b.created && a.digest < b.digest)
    || (a.accessed == b.accessed && a.created == b.created && a.digest == b.digest && a.index < b.index)
  }

  type Digest = ObjectId -> nat

  ghost predicate Injective(digest: Digest) {
    forall a, b :: digest(a) == digest(b) ==> a == b
  }

  function LruKeyOf(digest: Digest, k: PageKey, row: PageRow): LruKey {
    LruKey(row.accessedAt, row.createdAt, digest(k.id), k.index)
  }

  predicate Older(digest: Digest, pages: Pages, a: PageKey, b: PageKey)
    requires a in pages && b in pages
  {
    Before(LruKeyOf(digest, a, pages[a]), LruKeyOf(digest, b, pages[b]))
  }

  predicate IsOldest(digest: Digest, pages: Pages, k: PageKey) {
    k in pages && forall j :: j in pages && j != k ==> Older(digest, pages, k, j)
  }

  lemma {:induction false} OldestExists(digest: Digest, pages: Pages)
    requires Injective(digest)
    requires pages != map[]
    ensures exists k :: IsOldest(digest, pages, k)
    decreases |pages|
  {
    var k :| k in pages;
    var rest := pages - {k};
    if rest == map[] {
      assert forall j :: j in pages && j != k ==> j in rest;
      assert IsOldest(digest, pages, k);
    } else {
      OldestExists(digest, rest);
      var m :| IsOldest(digest, rest, m);
      assert digest(k.id) == digest(m.id) ==> k.id == m.id;
      if Older(digest, pages, m, k) {
        forall j | j in pages && j != m
          ensures Older(digest, pages, m, j)
        {
          assert j == k || (j in rest && Older(digest, rest, m, j));
        }
        assert IsOldest(digest, pages, m);
      } else {
        forall j | j in pages && j != k
          ensures Older(digest, pages, k, j)
        {
          assert j in rest && (j == m || Older(digest, rest, m, j));
        }
        assert IsOldest(digest, pages, k);
      }
    }
  }

  ghost function Oldest(digest: Digest, pages: Pages): (k: PageKey)
    requires Injective(digest)
    requires pages != map[]
    ensures IsOldest(digest, pages, k)
  {
    OldestExists(digest, pages);
    var k :| IsOldest(digest, pages, k);
    k
  }

  lemma OldestIsUnique(digest: Digest, pages: Pages, k: PageKey)
    requires Injective(digest)
    requires IsOldest(digest, pages, k)
    ensures k == Oldest(digest, pages)
  {
    NotBothOlder(digest, pages, k, Oldest(digest, pages));
  }

  lemma NotBothOlder(digest: Digest, pages: Pages, a: PageKey, b: PageKey)
    requires a in pages && b in pages
    ensures !(Older(digest, pages, a, b) && Older(digest, pages, b, a))
  {
  }

  // ------------------------------------------------------ one page at a time

  /** Remove the oldest page until the total fits. */
  ghost function EvictLru(digest: Digest, pages: Pages, max: nat): Pages
    requires Injective(digest)
    decreases |pages|
  {
    if Total(pages) <= max then pages
    else EvictLru(digest, pages - {Oldest(digest, pages)}, max)
  }

  /** `kept` is what remains of `pages` when some number of oldest pages go. */
  ghost predicate IsSuffix(digest: Digest, pages: Pages, kept: Pages) {
    && kept.Keys <= pages.Keys
    && (forall k :: k in kept ==> kept[k] == pages[k])
    && (forall k, j :: k in kept && j in pages && Older(digest, pages, k, j) ==> j in kept)
  }

  /** Eviction keeps the largest part of the LRU order that fits: it removes the
      shortest sufficient prefix, and nothing else. */
  lemma {:induction false} EvictKeepsLargestSuffix(digest: Digest, pages: Pages, max: nat)
    requires Injective(digest)
    ensures Total(EvictLru(digest, pages, max)) <= max
    ensures IsSuffix(digest, pages, EvictLru(digest, pages, max))
    ensures forall q :: IsSuffix(digest, pages, q) && Total(q) <= max ==> q.Keys <= EvictLru(digest, pages, max).Keys
    decreases |pages|
  {
    if Total(pages) > max {
      var o := Oldest(digest, pages);
      var rest := pages - {o};
      EvictKeepsLargestSuffix(digest, rest, max);
      SuffixOfRest(digest, pages, o, EvictLru(digest, rest, max));
      forall q | IsSuffix(digest, pages, q) && Total(q) <= max
        ensures q.Keys <= EvictLru(digest, pages, max).Keys
      {
        SuffixWithoutOldest(digest, pages, o, q);
      }
    }
  }

  lemma SuffixOfRest(digest: Digest, pages: Pages, o: PageKey, kept: Pages)
    requires IsOldest(digest, pages, o)
    requires IsSuffix(digest, pages - {o}, kept)
    ensures IsSuffix(digest, pages, kept)
  {
    forall k, j | k in kept && j in pages && Older(digest, pages, k, j)
      ensures j in kept
    {
      NotBothOlder(digest, pages, o, k);
      assert Older(digest, pages - {o}, k, j);
    }
  }

  lemma SuffixWithoutOldest(digest: Digest, pages: Pages, o: PageKey, q: Pages)
    requires IsOldest(digest, pages, o)
    requires IsSuffix(digest, pages, q)
    ensures o in q ==> q == pages
    ensures o !in q ==> IsSuffix(digest, pages - {o}, q)
  {
    if o in q {
      forall j | j in pages
        ensures j in q
      {
        assert j == o || Older(digest, pages, o, j);
      }
      assert q.Keys == pages.Keys;
    } else {
      forall k, j | k in q && j in pages - {o} && Older(digest, pages - {o}, k, j)
        ensures j in q
      {
        assert Older(digest, pages, k, j);
      }
    }
  }

  /** A limit for each capped bucket: what remains, whatever order the buckets
      are visited in. */
  ghost function AfterBuckets(digest: Digest, pages: Pages, caps: map<string, nat>): Pages
    requires Injective(digest)
  {
    map k | k in pages && SurvivesBucket(digest, pages, caps, k) :: pages[k]
  }

  ghost predicate SurvivesBucket(digest: Digest, pages: Pages, caps: map<string, nat>, k: PageKey)
    requires Injective(digest)
  {
    k.id.bucket in caps ==> k in EvictLru(digest, InBucket(pages, k.id.bucket), caps[k.id.bucket])
  }

  /** The pages that a limit is about: one bucket's, or all. */
  function Scope(pages: Pages, bucket: Option<string>): Pages {
    match bucket
    case None => pages
    case Some(b) => InBucket(pages, b)
  }

  /** Evicting within a scope, one oldest page at a time, down to its limit. */
  ghost function EvictScope(digest: Digest, pages: Pages, bucket: Option<string>, cap: nat): Pages
    requires Injective(digest)
    decreases |pages|
  {
    if Total(Scope(pages, bucket)) <= cap then pages
    else
      var o := Oldest(digest, Scope(pages, bucket));
      assert o in pages;
      EvictScope(digest, pages - {o}, bucket, cap)
  }

  /** What LRU eviction of the scope alone removes. */
  ghost function RemovedFromScope(digest: Digest, pages: Pages, bucket: Option<string>, cap: nat): set<PageKey>
    requires Injective(digest)
  {
    Scope(pages, bucket).Keys - EvictLru(digest, Scope(pages, bucket), cap).Keys
  }

  lemma RemovedFirst(digest: Digest, pages: Pages, bucket: Option<string>, cap: nat, o: PageKey)
    requires Injective(digest)
    requires Total(Scope(pages, bucket)) > cap
    requires o == Oldest(digest, Scope(pages, bucket))
    ensures RemovedFromScope(digest, pages, bucket, cap) == {o} + RemovedFromScope(digest, pages - {o}, bucket, cap)
  {
    assert Scope(pages - {o}, bucket) == Scope(pages, bucket) - {o};
    EvictLruKeeps(digest, Scope(pages - {o}, bucket), cap);
  }

  lemma {:induction false} EvictScopeRemoves(digest: Digest, pages: Pages, bucket: Option<string>, cap: nat)
    requires Injective(digest)
    ensures EvictScope(digest, pages, bucket, cap) == pages - RemovedFromScope(digest, pages, bucket, cap)
    decreases |pages|
  {
    if Total(Scope(pages, bucket)) <= cap {
      assert RemovedFromScope(digest, pages, bucket, cap) == {};
      assert pages - {} == pages;
    } else {
      var o := Oldest(digest, Scope(pages, bucket));
      assert o in pages;
      EvictScopeRemoves(digest, pages - {o}, bucket, cap);
      RemovedFirst(digest, pages, bucket, cap, o);
      var rest, all := RemovedFromScope(digest, pages - {o}, bucket, cap), RemovedFromScope(digest, pages, bucket, cap);
      RemoveInTurn(pages, o, rest, all);
    }
  }

  lemma RemoveInTurn(pages: Pages, o: PageKey, rest: set<PageKey>, all: set<PageKey>)
    requires all == {o} + rest
    ensures pages - {o} - rest == pages - all
  {
  }

  lemma EvictWhole(digest: Digest, pages: Pages, max: nat)
    requires Injective(digest)
    ensures EvictScope(digest, pages, None, max) == EvictLru(digest, pages, max)
  {
    EvictScopeRemoves(digest, pages, None, max);
    EvictLruKeeps(digest, pages, max);
  }

  lemma {:induction false} EvictLruKeeps(digest: Digest, pages: Pages, max: nat)
    requires Injective(digest)
    ensures EvictLru(digest, pages, max).Keys <= pages.Keys
    ensures forall k :: k in EvictLru(digest, pages, max) ==> EvictLru(digest, pages, max)[k] == pages[k]
    decreases |pages|
  {
    if Total(pages) > max {
      EvictLruKeeps(digest, pages - {Oldest(digest, pages)}, max);
    }
  }

  lemma ScopeStep(digest: Digest, pages: Pages, bucket: Option<string>, o: PageKey)
    requires o in Scope(pages, bucket)
    ensures o in pages
    ensures Scope(pages - {o}, bucket) == Scope(pages, bucket) - {o}
    ensures Total(Scope(pages, bucket)) == pages[o].size + Total(Scope(pages - {o}, bucket))
  {
    assert Scope(pages - {o}, bucket) == Scope(pages, bucket) - {o};
    TotalWithout(Scope(pages, bucket), o);
  }

  /** Evicting from a scope over its limit starts with its oldest page. */
  lemma EvictScopeStep(digest: Digest, pages: Pages, bucket: Option<string>, cap: nat)
    requires Injective(digest) && Total(Scope(pages, bucket)) > cap
    ensures
      var o := Oldest(digest, Scope(pages, bucket));
      && o in pages && |pages - {o}| == |pages| - 1
      && EvictScope(digest, pages, bucket, cap) == EvictScope(digest, pages - {o}, bucket, cap)
  {
    var o := Oldest(digest, Scope(pages, bucket));
    assert o in Scope(pages, bucket);
    assert (pages - {o}).Keys == pages.Keys - {o};
  }

  /** Visiting one more bucket extends the set of buckets that are done. */
  lemma BucketDone(digest: Digest, pages: Pages, caps: map<string, nat>, todo: set<string>, bucket: string)
    requires Injective(digest)
    requires bucket in caps && bucket in todo
    ensures EvictScope(digest, AfterBuckets(digest, pages, caps - todo), Some(bucket), caps[bucket])
         == AfterBuckets(digest, pages, caps - (todo - {bucket}))
  {
    var before := AfterBuckets(digest, pages, caps - todo);
    assert InBucket(before, bucket) == InBucket(pages, bucket);
    EvictScopeRemoves(digest, before, Some(bucket), caps[bucket]);
    EvictLruKeeps(digest, InBucket(pages, bucket), caps[bucket]);
    forall k | k in pages
      ensures k in EvictScope(digest, before, Some(bucket), caps[bucket]) <==>
              SurvivesBucket(digest, pages, caps - (todo - {bucket}), k)
    {
      assert k in before <==> SurvivesBucket(digest, pages, caps - todo, k);
    }
  }

  /** Afterwards every capped bucket is within its cap, on its own LRU order. */
  lemma BucketsWithinCaps(digest: Digest, pages: Pages, caps: map<string, nat>, bucket: string)
    requires Injective(digest)
    ensures InBucket(AfterBuckets(digest, pages, caps), bucket) ==
            if bucket in caps then EvictLru(digest, InBucket(pages, bucket), caps[bucket]) else InBucket(pages, bucket)
    ensures bucket in caps ==> Total(InBucket(AfterBuckets(digest, pages, caps), bucket)) <= caps[bucket]
  {
    if bucket in caps {
      EvictLruKeeps(digest, InBucket(pages, bucket), caps[bucket]);
      EvictKeepsLargestSuffix(digest, InBucket(pages, bucket), caps[bucket]);
    }
  }

  lemma BucketShrinks(before: Pages, kept: Pages, bucket: string)
    requires kept.Keys <= before.Keys
    requires forall k :: k in kept ==> kept[k] == before[k]
    ensures Total(InBucket(kept, bucket)) <= Total(InBucket(before, bucket))
  {
    var ks := InBucket(kept, bucket).Keys;
    TotalSplit(InBucket(before, bucket), ks);
    assert Only(InBucket(before, bucket), ks) == InBucket(kept, bucket);
  }

  /** After both phases the whole cache and every capped bucket fit. */
  lemma EvictionFits(digest: Digest, pages: Pages, caps: map<string, nat>, max: nat, bucket: string)
    requires Injective(digest)
    ensures Total(EvictLru(digest, AfterBuckets(digest, pages, caps), max)) <= max
    ensures
      var left := EvictLru(digest, AfterBuckets(digest, pages, caps), max);
      bucket in caps ==> Total(InBucket(left, bucket)) <= caps[bucket]
  {
    var mid := AfterBuckets(digest, pages, caps);
    EvictKeepsLargestSuffix(digest, mid, max);
    EvictLruKeeps(digest, mid, max);
    BucketShrinks(mid, EvictLru(digest, mid, max), bucket);
    BucketsWithinCaps(digest, pages, caps, bucket);
  }

  // --------------------------------------------------------- in terms of access

  /** The rows that were used no earlier than `at`. */
  function UsedSince(pages: Pages, at: int): Pages {
    map k | k in pages && pages[k].accessedAt >= at :: pages[k]
  }

  /** Last used at the same time, `p` created first. */
  ghost predicate TiedButOlder(p: PageRow, q: PageRow) {
    p.accessedAt == q.accessedAt && p.createdAt < q.createdAt
  }

  /** `kept` fits and is left of `pages` when the least recently used go first, the
      earlier created of two that were used at the same time, and not one more
      than needed: with everything used since a row that is gone, it was too much. */
  ghost predicate LeastRecentlyUsedGo(pages: Pages, kept: Pages, max: nat) {
    && Total(kept) <= max
    && (forall k :: k in kept ==> k in pages && kept[k] == pages[k])
    && (forall k, j :: k in kept && j in pages && pages[k].accessedAt < pages[j].accessedAt ==> j in kept)
    && (forall k, j :: k in kept && j in pages && TiedButOlder(pages[k], pages[j]) ==> j in kept)
    && (forall j :: j in pages && j !in kept ==> Total(UsedSince(pages, pages[j].accessedAt)) > max)
  }

  /** A row and everything after it in the order of eviction. */
  function From(digest: Digest, pages: Pages, j: PageKey): Pages
    requires j in pages
  {
    map k | k in pages && (k == j || Older(digest, pages, j, k)) :: pages[k]
  }

  lemma FromIsSuffix(digest: Digest, pages: Pages, j: PageKey)
    requires j in pages
    ensures IsSuffix(digest, pages, From(digest, pages, j))
  {
  }

  lemma PartIsSmaller(pages: Pages, part: Pages)
    requires forall k :: k in part ==> k in pages && part[k] == pages[k]
    ensures Total(part) <= Total(pages)
  {
    TotalSplit(pages, part.Keys);
    assert Only(pages, part.Keys) == part;
  }

  lemma EvictedRowWasTooMuch(digest: Digest, pages: Pages, max: nat, j: PageKey)
    requires Injective(digest) && j in pages && j !in EvictLru(digest, pages, max)
    ensures Total(UsedSince(pages, pages[j].accessedAt)) > max
  {
    EvictKeepsLargestSuffix(digest, pages, max);
    FromIsSuffix(digest, pages, j);
    assert j in From(digest, pages, j);
    PartIsSmaller(UsedSince(pages, pages[j].accessedAt), From(digest, pages, j));
  }

  /** Eviction goes by last access, whatever the ties are broken by. */
  lemma EvictionIsLru(digest: Digest, pages: Pages, max: nat)
    requires Injective(digest)
    ensures LeastRecentlyUsedGo(pages, EvictLru(digest, pages, max), max)
  {
    var kept := EvictLru(digest, pages, max);
    EvictKeepsLargestSuffix(digest, pages, max);
    forall k, j | k in kept && j in pages
        && (pages[k].accessedAt < pages[j].accessedAt || TiedButOlder(pages[k], pages[j]))
      ensures j in kept
    {
      assert Older(digest, pages, k, j);
    }
    forall j | j in pages && j !in kept
      ensures Total(UsedSince(pages, pages[j].accessedAt)) > max
    {
      EvictedRowWasTooMuch(digest, pages, max, j);
    }
  }

  /** The same for each capped bucket on its own; other buckets keep everything. */
  lemma BucketPhaseIsLru(digest: Digest, pages: Pages, caps: map<string, nat>, bucket: string)
    requires Injective(digest)
    ensures
      var mid := AfterBuckets(digest, pages, caps);
      if bucket in caps then LeastRecentlyUsedGo(InBucket(pages, bucket), InBucket(mid, bucket), caps[bucket])
      else InBucket(mid, bucket) == InBucket(pages, bucket)
  {
    BucketsWithinCaps(digest, pages, caps, bucket);
    if bucket in caps {
      EvictionIsLru(digest, InBucket(pages, bucket), caps[bucket]);
    }
  }

  /** No row is ahead of the last timestamp given out. */
  ghost predicate Stamped(pages: Pages, last: int) {
    forall k :: k in pages ==> pages[k].accessedAt <= last
  }

  /** These rows were used after all others. */
  ghost predicate UsedLast(pages: Pages, ks: set<PageKey>) {
    forall k, j :: k in ks && k in pages && j in pages && j !in ks ==> pages[j].accessedAt < pages[k].accessedAt
  }

  /** Rows that take the timestamp `at` are last exactly if no other row is at or
      ahead of it, as a row left by an earlier process with a later clock can be. */
  lemma TouchedAreLast(before: Pages, after: Pages, ks: set<PageKey>, at: int)
    requires before.Keys - ks <= after.Keys
    requires forall k :: k in after && k in ks ==> after[k].accessedAt == at
    requires forall k :: k in after && k !in ks ==> k in before && after[k] == before[k]
    ensures Stamped(before - ks, at - 1) ==> UsedLast(after, ks)
    ensures UsedLast(after, ks) && ks * after.Keys != {} ==> Stamped(before - ks, at - 1)
    ensures forall last :: last < at && Stamped(before, last) ==> Stamped(after, at)
  {
    assert forall j :: j in after && j !in ks ==> j in before - ks;
    forall j | UsedLast(after, ks) && ks * after.Keys != {} && j in before - ks
      ensures before[j].accessedAt < at
    {
      var k :| k in ks * after.Keys;
      assert j in before.Keys - ks;
    }
  }

  lemma UsedLastIsAlone(pages: Pages, k: PageKey)
    requires k in pages && UsedLast(pages, {k})
    ensures Total(UsedSince(pages, pages[k].accessedAt)) == pages[k].size
  {
    var since := UsedSince(pages, pages[k].accessedAt);
    TotalWithout(since, k);
    assert since - {k} == map[];
  }

  /** The row used last stays, unless it is too large all by itself, and then
      nothing stays. */
  lemma LastUsedStays(pages: Pages, kept: Pages, max: nat, k: PageKey)
    requires LeastRecentlyUsedGo(pages, kept, max)
    requires k in pages && UsedLast(pages, {k})
    ensures pages[k].size <= max ==> k in kept
    ensures k !in kept ==> kept == map[]
  {
    UsedLastIsAlone(pages, k);
  }

  /** A page that was just stored or read outlives the whole eviction, as long as
      it fits in its bucket and in the cache. */
  lemma JustUsedSurvives(digest: Digest, pages: Pages, caps: map<string, nat>, max: nat, k: PageKey)
    requires Injective(digest)
    requires k in pages && UsedLast(pages, {k}) && pages[k].size <= max
    requires k.id.bucket in caps ==> pages[k].size <= caps[k.id.bucket]
    ensures k in EvictLru(digest, AfterBuckets(digest, pages, caps), max)
  {
    var mid := AfterBuckets(digest, pages, caps);
    var b := k.id.bucket;
    if b in caps {
      BucketPhaseIsLru(digest, pages, caps, b);
      LastUsedStays(InBucket(pages, b), InBucket(mid, b), caps[b], k);
    }
    EvictionIsLru(digest, mid, max);
    LastUsedStays(mid, EvictLru(digest, mid, max), max, k);
  }

  /** Otherwise it may go first: a row `j` left by an earlier process, with a
      later clock, outlives the row `k` that was just stored. */
  lemma RowAheadOutlives(digest: Digest, k: PageKey, j: PageKey, row: PageRow, ahead: PageRow)
    requires Injective(digest) && k != j && row.size == ahead.size == 1 && row.accessedAt < ahead.accessedAt
    ensures
      var kept := EvictLru(digest, map[k := row, j := ahead], 1);
      k !in kept && j in kept
  {
    var pages := map[k := row, j := ahead];
    var kept := EvictLru(digest, pages, 1);
    EvictionIsLru(digest, pages, 1);
    assert pages[k] == row;
    UsedLastIsAlone(pages, j);
    if k in kept {
      assert j in kept;
      TotalWithout(kept, k);
      TotalWithout(kept - {k}, j);
    }
  }

  // ---------------------------------------------------------- batched candidates

  /** The `n` oldest pages, oldest first. */
  ghost function OldestFirst(digest: Digest, pages: Pages, n: nat): seq<PageKey>
    requires Injective(digest)
    decreases n
  {
    if n == 0 || pages == map[] then []
    else
      var o := Oldest(digest, pages);
      [o] + OldestFirst(digest, pages - {o}, n - 1)
  }

  ghost predicate IsBatch(digest: Digest, batch: seq<PageKey>, pages: Pages, n: nat)
    requires Injective(digest)
  {
    batch == OldestFirst(digest, pages, n)
  }

  lemma BatchHead(digest: Digest, pages: Pages, n: nat, batch: seq<PageKey>)
    returns (rest: seq<PageKey>, m: nat, scope: Pages)
    requires Injective(digest)
    requires IsBatch(digest, batch, pages, n)
    requires |batch| > 0
    ensures pages != map[] && n == m + 1
    ensures batch[0] == Oldest(digest, pages)
    ensures rest == batch[1..] && scope == pages - {batch[0]} && IsBatch(digest, rest, scope, m)
  {
    rest, m, scope := batch[1..], n - 1, pages - {batch[0]};
  }

  /** No row of the batch was used before one that comes earlier in it. */
  ghost predicate InOrderOfUse(pages: Pages, batch: seq<PageKey>) {
    && (forall k :: k in batch ==> k in pages)
    && (forall i, j :: 0 <= i < j < |batch| ==>
          batch[i] != batch[j] && pages[batch[i]].accessedAt <= pages[batch[j]].accessedAt)
  }

  /** A batch is as long as it may be, in order of use, and no row that is left
      out was used before one that is in it. */
  ghost predicate LeastRecentlyUsedFirst(pages: Pages, batch: seq<PageKey>, n: nat) {
    && |batch| == (if |pages| < n then |pages| else n)
    && InOrderOfUse(pages, batch)
    && (forall k, j :: k in batch && j in pages && j !in batch ==> pages[k].accessedAt <= pages[j].accessedAt)
  }

  lemma EmptyBatch(pages: Pages, n: nat)
    requires n == 0 || pages == map[]
    ensures LeastRecentlyUsedFirst(pages, [], n)
  {
  }

  lemma OneFewer(pages: Pages, k: PageKey)
    requires k in pages
    ensures |pages - {k}| == |pages| - 1
  {
    assert (pages - {k}).Keys == pages.Keys - {k};
  }

  lemma {:induction false} BatchIsLru(digest: Digest, pages: Pages, n: nat)
    requires Injective(digest)
    ensures LeastRecentlyUsedFirst(pages, OldestFirst(digest, pages, n), n)
    decreases n
  {
    if n == 0 || pages == map[] {
      EmptyBatch(pages, n);
    } else {
      var o := Oldest(digest, pages);
      var rest := pages - {o};
      BatchIsLru(digest, rest, n - 1);
      OneFewer(pages, o);
      BatchGrows(digest, pages, o, rest, OldestFirst(digest, rest, n - 1), n);
    }
  }

  lemma BatchGrows(digest: Digest, pages: Pages, o: PageKey, rest: Pages, batch: seq<PageKey>, n: nat)
    requires IsOldest(digest, pages, o) && rest == pages - {o} && |rest| == |pages| - 1
    requires n > 0 && LeastRecentlyUsedFirst(rest, batch, n - 1)
    ensures LeastRecentlyUsedFirst(pages, [o] + batch, n)
  {
    var all := [o] + batch;
    assert forall k :: k in rest ==> Older(digest, pages, o, k);
    OrderGrows(pages, o, rest, batch);
    forall k, j | k in all && j in pages && j !in all
      ensures k in pages && pages[k].accessedAt <= pages[j].accessedAt
    {
      assert o in all && j in rest && j !in batch;
      assert k == o || k in batch;
    }
  }

  lemma OrderGrows(pages: Pages, o: PageKey, rest: Pages, batch: seq<PageKey>)
    requires o in pages && rest == pages - {o} && InOrderOfUse(rest, batch)
    requires forall k :: k in rest ==> pages[o].accessedAt <= pages[k].accessedAt
    ensures InOrderOfUse(pages, [o] + batch)
  {
    var all := [o] + batch;
    assert forall i :: 0 <= i < |all| ==> all[i] in all && (all[i] == o || all[i] in batch);
    forall i, j | 0 <= i < j < |all|
      ensures all[i] != all[j] && pages[all[i]].accessedAt <= pages[all[j]].accessedAt
    {
      assert all[j] == batch[j - 1] && batch[j - 1] in batch;
      if i > 0 {
        assert all[i] == batch[i - 1];
      }
    }
  }
}
