/** The in-memory byte counters and when they are exact. */
module SizeAccounting {
  import opened CacheIndex
  import opened Lru

  /** The counters equal the sums over the page rows; an absent bucket is zero. */
  ghost predicate Exact(pages: Pages, size: int, byBucket: map<string, int>) {
    && size == Total(pages)
    && forall b :: BucketExact(pages, byBucket, b)
  }

  ghost predicate BucketExact(pages: Pages, byBucket: map<string, int>, b: string) {
    BucketCount(byBucket, b) == Total(InBucket(pages, b))
  }

  function AdjustedSize(size: int, delta: int): int {
    if delta == 0 then size else if size + delta < 0 then 0 else size + delta
  }

  function BucketCount(byBucket: map<string, int>, bucket: string): int {
    if bucket in byBucket then byBucket[bucket] else 0
  }

  function AdjustedBuckets(byBucket: map<string, int>, bucket: string, delta: int): map<string, int> {
    if delta == 0 || bucket == "" then byBucket
    else
      var n := BucketCount(byBucket, bucket) + delta;
      if n <= 0 then byBucket - {bucket} else byBucket[bucket := n]
  }

  /** `pages'` differs from `pages` by `delta` bytes, all of them in `bucket`. */
  ghost predicate DiffersBy(pages: Pages, pages': Pages, bucket: string, delta: int) {
    && Total(pages') == Total(pages) + delta
    && Total(InBucket(pages', bucket)) == Total(InBucket(pages, bucket)) + delta
    && forall b :: b != bucket ==> InBucket(pages', b) == InBucket(pages, b)
  }

  /** One adjustment by the difference keeps the counters exact. */
  lemma AdjustKeepsExact(pages: Pages, pages': Pages, size: int, byBucket: map<string, int>, bucket: string, delta: int)
    requires Exact(pages, size, byBucket)
    requires DiffersBy(pages, pages', bucket, delta)
    requires bucket != ""
    ensures Exact(pages', AdjustedSize(size, delta), AdjustedBuckets(byBucket, bucket, delta))
  {
    var byBucket' := AdjustedBuckets(byBucket, bucket, delta);
    forall b
      ensures BucketExact(pages', byBucket', b)
    {
      assert BucketExact(pages, byBucket, b);
    }
  }

  /** Counting one more page row. */
  lemma CountKeepsExact(pages: Pages, k: PageKey, row: PageRow, size: int, byBucket: map<string, int>)
    requires Exact(pages, size, byBucket) && k !in pages
    ensures
      var b := k.id.bucket;
      Exact(pages[k := row], size + row.size, byBucket[b := BucketCount(byBucket, b) + row.size])
  {
    var pages', byBucket' := pages[k := row], byBucket[k.id.bucket := BucketCount(byBucket, k.id.bucket) + row.size];
    WithPage(pages, k, row);
    forall b
      ensures BucketExact(pages', byBucket', b)
    {
      assert BucketExact(pages, byBucket, b);
    }
  }

  lemma WithoutPage(pages: Pages, k: PageKey)
    requires k in pages
    ensures DiffersBy(pages, pages - {k}, k.id.bucket, -(pages[k].size as int))
  {
    var bucket := k.id.bucket;
    TotalWithout(pages, k);
    TotalWithout(InBucket(pages, bucket), k);
    assert InBucket(pages - {k}, bucket) == InBucket(pages, bucket) - {k};
  }

  lemma WithPage(pages: Pages, k: PageKey, row: PageRow)
    ensures DiffersBy(pages, pages[k := row], k.id.bucket, row.size - (if k in pages then pages[k].size else 0))
  {
    var bucket := k.id.bucket;
    TotalWith(pages, k, row);
    TotalWith(InBucket(pages, bucket), k, row);
    assert InBucket(pages[k := row], bucket) == InBucket(pages, bucket)[k := row];
  }

  lemma WithoutObject(pages: Pages, ks: set<PageKey>, id: ObjectId)
    requires ks <= pages.Keys
    requires forall k :: k in ks ==> k.id == id
    ensures DiffersBy(pages, pages - ks, id.bucket, -(Total(Only(pages, ks)) as int))
  {
    TotalSplit(pages, ks);
    TotalSplit(InBucket(pages, id.bucket), ks);
    assert Only(InBucket(pages, id.bucket), ks) == Only(pages, ks);
    assert InBucket(pages - ks, id.bucket) == InBucket(pages, id.bucket) - ks;
  }

  /** Touching a page changes no size. */
  lemma SameSizes(pages: Pages, k: PageKey, row: PageRow, size: int, byBucket: map<string, int>)
    requires Exact(pages, size, byBucket)
    requires k in pages && row.size == pages[k].size
    ensures Exact(pages[k := row], size, byBucket)
  {
    WithPage(pages, k, row);
    var pages' := pages[k := row];
    forall b
      ensures BucketExact(pages', byBucket, b)
    {
      assert BucketExact(pages, byBucket, b);
      assert b == k.id.bucket || InBucket(pages', b) == InBucket(pages, b);
    }
  }
}
