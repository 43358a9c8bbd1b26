/** The cache as the object that requests share: tables, page files and byte
    counters, changed in place. Each method is one call run without interference;
    what calls may do to each other in between is the step machine's matter. */
module CacheStore {
  import opened Results
  import opened CacheIndex
  import opened Lru
  import opened SizeAccounting
  import opened PageStreams

  const EVICTION_BATCH := 128

  datatype Opened = Miss | Hit(data: seq<byte>)

  /** The files behind a set of page rows. */
  function Paths(pages: Pages): set<PagePath> {
    set k | k in pages :: PathOf(k, pages[k])
  }

  /** `now` is what is left of `before`. */
  ghost predicate Within(now: Pages, before: Pages) {
    now.Keys <= before.Keys && forall k :: k in now ==> now[k] == before[k]
  }

  type Files = map<PagePath, seq<byte>>

  /** Some page rows are gone, and their files with them. */
  ghost predicate Removed(before: Pages, filesBefore: Files, now: Pages, files: Files) {
    Within(now, before) && files == filesBefore - Paths(before - now.Keys)
  }

  lemma RemovedNone(pages: Pages, files: Files)
    ensures Removed(pages, files, pages, files)
  {
    NothingRemoved(pages);
  }

  lemma RemovedOneMore(before: Pages, filesBefore: Files, now: Pages, files: Files, k: PageKey)
    requires Removed(before, filesBefore, now, files)
    requires k in now
    ensures Removed(before, filesBefore, now - {k}, files - {PathOf(k, now[k])})
  {
    PathOfOne(now, k);
    PathsCompose(before, now, now - {k});
  }

  lemma PathsCompose(before: Pages, mid: Pages, now: Pages)
    requires Within(mid, before) && Within(now, mid)
    ensures Within(now, before)
    ensures Paths(before - now.Keys) == Paths(before - mid.Keys) + Paths(mid - now.Keys)
  {
    forall p | p in Paths(before - mid.Keys) + Paths(mid - now.Keys)
      ensures p in Paths(before - now.Keys)
    {
      if p in Paths(before - mid.Keys) {
        var k :| k in before - mid.Keys && p == PathOf(k, before[k]);
        assert k in before - now.Keys;
      } else {
        var k :| k in mid - now.Keys && p == PathOf(k, mid[k]);
        assert k in before - now.Keys;
      }
    }
    forall p | p in Paths(before - now.Keys)
      ensures p in Paths(before - mid.Keys) + Paths(mid - now.Keys)
    {
      var k :| k in before - now.Keys && p == PathOf(k, before[k]);
      assert k in mid - now.Keys || k in before - mid.Keys;
    }
  }

  lemma PathOfOne(pages: Pages, k: PageKey)
    requires k in pages
    ensures Paths(pages - (pages - {k}).Keys) == {PathOf(k, pages[k])}
  {
    assert pages - (pages - {k}).Keys == map[k := pages[k]];
    assert k in map[k := pages[k]];
  }

  lemma NothingRemoved(pages: Pages)
    ensures Paths(pages - pages.Keys) == {}
  {
    assert pages - pages.Keys == map[];
  }

  lemma DoomedPages(pages: Pages, doomed: Pages, id: ObjectId)
    requires doomed == map k | k in pages && k.id == id :: pages[k]
    ensures pages - (pages - doomed.Keys).Keys == doomed
    ensures doomed.Keys == set k | k in pages && k.id == id
    ensures Only(pages, doomed.Keys) == doomed
  {
  }

  lemma DropKeepsExact(pages: Pages, doomed: Pages, id: ObjectId, size: int, byBucket: map<string, int>)
    requires Exact(pages, size, byBucket)
    requires id.bucket != ""
    requires doomed == map k | k in pages && k.id == id :: pages[k]
    ensures pages - (pages - doomed.Keys).Keys == doomed
    ensures doomed.Keys == set k | k in pages && k.id == id
    ensures
      var delta := -(Total(doomed) as int);
      Exact(pages - doomed.Keys, AdjustedSize(size, delta), AdjustedBuckets(byBucket, id.bucket, delta))
  {
    DoomedPages(pages, doomed, id);
    WithoutKeysExact(pages, doomed.Keys, id, Total(doomed), size, byBucket);
  }

  lemma WithoutKeysExact(pages: Pages, gone: set<PageKey>, id: ObjectId, total: nat, size: int,
        byBucket: map<string, int>)
    requires Exact(pages, size, byBucket) && id.bucket != ""
    requires gone <= pages.Keys && (forall k :: k in gone ==> k.id == id) && total == Total(Only(pages, gone))
    ensures
      var delta := -(total as int);
      Exact(pages - gone, AdjustedSize(size, delta), AdjustedBuckets(byBucket, id.bucket, delta))
  {
    WithoutObject(pages, gone, id);
    AdjustKeepsExact(pages, pages - gone, size, byBucket, id.bucket, -(total as int));
  }

  lemma RemoveKeepsExact(pages: Pages, k: PageKey, size: int, byBucket: map<string, int>)
    requires Exact(pages, size, byBucket)
    requires k in pages && k.id.bucket != ""
    ensures
      var delta := -(pages[k].size as int);
      && Exact(pages - {k}, AdjustedSize(size, delta), AdjustedBuckets(byBucket, k.id.bucket, delta))
      && AdjustedSize(size, delta) == size + delta
  {
    WithoutPage(pages, k);
    AdjustKeepsExact(pages, pages - {k}, size, byBucket, k.id.bucket, -(pages[k].size as int));
    TotalWithout(pages, k);
  }

  lemma PutKeepsExact(pages: Pages, k: PageKey, row: PageRow, size: int, byBucket: map<string, int>)
    requires Exact(pages, size, byBucket)
    requires k.id.bucket != ""
    ensures
      var delta := row.size - (if k in pages then pages[k].size else 0);
      Exact(pages[k := row], AdjustedSize(size, delta), AdjustedBuckets(byBucket, k.id.bucket, delta))
  {
    WithPage(pages, k, row);
    AdjustKeepsExact(pages, pages[k := row], size, byBucket, k.id.bucket,
      row.size - (if k in pages then pages[k].size else 0));
  }

  lemma NoPagesOf(x: Index)
    ensures forall id :: x.PagesOf(id) == {} <==> forall k :: k in x.pages ==> k.id != id
  {
    forall id, k | k in x.pages && k.id == id
      ensures k in x.PagesOf(id)
    {
    }
  }

  lemma CollectKeepsFence(x: Index, empty: set<ObjectId>, unused: set<ObjectId>)
    requires Fenced(x)
    requires forall id, k :: id in empty && k in x.pages ==> k.id != id
    requires forall id :: id in unused ==> id !in x.objects - empty
    ensures Fenced(Index(x.generations - unused, x.objects - empty, x.pages))
  {
    var y := Index(x.generations - unused, x.objects - empty, x.pages);
    assert forall id :: id in y.objects ==> y.Gen(id) == x.Gen(id);
  }

  lemma InsertKeepsFence(x: Index, k: PageKey, row: PageRow)
    requires Fenced(x)
    requires k.id in x.objects && row.epoch == x.Gen(k.id)
    ensures Fenced(x.(pages := x.pages[k := row]))
  {
  }

  lemma OldestFirstStep(digest: Digest, rest: Pages, n: nat, k: PageKey, batch: seq<PageKey>)
    requires Injective(digest)
    requires rest != map[] && n > 0
    requires k == Oldest(digest, rest)
    ensures batch + OldestFirst(digest, rest, n) == batch + [k] + OldestFirst(digest, rest - {k}, n - 1)
  {
  }

  function Touched(pages: Pages, ks: set<PageKey>, at: int): Pages {
    map k | k in pages :: if k in ks then pages[k].(accessedAt := at) else pages[k]
  }

  lemma TouchOneMore(before: Pages, pending: set<PageKey>, todo: set<PageKey>, k: PageKey, at: int)
    requires k in todo && todo <= pending
    ensures
      var pages := Touched(before, pending - todo, at);
      Touched(before, pending - (todo - {k}), at) ==
      if k in pages then pages[k := pages[k].(accessedAt := at)] else pages
  {
  }

  lemma TouchedKeepsFence(x: Index, pages: Pages)
    requires Fenced(x)
    requires pages.Keys == x.pages.Keys
    requires forall k :: k in pages ==> pages[k].epoch == x.pages[k].epoch
    ensures Fenced(x.(pages := pages))
  {
  }

  class Cache {
    const digest: Digest
    const maxSize: nat
    const maxSizeByBucket: map<string, nat>
    var generations: map<ObjectId, nat>
    var objects: map<ObjectId, ObjectRow>
    var pages: Pages
    var files: Files
    var cachedSize: int
    var cachedByBucket: map<string, int>
    var lastTimestamp: int

    function View(): Index
      reads this
    {
      Index(generations, objects, pages)
    }

    ghost predicate Valid()
      reads this
    {
      && Injective(digest)
      && (forall id :: id in objects ==> id.bucket != "")
      && Fenced(View())
      && Exact(pages, cachedSize, cachedByBucket)
    }

    /** Opens what an earlier process left, or nothing, and counts its bytes. */
    constructor (digest: Digest, maxSize: nat, maxSizeByBucket: map<string, nat>, kept: Index, keptFiles: Files)
      requires Injective(digest)
      requires Fenced(kept) && forall id :: id in kept.objects ==> id.bucket != ""
      ensures Valid()
      ensures View() == kept && files == keptFiles
      ensures this.digest == digest && this.maxSize == maxSize && this.maxSizeByBucket == maxSizeByBucket
    {
      this.digest, this.maxSize, this.maxSizeByBucket := digest, maxSize, maxSizeByBucket;
      generations, objects, pages, files := kept.generations, kept.objects, kept.pages, keptFiles;
      lastTimestamp := 0;
      new;
      cachedSize, cachedByBucket := ReadCacheSize();
    }

    /** The sum over all rows, and the sum for each bucket that has rows. */
    method ReadCacheSize() returns (total: int, byBucket: map<string, int>)
      ensures Exact(pages, total, byBucket)
      ensures forall b :: b in byBucket <==> exists k :: k in pages && k.id.bucket == b
    {
      total, byBucket := 0, map[];
      var todo := pages.Keys;
      ghost var counted: Pages := map[];
      assert forall b :: InBucket(counted, b) == map[];
      while todo != {}
        invariant todo <= pages.Keys && counted == map k | k in pages && k !in todo :: pages[k]
        invariant Exact(counted, total, byBucket)
        invariant forall b :: b in byBucket <==> exists k :: k in counted && k.id.bucket == b
      {
        var k :| k in todo;
        var size, bucket := pages[k].size, k.id.bucket;
        CountKeepsExact(counted, k, pages[k], total, byBucket);
        total, byBucket := total + size, byBucket[bucket := BucketCount(byBucket, bucket) + size];
        counted, todo := counted[k := pages[k]], todo - {k};
      }
      assert counted == pages;
    }

    /** Strictly increasing, and not behind the clock. */
    method Timestamp(now: int) returns (t: int)
      modifies this`lastTimestamp
      ensures t == lastTimestamp == if now > old(lastTimestamp) then now else old(lastTimestamp) + 1
    {
      t := now;
      if t <= lastTimestamp {
        t := lastTimestamp + 1;
      }
      lastTimestamp := t;
    }

    function PageBucket(id: ObjectId): string
      reads this
    {
      if id in objects then id.bucket else ""
    }

    method AdjustCacheSize(bucket: string, delta: int)
      modifies this`cachedSize, this`cachedByBucket
      ensures cachedSize == AdjustedSize(old(cachedSize), delta)
      ensures cachedByBucket == AdjustedBuckets(old(cachedByBucket), bucket, delta)
    {
      if delta == 0 {
        return;
      }
      cachedSize := cachedSize + delta;
      if cachedSize < 0 {
        cachedSize := 0;
      }
      if bucket != "" {
        cachedByBucket := cachedByBucket[bucket := BucketCount(cachedByBucket, bucket) + delta];
        if cachedByBucket[bucket] <= 0 {
          cachedByBucket := cachedByBucket - {bucket};
        }
      }
    }

    method GetObject(id: ObjectId) returns (row: Option<ObjectRow>)
      requires Valid()
      ensures row.Some? <==> id in objects
      ensures row.Some? ==> row.value == objects[id] && row.value.epoch <= View().Gen(id)
    {
      row := if id in objects then Some(objects[id]) else None;
    }

    method PutObject(id: ObjectId, etag: string, size: int, pageSize: int, internalIdentity: bool)
          returns (res: Result<ObjectRow>)
      requires Valid()
      modifies this`generations, this`objects
      ensures Valid()
      ensures res.Ok? <==> id.bucket != "" && id.key != "" && etag != "" && size >= 0 && pageSize > 0
      ensures res.Err? ==> View() == old(View())
      ensures res.Ok? ==>
                && View() == old(View()).PutObject(id, ObjectRow(etag, size, pageSize, internalIdentity, 0))
                && res.value == ObjectRow(etag, size, pageSize, internalIdentity, View().Gen(id))
                && objects == old(objects)[id := res.value] && pages == old(pages)
                && (forall i :: View().Gen(i) == old(View()).Gen(i))
    {
      if id.bucket == "" {
        return Err("bucket is required");
      }
      if id.key == "" {
        return Err("key is required");
      }
      if etag == "" {
        return Err("etag is required");
      }
      if size < 0 {
        return Err("object size must not be negative");
      }
      if pageSize <= 0 {
        return Err("page size must be greater than zero");
      }
      ghost var before := View();
      if id !in generations {
        generations := generations[id := 0];
      }
      EnsureGenerationKeepsFence(before, id);
      var row := ObjectRow(etag, size, pageSize, internalIdentity, generations[id]);
      UpsertKeepsFence(before.EnsureGeneration(id), id, row);
      objects := objects[id := row];
      res := Ok(row);
    }

    /** Drop the object, remember its next epoch, forget its pages' bytes. */
    method InvalidateObject(id: ObjectId, minEpoch: int) returns (res: Result<nat>)
      requires Valid()
      modifies this
      ensures Valid()
      ensures res.Ok? <==> id.bucket != "" && id.key != "" && minEpoch >= 0
      ensures res.Err? ==> View() == old(View()) && files == old(files)
      ensures res.Ok? ==>
                && View() == old(View()).Invalidate(id, minEpoch)
                && res.value == View().Gen(id)
                && files == old(files) - Paths(old(pages) - pages.Keys)
      ensures res.Ok? ==>
                && (id in objects <==> id in old(objects) && minEpoch > 0 && old(objects)[id].epoch > minEpoch)
                && (forall i :: i in objects ==> i in old(objects) && objects[i] == old(objects)[i])
                && (forall i :: i in old(objects) && i != id ==> i in objects)
                && (forall k :: k in pages <==> k in old(pages) && (k.id != id || id in objects))
                && (forall k :: k in pages ==> pages[k] == old(pages)[k])
                && (minEpoch == 0 ==> res.value == old(View()).Gen(id) + 1)
                && (0 < minEpoch <= old(View()).Gen(id) ==> res.value == old(View()).Gen(id))
                && (minEpoch > old(View()).Gen(id) ==> res.value == minEpoch)
                && (forall i :: i != id ==> View().Gen(i) == old(View()).Gen(i))
    {
      InvalidationExactly(View(), id, if minEpoch < 0 then 0 else minEpoch);
      if id.bucket == "" {
        return Err("bucket is required");
      }
      if id.key == "" {
        return Err("key is required");
      }
      if minEpoch < 0 {
        return Err("minimum epoch must not be negative");
      }
      InvalidateKeepsFence(View(), id, minEpoch);
      var current := if id in generations then generations[id] else 0;
      var next := if minEpoch == 0 then current + 1 else if current < minEpoch then minEpoch else current;
      var shouldDelete := id in objects && (minEpoch > 0 ==> objects[id].epoch <= minEpoch);
      generations := generations[id := next];
      if shouldDelete {
        RemoveObjectPages(id);
      } else {
        NothingRemoved(pages);
      }
      assert View() == old(View()).Invalidate(id, minEpoch);
      res := Ok(next);
    }

    /** Delete the object row with its page rows, their files and their bytes. */
    method RemoveObjectPages(id: ObjectId)
      requires Injective(digest) && Exact(pages, cachedSize, cachedByBucket)
      requires id.bucket != ""
      modifies this`objects, this`pages, this`files, this`cachedSize, this`cachedByBucket
      ensures objects == old(objects) - {id}
      ensures pages == old(pages) - old(View()).PagesOf(id)
      ensures files == old(files) - Paths(old(pages) - pages.Keys)
      ensures Exact(pages, cachedSize, cachedByBucket)
    {
      var doomed := map k | k in pages && k.id == id :: pages[k];
      DropKeepsExact(pages, doomed, id, cachedSize, cachedByBucket);
      var bytes := PagesSize(doomed);
      files := files - Paths(doomed);
      objects := objects - {id};
      pages := pages - doomed.Keys;
      AdjustCacheSize(id.bucket, -bytes);
    }

    method PagesSize(some: Pages) returns (size: int)
      ensures size == Total(some)
    {
      var rest := some;
      size := 0;
      while rest != map[]
        invariant size + Total(rest) == Total(some)
        decreases |rest|
      {
        var k :| k in rest;
        TotalWithout(rest, k);
        size := size + rest[k].size;
        rest := rest - {k};
      }
    }

    /** Delete one page row and its file. The row is the one just read. */
    method RemovePage(k: PageKey)
      requires Valid()
      requires k in pages
      modifies this`pages, this`files, this`cachedSize, this`cachedByBucket
      ensures Valid()
      ensures View() == old(View()).DeletePage(k)
      ensures pages == old(pages) - {k} && objects == old(objects) && generations == old(generations)
      ensures files == old(files) - {PathOf(k, old(pages[k]))}
      ensures cachedSize == old(cachedSize) - old(pages[k]).size
    {
      var row, bucket := pages[k], PageBucket(k.id);
      RemoveKeepsExact(pages, k, cachedSize, cachedByBucket);
      DeletePageKeepsFence(View(), k);
      pages := pages - {k};
      files := files - {PathOf(k, row)};
      AdjustCacheSize(bucket, -(row.size as int));
    }

    /** Serve a page of exactly this etag and epoch. A row of another version, a
        missing file and a file of the wrong length are removed, not served. */
    method OpenPage(id: ObjectId, index: nat, etag: string, epoch: nat) returns (o: Opened)
      requires Valid()
      modifies this`pages, this`files, this`cachedSize, this`cachedByBucket
      ensures Valid()
      ensures
        var k, path := PageKey(id, index), PagePath(id, index, etag, epoch);
        o.Hit? <==>
          && k in old(pages) && old(pages)[k].etag == etag && old(pages)[k].epoch == epoch
          && path in old(files) && |old(files)[path]| == old(pages)[k].size
      ensures o.Hit? ==> o.data == old(files)[PagePath(id, index, etag, epoch)]
      ensures o.Hit? || PageKey(id, index) !in old(pages) ==> View() == old(View()) && files == old(files)
      ensures o.Miss? ==> View() == old(View()).DeletePage(PageKey(id, index))
      ensures o.Miss? && PageKey(id, index) in old(pages) ==>
                files == old(files) - {PathOf(PageKey(id, index), old(pages)[PageKey(id, index)])}
    {
      var k := PageKey(id, index);
      if k !in pages {
        assert pages - {k} == pages;
        return Miss;
      }
      var row := pages[k];
      if row.etag != etag || row.epoch != epoch {
        RemovePage(k);
        return Miss;
      }
      var path := PathOf(k, row);
      if path !in files {
        RemovePage(k);
        return Miss;
      }
      if |files[path]| != row.size {
        RemovePage(k);
        return Miss;
      }
      o := Hit(files[path]);
    }

    /** Old object rows without pages, then old generation rows without object. */
    method CollectMetadata(oldObjects: set<ObjectId>, oldGenerations: set<ObjectId>)
      requires Valid()
      modifies this`objects, this`generations
      ensures Valid()
      ensures objects == map id | id in old(objects) && !(id in oldObjects && old(View()).PagesOf(id) == {}) ::
          old(objects)[id]
      ensures generations == map id | id in old(generations) && !(id in oldGenerations && id !in objects) ::
          old(generations)[id]
    {
      ghost var before := View();
      var empty := set id | id in objects && id in oldObjects && forall k :: k in pages ==> k.id != id;
      NoPagesOf(before);
      objects := objects - empty;
      var unused := set id | id in generations && id in oldGenerations && id !in objects;
      generations := generations - unused;
      CollectKeepsFence(before, empty, unused);
    }

    method TouchRow(k: PageKey, at: int)
      requires Valid()
      modifies this`pages
      ensures Valid()
      ensures pages == if k in old(pages) then old(pages)[k := old(pages)[k].(accessedAt := at)] else old(pages)
    {
      if k in pages {
        SameSizes(pages, k, pages[k].(accessedAt := at), cachedSize, cachedByBucket);
        pages := pages[k := pages[k].(accessedAt := at)];
        TouchedKeepsFence(old(View()), pages);
      }
    }

    method TouchRows(pending: set<PageKey>, at: int)
      requires Valid()
      modifies this`pages
      ensures Valid()
      ensures pages == Touched(old(pages), pending, at)
    {
      var todo := pending;
      ghost var before := pages;
      while todo != {}
        invariant Valid()
        invariant todo <= pending
        invariant pages == Touched(before, pending - todo, at)
        decreases todo
      {
        var k :| k in todo;
        TouchRow(k, at);
        TouchOneMore(before, pending, todo, k, at);
        todo := todo - {k};
      }
      assert pending - todo == pending;
    }

    method FlushTouches(pending: set<PageKey>, now: int)
      requires Valid()
      modifies this`pages, this`lastTimestamp
      ensures Valid()
      ensures pages.Keys == old(pages).Keys
      ensures forall k :: k in pages ==>
                pages[k] == if k in pending then old(pages)[k].(accessedAt := lastTimestamp) else old(pages)[k]
      ensures lastTimestamp > old(lastTimestamp)
      ensures Stamped(old(pages), old(lastTimestamp)) ==> Stamped(pages, lastTimestamp)
      ensures Stamped(old(pages) - pending, lastTimestamp - 1) ==> UsedLast(pages, pending)
    {
      var at := Timestamp(now);
      TouchedAreLast(pages, Touched(pages, pending, at), pending, at);
      TouchRows(pending, at);
    }

    // ---------------------------------------------------------------- eviction

    /** The eviction query: up to `limit` pages, oldest first. */
    method OldestPages(some: Pages, limit: nat) returns (batch: seq<PageKey>)
      requires Injective(digest)
      ensures batch == OldestFirst(digest, some, limit)
      ensures LeastRecentlyUsedFirst(some, batch, limit)
    {
      var rest := some;
      batch := [];
      while |batch| < limit && rest != map[]
        invariant |batch| <= limit
        invariant batch + OldestFirst(digest, rest, limit - |batch|) == OldestFirst(digest, some, limit)
        decreases |rest|
      {
        OldestExists(digest, rest);
        var k :| k in rest && IsOldest(digest, rest, k);
        OldestIsUnique(digest, rest, k);
        OldestFirstStep(digest, rest, limit - |batch|, k, batch);
        batch := batch + [k];
        rest := rest - {k};
      }
      assert batch == OldestFirst(digest, some, limit);
      BatchIsLru(digest, some, limit);
    }

    function ScopeSize(bucket: Option<string>): int
      reads this
    {
      match bucket
      case None => cachedSize
      case Some(b) => BucketCount(cachedByBucket, b)
    }

    lemma ScopeSizeIsExact(bucket: Option<string>)
      requires Valid()
      ensures ScopeSize(bucket) == Total(Scope(pages, bucket))
    {
      assert bucket.Some? ==> BucketExact(pages, cachedByBucket, bucket.value);
    }

    /** Remove the oldest page of a scope that is over its limit. */
    method RemoveOldest(k: PageKey, bucket: Option<string>, ghost cap: nat, ghost before: Pages,
          ghost filesBefore: Files)
      requires Valid()
      requires Total(Scope(pages, bucket)) > cap
      requires k == Oldest(digest, Scope(pages, bucket))
      requires Removed(before, filesBefore, pages, files)
      modifies this`pages, this`files, this`cachedSize, this`cachedByBucket
      ensures Valid()
      ensures k in old(pages) && |pages| == |old(pages)| - 1
      ensures Scope(pages, bucket) == Scope(old(pages), bucket) - {k}
      ensures Total(Scope(old(pages), bucket)) == old(pages)[k].size + Total(Scope(pages, bucket))
      ensures EvictScope(digest, pages, bucket, cap) == EvictScope(digest, old(pages), bucket, cap)
      ensures Removed(before, filesBefore, pages, files)
    {
      EvictScopeStep(digest, pages, bucket, cap);
      ScopeStep(digest, pages, bucket, k);
      RemovedOneMore(before, filesBefore, pages, files, k);
      RemovePage(k);
    }

    /** Remove the first page of what is left of a batch. */
    method RemoveFirst(batch: seq<PageKey>, ghost n: nat, bucket: Option<string>, ghost cap: nat,
          ghost before: Pages, ghost filesBefore: Files)
      returns (freed: nat, rest: seq<PageKey>, ghost m: nat, ghost scope: Pages)
      requires Valid()
      requires Total(Scope(pages, bucket)) > cap
      requires IsBatch(digest, batch, Scope(pages, bucket), n) && |batch| > 0
      requires Removed(before, filesBefore, pages, files)
      modifies this`pages, this`files, this`cachedSize, this`cachedByBucket
      ensures Valid()
      ensures n == m + 1 && |pages| == |old(pages)| - 1
      ensures scope == Scope(pages, bucket)
      ensures IsBatch(digest, rest, scope, m) && |rest| < |batch|
      ensures Total(Scope(old(pages), bucket)) == freed + Total(scope)
      ensures EvictScope(digest, pages, bucket, cap) == EvictScope(digest, old(pages), bucket, cap)
      ensures Removed(before, filesBefore, pages, files)
    {
      ghost var tail;
      tail, m, scope := BatchHead(digest, Scope(pages, bucket), n, batch);
      freed, rest := pages[batch[0]].size, batch[1..];
      RemoveOldest(batch[0], bucket, cap, before, filesBefore);
    }

    /** Remove the batch from its oldest page on, until `target` bytes are gone. */
    method RemoveBatch(batch: seq<PageKey>, target: int, bucket: Option<string>, ghost limit: nat, ghost cap: nat,
                       ghost before: Pages, ghost filesBefore: Files)
      requires Valid()
      requires 0 < limit
      requires batch == OldestFirst(digest, Scope(pages, bucket), limit)
      requires target == Total(Scope(pages, bucket)) - cap > 0
      requires Removed(before, filesBefore, pages, files)
      modifies this`pages, this`files, this`cachedSize, this`cachedByBucket
      ensures Valid()
      ensures |pages| < |old(pages)|
      ensures EvictScope(digest, pages, bucket, cap) == EvictScope(digest, old(pages), bucket, cap)
      ensures Removed(before, filesBefore, pages, files)
    {
      var removed, todo := 0, batch;
      ghost var n: nat, scope := limit, Scope(pages, bucket);
      while |todo| > 0 && removed < target
        invariant Valid()
        invariant n <= limit && scope == Scope(pages, bucket) && IsBatch(digest, todo, scope, n)
        invariant removed + Total(scope) == target + cap
        invariant |pages| + limit == |old(pages)| + n
        invariant n == limit ==> removed == 0
        invariant EvictScope(digest, pages, bucket, cap) == EvictScope(digest, old(pages), bucket, cap)
        invariant Removed(before, filesBefore, pages, files)
        decreases |todo|
      {
        var freed;
        freed, todo, n, scope := RemoveFirst(todo, n, bucket, cap, before, filesBefore);
        removed := removed + freed;
      }
    }

    /** Bring one bucket, or the whole cache, under its limit. */
    method EvictDown(bucket: Option<string>, cap: nat, ghost before: Pages, ghost filesBefore: Files)
      requires Valid()
      requires Removed(before, filesBefore, pages, files)
      modifies this`pages, this`files, this`cachedSize, this`cachedByBucket
      ensures Valid()
      ensures pages == EvictScope(digest, old(pages), bucket, cap)
      ensures Removed(before, filesBefore, pages, files)
    {
      while true
        invariant Valid()
        invariant EvictScope(digest, pages, bucket, cap) == EvictScope(digest, old(pages), bucket, cap)
        invariant Removed(before, filesBefore, pages, files)
        decreases |pages|
      {
        ScopeSizeIsExact(bucket);
        var size := ScopeSize(bucket);
        if size <= cap {
          return;
        }
        var batch := OldestPages(Scope(pages, bucket), EVICTION_BATCH);
        RemoveBatch(batch, size - cap, bucket, EVICTION_BATCH, cap, before, filesBefore);
      }
    }

    method EvictBuckets()
      requires Valid()
      modifies this`pages, this`files, this`cachedSize, this`cachedByBucket
      ensures Valid()
      ensures pages == AfterBuckets(digest, old(pages), maxSizeByBucket)
      ensures forall b :: b in maxSizeByBucket ==>
                LeastRecentlyUsedGo(InBucket(old(pages), b), InBucket(pages, b), maxSizeByBucket[b])
      ensures forall k :: k in old(pages) && k.id.bucket !in maxSizeByBucket ==> k in pages
      ensures Removed(old(pages), old(files), pages, files)
    {
      forall b | b in maxSizeByBucket
        ensures
          var mid := AfterBuckets(digest, pages, maxSizeByBucket);
          LeastRecentlyUsedGo(InBucket(pages, b), InBucket(mid, b), maxSizeByBucket[b])
      {
        BucketPhaseIsLru(digest, pages, maxSizeByBucket, b);
      }
      var todo := maxSizeByBucket.Keys;
      assert maxSizeByBucket - todo == map[];
      RemovedNone(pages, files);
      while todo != {}
        invariant todo <= maxSizeByBucket.Keys
        invariant Valid()
        invariant pages == AfterBuckets(digest, old(pages), maxSizeByBucket - todo)
        invariant Removed(old(pages), old(files), pages, files)
        decreases todo
      {
        var b :| b in todo;
        BucketDone(digest, old(pages), maxSizeByBucket, todo, b);
        EvictDown(Some(b), maxSizeByBucket[b], old(pages), old(files));
        todo := todo - {b};
      }
      assert maxSizeByBucket - todo == maxSizeByBucket;
    }

    /** Every capped bucket first, then the whole cache. In batches, but with the
        result of removing one oldest page at a time. */
    method Evict()
      requires Valid()
      modifies this`pages, this`files, this`cachedSize, this`cachedByBucket
      ensures Valid()
      ensures pages == EvictLru(digest, AfterBuckets(digest, old(pages), maxSizeByBucket), maxSize)
      ensures LeastRecentlyUsedGo(AfterBuckets(digest, old(pages), maxSizeByBucket), pages, maxSize)
      ensures forall b :: b in maxSizeByBucket ==>
                && LeastRecentlyUsedGo(InBucket(old(pages), b),
                     InBucket(AfterBuckets(digest, old(pages), maxSizeByBucket), b), maxSizeByBucket[b])
                && Total(InBucket(pages, b)) <= maxSizeByBucket[b]
      ensures files == old(files) - Paths(old(pages) - pages.Keys)
    {
      EvictionIsLru(digest, AfterBuckets(digest, pages, maxSizeByBucket), maxSize);
      forall b | b in maxSizeByBucket
        ensures
          var mid := AfterBuckets(digest, pages, maxSizeByBucket);
          && LeastRecentlyUsedGo(InBucket(pages, b), InBucket(mid, b), maxSizeByBucket[b])
          && Total(InBucket(EvictLru(digest, mid, maxSize), b)) <= maxSizeByBucket[b]
      {
        BucketPhaseIsLru(digest, pages, maxSizeByBucket, b);
        EvictionFits(digest, pages, maxSizeByBucket, maxSize, b);
      }
      EvictBuckets();
      EvictWhole(digest, pages, maxSize);
      EvictDown(None, maxSize, old(pages), old(files));
    }

    // ------------------------------------------------------------- page commits

    /** A writer opens only for the current version and epoch of an object. */
    method BeginPageWrite(id: ObjectId, index: int, etag: string, epoch: nat) returns (res: Result<PageWriter>)
      requires Valid()
      ensures res.Ok? <==>
                && index >= 0 && etag != ""
                && id in objects && objects[id].etag == etag
                && id in generations && generations[id] == epoch
      ensures res.Ok? ==>
                && fresh(res.value) && res.value.cache == this && res.value.k == PageKey(id, index)
                && res.value.etag == etag && res.value.epoch == epoch && res.value.bucket == id.bucket
                && res.value.tmp == [] && !res.value.done
    {
      if index < 0 {
        return Err("page index must not be negative");
      }
      if etag == "" {
        return Err("etag is required");
      }
      if id !in objects || id !in generations {
        return Err("object metadata is not current");
      }
      if generations[id] != epoch {
        return Err("object epoch changed");
      }
      if objects[id].etag != etag {
        return Err("object etag changed");
      }
      var writer := new PageWriter(this, PageKey(id, index), etag, epoch, PageBucket(id));
      res := Ok(writer);
    }

    /** Insert the row if the object is still of this version and epoch. */
    method PutPageIfCurrent(k: PageKey, etag: string, epoch: nat, size: nat, clock: int) returns (res: Result<PageRow>)
      requires Valid()
      modifies this`pages, this`lastTimestamp, this`cachedSize, this`cachedByBucket
      ensures Valid()
      ensures res.Ok? <==>
                && k.id in objects && objects[k.id].etag == etag
                && k.id in generations && generations[k.id] == epoch
      ensures res.Ok? ==> View() == old(View()).PutPage(k, etag, epoch, size, lastTimestamp)
      ensures res.Ok? ==>
                && pages == old(pages)[k := res.value]
                && res.value.etag == etag && res.value.epoch == epoch && res.value.size == size
                && res.value.accessedAt == lastTimestamp > old(lastTimestamp) && lastTimestamp >= clock
                && res.value.createdAt == (if k in old(pages) then old(pages)[k].createdAt else lastTimestamp)
      ensures res.Ok? ==> (UsedLast(pages, {k}) <==> Stamped(old(pages) - {k}, lastTimestamp - 1))
      ensures Stamped(old(pages), old(lastTimestamp)) ==> Stamped(pages, lastTimestamp)
      ensures res.Err? ==> View() == old(View())
    {
      if k.id !in objects || k.id !in generations {
        return Err("object metadata is not current");
      }
      if generations[k.id] != epoch {
        return Err("object epoch changed");
      }
      if objects[k.id].etag != etag {
        return Err("object etag changed");
      }
      var now := Timestamp(clock);
      var created := if k in pages then pages[k].createdAt else now;
      var row := PageRow(etag, epoch, size, created, now);
      TouchedAreLast(pages, pages[k := row], {k}, now);
      InsertPage(k, row);
      res := Ok(row);
    }

    method InsertPage(k: PageKey, row: PageRow)
      requires Valid()
      requires k.id in objects && row.epoch == View().Gen(k.id)
      modifies this`pages, this`cachedSize, this`cachedByBucket
      ensures Valid()
      ensures pages == old(pages)[k := row]
    {
      var previousSize := if k in pages then pages[k].size else 0;
      PutKeepsExact(pages, k, row, cachedSize, cachedByBucket);
      InsertKeepsFence(View(), k, row);
      pages := pages[k := row];
      AdjustCacheSize(PageBucket(k.id), row.size - previousSize);
    }
  }

  /** A page on its way into the cache: a temporary file until it is committed. */
  class PageWriter {
    const cache: Cache
    const k: PageKey
    const etag: string
    const epoch: nat
    const bucket: string
    var tmp: seq<byte>
    var done: bool

    constructor (cache: Cache, k: PageKey, etag: string, epoch: nat, bucket: string)
      ensures this.cache == cache && this.k == k && this.etag == etag && this.epoch == epoch && this.bucket == bucket
      ensures tmp == [] && !done
    {
      this.cache, this.k, this.etag, this.epoch, this.bucket := cache, k, etag, epoch, bucket;
      tmp, done := [], false;
    }

    /** No page may be larger than the cache, or than its bucket's cap. */
    method Write(data: seq<byte>) returns (res: Result<nat>)
      modifies this`tmp
      ensures res.Ok? <==>
                && !done && |old(tmp)| + |data| <= cache.maxSize
                && (bucket in cache.maxSizeByBucket && cache.maxSizeByBucket[bucket] > 0 ==>
                      |old(tmp)| + |data| <= cache.maxSizeByBucket[bucket])
      ensures tmp == if res.Ok? then old(tmp) + data else old(tmp)
      ensures res.Ok? ==> res.value == |data|
    {
      if done {
        return Err("page writer is closed");
      }
      if |data| > cache.maxSize - |tmp| {
        return Err("page size exceeds cache max size");
      }
      var cap := if bucket in cache.maxSizeByBucket then cache.maxSizeByBucket[bucket] else 0;
      if cap > 0 && |data| > cap - |tmp| {
        return Err("page size exceeds cache max size for bucket");
      }
      tmp := tmp + data;
      res := Ok(|data|);
    }

    /** Rename the file into place, then insert its row under the fence. A lost
        commit removes whatever file is at that path. */
    method Commit(clock: int) returns (res: Result<PageRow>)
      requires cache.Valid()
      modifies this`done, cache`files, cache`pages, cache`lastTimestamp, cache`cachedSize, cache`cachedByBucket
      ensures cache.Valid() && done
      ensures res.Ok? <==>
                && !old(done)
                && k.id in cache.objects && cache.objects[k.id].etag == etag
                && k.id in cache.generations && cache.generations[k.id] == epoch
      ensures res.Ok? ==> cache.View() == old(cache.View()).PutPage(k, etag, epoch, |tmp|, cache.lastTimestamp)
      ensures res.Ok? ==>
                && cache.pages == old(cache.pages)[k := res.value]
                && res.value.etag == etag && res.value.epoch == epoch && res.value.size == |tmp|
                && cache.files == old(cache.files)[PagePath(k.id, k.index, etag, epoch) := tmp]
      ensures res.Err? ==>
                && cache.View() == old(cache.View())
                && cache.files == if old(done) then old(cache.files)
                    else old(cache.files) - {PagePath(k.id, k.index, etag, epoch)}
    {
      if done {
        return Err("page writer is closed");
      }
      done := true;
      var path := PagePath(k.id, k.index, etag, epoch);
      cache.files := cache.files[path := tmp];
      res := cache.PutPageIfCurrent(k, etag, epoch, |tmp|, clock);
      if res.Err? {
        cache.files := cache.files - {path};
      }
    }

    method Abort()
      modifies this`done
      ensures done
    {
      done := true;
    }
  }

  /** A page that was committed is served by OpenPage as long as nothing else
      happens to it. */
  method CommitThenOpen(writer: PageWriter, clock: int) returns (page: Opened)
    requires writer.cache.Valid() && !writer.done
    requires
      var c, id := writer.cache, writer.k.id;
      && id in c.objects && c.objects[id].etag == writer.etag
      && id in c.generations && c.generations[id] == writer.epoch
    modifies writer`done, writer.cache
    ensures writer.cache.Valid()
    ensures page == Hit(old(writer.tmp))
  {
    var _ := writer.Commit(clock);
    page := writer.cache.OpenPage(writer.k.id, writer.k.index, writer.etag, writer.epoch);
  }
}
