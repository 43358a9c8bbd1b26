/** What the cache can always do: metadata gets in, reads come to their end, and
    what was committed is served. Each lemma gives the steps that lead there. */
module CacheProgress {
  import opened RangePlan
  import opened PageStreams
  import opened CacheIndex
  import opened CacheMachine
  import opened CacheSafety
  import opened CacheRuns

  /** Steps to come: the next one, and the state that it leads to. */
  datatype Path = Stop | Go(a: Action, next: State, rest: Path)

  ghost predicate IsPath(s: State, p: Path)
    decreases p
  {
    p.Go? ==> Step(s, p.a, p.next) && IsPath(p.next, p.rest)
  }

  function EndOf(s: State, p: Path): State
    decreases p
  {
    if p.Stop? then s else EndOf(p.next, p.rest)
  }

  lemma {:induction false} PathKeepsInv(s: State, p: Path)
    requires Inv(s) && IsPath(s, p)
    ensures Inv(EndOf(s, p))
    decreases p
  {
    if p.Go? {
      StepKeepsInv(s, p.a, p.next);
      PathKeepsInv(p.next, p.rest);
    }
  }

  function Then(p: Path, q: Path): Path {
    if p.Stop? then q else Go(p.a, p.next, Then(p.rest, q))
  }

  lemma {:induction false} ThenIsPath(s: State, p: Path, q: Path)
    requires IsPath(s, p) && IsPath(EndOf(s, p), q)
    ensures IsPath(s, Then(p, q)) && EndOf(s, Then(p, q)) == EndOf(EndOf(s, p), q)
    decreases p
  {
    if p.Go? {
      ThenIsPath(p.next, p.rest, q);
    }
  }

  lemma OneMore(s: State, a: Action, s1: State, q: Path) returns (p: Path)
    requires Step(s, a, s1) && IsPath(s1, q)
    ensures p == Go(a, s1, q) && IsPath(s, p) && EndOf(s, p) == EndOf(s1, q)
  {
    p := Go(a, s1, q);
  }

  lemma NoMore(s: State) returns (p: Path)
    ensures p == Stop && IsPath(s, p) && EndOf(s, p) == s
  {
    p := Stop;
  }

  lemma ThreeSteps(s: State, a1: Action, s1: State, a2: Action, s2: State, a3: Action, s3: State) returns (p: Path)
    requires Step(s, a1, s1) && Step(s1, a2, s2) && Step(s2, a3, s3)
    ensures IsPath(s, p) && EndOf(s, p) == s3
  {
    p := NoMore(s3);
    p := OneMore(s2, a3, s3, p);
    p := OneMore(s1, a2, s2, p);
    p := OneMore(s, a1, s1, p);
  }

  // ---------------------------------------------------------------- fresh names

  lemma {:induction false} SomeLarger(used: set<nat>) returns (n: nat)
    ensures forall m :: m in used ==> m < n
    decreases used
  {
    if used == {} {
      n := 0;
    } else {
      var x :| x in used;
      var k := SomeLarger(used - {x});
      n := if k <= x then x + 1 else k;
      assert forall m :: m in used ==> m == x || m in used - {x};
    }
  }

  lemma FreshName(used: set<nat>) returns (n: nat)
    ensures n !in used
  {
    n := SomeLarger(used);
  }

  // ------------------------------------------------------------------- metadata

  lemma PutSteps(s: State, put: nat, id: ObjectId, etag: string, size: nat, internalIdentity: bool) returns (p: Path)
    requires CanPutBegin(s, put, id, etag, size)
    ensures IsPath(s, p)
    ensures
      var row := ObjectRow(etag, size, s.config.PageSizeOf(id), internalIdentity, s.index.Gen(id));
      && EndOf(s, p).index.objects == s.index.objects[id := row]
      && EndOf(s, p).index.Gen(id) == s.index.Gen(id) && id in EndOf(s, p).index.generations
      && EndOf(s, p).upstream == s.upstream && EndOf(s, p).readers == s.readers
  {
    var s1 := AfterPutBegin(s, put, id, etag, size);
    var s2 := AfterPutReadEpoch(s1, put);
    var s3 := AfterPutUpsert(s2, put, internalIdentity);
    assert WriterStep(s, PutBegin(put, id, etag, size), s1);
    assert WriterStep(s1, PutReadEpoch(put), s2);
    assert WriterStep(s2, PutUpsert(put, internalIdentity), s3);
    p := ThreeSteps(s, PutBegin(put, id, etag, size), s1, PutReadEpoch(put), s2, PutUpsert(put, internalIdentity), s3);
  }

  /** Metadata of any version that upstream has had gets into the cache, with the
      current generation: a fill for it can then commit. */
  lemma MetadataGetsIn(s: State, id: ObjectId, v: nat, internalIdentity: bool) returns (p: Path)
    requires s.config.PageSizeOf(id) > 0 && v < |s.Hist(id)| && s.Hist(id)[v].Stored?
    ensures IsPath(s, p)
    ensures
      var version, s' := s.Hist(id)[v], EndOf(s, p);
      && id in s'.index.objects
      && s'.index.objects[id] ==
           ObjectRow(version.etag, |version.body|, s.config.PageSizeOf(id), internalIdentity, s.index.Gen(id))
      && s'.index.CanCommit(id, version.etag, s.index.Gen(id))
      && s'.upstream == s.upstream && s'.readers == s.readers
  {
    var version := s.Hist(id)[v];
    assert IsVersion(s.Hist(id), v, version.etag);
    var put := FreshName(s.puts.Keys);
    p := PutSteps(s, put, id, version.etag, |version.body|, internalIdentity);
  }

  /** Every range within the size of an object row can be planned. */
  lemma RangeCanBePlanned(s: State, id: ObjectId, range: ByteRange) returns (reader: nat, s': State)
    requires Inv(s) && id in s.index.objects
    requires 0 <= range.start <= range.end < s.index.objects[id].size
    ensures reader !in s.readers && Step(s, Plan(reader, id, range), s')
    ensures 0 < s.index.objects[id].pageSize && s'.readers == s.readers[reader := NewReader(s, id, range)]
    ensures s'.upstream == s.upstream && s'.index == s.index
  {
    reader := FreshName(s.readers.Keys);
    assert RowOk(s.config, s.upstream, id, s.index.objects[id]);
    s' := AfterPlan(s, reader, id, range);
    assert ReaderStep(s, Plan(reader, id, range), s');
  }

  // ----------------------------------------------------------- pages from upstream

  /** The reader's etag is that of the newest version. */
  predicate UpToDate(s: State, r: Reader) {
    IsVersion(s.Hist(r.id), Newest(s.Hist(r.id)), r.obj.etag)
  }

  lemma NextPageIsThere(s: State, reader: nat, v: nat)
    requires Inv(s) && reader in s.readers
    requires
      var r := s.readers[reader];
      r.served < |r.spans| && IsVersion(s.Hist(r.id), v, r.obj.etag)
    ensures
      var r := s.readers[reader];
      var body := s.Hist(r.id)[v].body;
      && HasNext(r) && InsidePage(r.spans[r.served], r.obj.pageSize)
      && r.spans[r.served].end < |body|
      && PageStart(NextPage(r).index, r.obj.pageSize) < |body|
      && CopyPageSpan(PageBytes(body, r.obj.pageSize, NextPage(r).index), r.spans[r.served], r.obj.pageSize).complete
  {
    var r := s.readers[reader];
    var h := s.Hist(r.id);
    assert ReaderOk(s.config, h, s.index.Gen(r.id), s.Bump(r.id), r);
    var w: nat :| SentFrom(r, h, w);
    assert h[w].body == h[v].body;
    assert InsidePage(r.spans[r.served], r.obj.pageSize);
    NextSpan(r);
    SpanOfPage(h[v].body, r.spans[r.served], r.obj.pageSize);
  }

  lemma FetchPage(s: State, reader: nat, fill: nat, page: seq<byte>) returns (s': State)
    requires reader in s.readers && fill !in s.fills && HasNext(s.readers[reader]) && UpToDate(s, s.readers[reader])
    requires
      var r := s.readers[reader];
      var body, i := s.Hist(r.id)[Newest(s.Hist(r.id))].body, NextPage(r).index;
      && PageStart(i, r.obj.pageSize) < |body| && page == PageBytes(body, r.obj.pageSize, i)
      && CopyPageSpan(page, r.spans[r.served], r.obj.pageSize).complete
    ensures Step(s, Fetch(reader, fill, NextPage(s.readers[reader]).index, |page|), s')
    ensures s'.upstream == s.upstream && s'.index == s.index && CanServeFetched(s', reader)
    ensures
      var r, r' := s.readers[reader], s'.readers[reader];
      r' == r.(fetched := r'.fetched)
  {
    var i := NextPage(s.readers[reader]).index;
    assert page[..|page|] == page;
    s' := AfterFetch(s, reader, fill, i, |page|);
    assert ReaderStep(s, Fetch(reader, fill, i, |page|), s');
  }

  lemma FetchNext(s: State, reader: nat) returns (fill: nat, length: nat, s': State)
    requires Inv(s) && reader in s.readers
    requires s.readers[reader].served < |s.readers[reader].spans| && UpToDate(s, s.readers[reader])
    ensures HasNext(s.readers[reader])
    ensures Step(s, Fetch(reader, fill, NextPage(s.readers[reader]).index, length), s')
    ensures s'.upstream == s.upstream && s'.index == s.index && CanServeFetched(s', reader)
    ensures
      var r, r' := s.readers[reader], s'.readers[reader];
      r' == r.(fetched := r'.fetched)
  {
    var r := s.readers[reader];
    var v := Newest(s.Hist(r.id));
    NextPageIsThere(s, reader, v);
    var page := PageBytes(s.Hist(r.id)[v].body, r.obj.pageSize, NextPage(r).index);
    fill := FreshName(s.fills.Keys);
    length := |page|;
    s' := FetchPage(s, reader, fill, page);
  }

  lemma ServeNext(s: State, reader: nat) returns (s': State)
    requires CanServeFetched(s, reader)
    ensures Step(s, ServeFetched(reader), s')
    ensures s'.upstream == s.upstream && s'.index == s.index && reader in s'.readers
    ensures
      var r, r' := s.readers[reader], s'.readers[reader];
      r'.served == r.served + 1 && r' == r.(served := r'.served, sent := r'.sent, lookup := r'.lookup)
  {
    s' := AfterServe(s, reader, FetchedBody(s, reader));
    assert ReaderStep(s, ServeFetched(reader), s');
  }

  /** What a GET was planned with. */
  predicate SamePlan(r: Reader, r': Reader) {
    r'.id == r.id && r'.obj == r.obj && r'.range == r.range && r'.spans == r.spans
  }

  lemma {:induction false} FetchesToTheEnd(s: State, reader: nat) returns (p: Path)
    requires Inv(s) && reader in s.readers && UpToDate(s, s.readers[reader])
    ensures IsPath(s, p) && reader in EndOf(s, p).readers
    ensures EndOf(s, p).upstream == s.upstream && EndOf(s, p).index == s.index
    ensures
      var r, r' := s.readers[reader], EndOf(s, p).readers[reader];
      SamePlan(r, r') && r'.served == |r'.spans|
    decreases |s.readers[reader].spans| - s.readers[reader].served
  {
    var r := s.readers[reader];
    assert ReaderOk(s.config, s.Hist(r.id), s.index.Gen(r.id), s.Bump(r.id), r);
    if r.served == |r.spans| {
      p := Stop;
    } else {
      var fill, length, s1 := FetchNext(s, reader);
      var fetch := Fetch(reader, fill, NextPage(r).index, length);
      StepKeepsInv(s, fetch, s1);
      var s2 := ServeNext(s1, reader);
      StepKeepsInv(s1, ServeFetched(reader), s2);
      var q := FetchesToTheEnd(s2, reader);
      p := Go(fetch, s1, Go(ServeFetched(reader), s2, q));
    }
  }

  /** A GET whose etag is still the newest one can always be served to its end,
      from any point and whatever the cache has: with exactly its range. */
  lemma GetCompletes(s: State, reader: nat) returns (p: Path)
    requires Inv(s) && reader in s.readers && UpToDate(s, s.readers[reader])
    ensures IsPath(s, p) && reader in EndOf(s, p).readers
    ensures
      var r, r', h := s.readers[reader], EndOf(s, p).readers[reader], s.Hist(s.readers[reader].id);
      r'.served == |r'.spans| && SliceOf(r'.sent, h, Newest(h), r.obj.etag, r.range)
  {
    p := FetchesToTheEnd(s, reader);
    PathKeepsInv(s, p);
    var r := s.readers[reader];
    CompleteReader(EndOf(s, p), reader, Newest(s.Hist(r.id)));
  }

  lemma NewReaderIsUpToDate(s: State, id: ObjectId, range: ByteRange, s': State, reader: nat)
    requires id in s.index.objects && 0 < s.index.objects[id].pageSize && ValidRange(range)
    requires IsVersion(s.Hist(id), Newest(s.Hist(id)), s.index.objects[id].etag)
    requires s'.readers == s.readers[reader := NewReader(s, id, range)] && s'.upstream == s.upstream
    ensures UpToDate(s', s'.readers[reader])
  {
  }

  lemma PlannedGetCompletes(s: State, id: ObjectId, range: ByteRange) returns (reader: nat, p: Path)
    requires Inv(s) && id in s.index.objects && 0 <= range.start <= range.end < s.index.objects[id].size
    requires IsVersion(s.Hist(id), Newest(s.Hist(id)), s.index.objects[id].etag)
    ensures IsPath(s, p) && reader in EndOf(s, p).readers
    ensures SliceOf(EndOf(s, p).readers[reader].sent, s.Hist(id), Newest(s.Hist(id)), s.index.objects[id].etag, range)
  {
    var s1;
    reader, s1 := RangeCanBePlanned(s, id, range);
    NewReaderIsUpToDate(s, id, range, s1, reader);
    StepKeepsInv(s, Plan(reader, id, range), s1);
    var p1 := GetCompletes(s1, reader);
    p := Go(Plan(reader, id, range), s1, p1);
  }

  /** From any state, a GET for any range of the newest version can be planned
      and served, even if the cache has never seen the object. */
  lemma ColdGetCompletes(s: State, id: ObjectId, range: ByteRange, v: nat) returns (reader: nat, p: Path)
    requires Inv(s) && s.config.PageSizeOf(id) > 0
    requires v == |s.Hist(id)| - 1 && s.Hist(id)[v].Stored?
    requires 0 <= range.start <= range.end < |s.Hist(id)[v].body|
    ensures IsPath(s, p) && reader in EndOf(s, p).readers
    ensures EndOf(s, p).readers[reader].sent == s.Hist(id)[v].body[range.start..range.end + 1]
  {
    var p1 := MetadataGetsIn(s, id, v, false);
    PathKeepsInv(s, p1);
    var p2;
    reader, p2 := PlannedGetCompletes(EndOf(s, p1), id, range);
    p := Then(p1, p2);
    ThenIsPath(s, p1, p2);
  }

  // ------------------------------------------------------------ pages of the cache

  /** The page is in the cache, whole, for a reader with this object row. */
  predicate Cached(s: State, id: ObjectId, obj: ObjectRow, index: nat) {
    var k, path := PageKey(id, index), PagePath(id, index, obj.etag, obj.epoch);
    && k in s.index.pages
    && s.index.pages[k].etag == obj.etag && s.index.pages[k].epoch == obj.epoch
    && path in s.files && |s.files[path]| == s.index.pages[k].size
    && s.index.pages[k].size == Min(obj.pageSize, obj.size - PageStart(index, obj.pageSize))
  }

  /** A fill whose object has its etag and epoch gets into the cache: its row, and
      its bytes in the file that the row names. If it is a whole page, readers find
      it there. */
  lemma FillGetsIn(s: State, fill: nat, now: int) returns (p: Path)
    requires fill in s.fills && s.fills[fill].phase == Fetched
    requires
      var f, x := s.fills[fill], s.index;
      && f.k.id in x.objects && x.objects[f.k.id].etag == f.etag
      && f.k.id in x.generations && x.generations[f.k.id] == f.epoch
    ensures IsPath(s, p)
    ensures
      var f, s' := s.fills[fill], EndOf(s, p);
      && f.k in s'.index.pages && SameRow(s'.index.pages[f.k], PageRow(f.etag, f.epoch, |f.data|, now, now))
      && s'.files == s.files[PagePath(f.k.id, f.k.index, f.etag, f.epoch) := f.data]
      && s'.index.objects == s.index.objects && s'.readers == s.readers
      && (forall obj: ObjectRow ::
            && obj.etag == f.etag && obj.epoch == f.epoch
            && |f.data| == Min(obj.pageSize, obj.size - PageStart(f.k.index, obj.pageSize))
            ==> Cached(s', f.k.id, obj, f.k.index))
  {
    var s1 := AfterBeginWrite(s, fill);
    var s2 := AfterRename(s1, fill);
    var s3 := AfterCommitRow(s2, fill, now);
    assert WriterStep(s, BeginWrite(fill), s1);
    assert WriterStep(s1, Rename(fill), s2);
    assert WriterStep(s2, CommitRow(fill, now), s3);
    p := ThreeSteps(s, BeginWrite(fill), s1, Rename(fill), s2, CommitRow(fill, now), s3);
  }

  ghost predicate NextIsCached(s: State, reader: nat) {
    && reader in s.readers
    && var r := s.readers[reader];
    && HasNext(r) && Cached(s, r.id, r.obj, NextPage(r).index)
  }

  lemma WholePage(h: History, v: nat, etag: string, pageSize: nat, index: nat, data: seq<byte>)
    requires PageOfVersion(h, v, etag, pageSize, index, data)
    requires |data| == Min(pageSize, |h[v].body| - PageStart(index, pageSize))
    ensures data == PageBytes(h[v].body, pageSize, index)
  {
  }

  /** The file of the next page is from version `v`, which has the planned size. */
  predicate FileIsFrom(s: State, r: Reader, v: nat) {
    && HasNext(r) && ReaderPath(r) in s.files
    && PageOfVersion(s.Hist(r.id), v, r.obj.etag, r.obj.pageSize, ReaderPath(r).index, s.files[ReaderPath(r)])
    && |s.Hist(r.id)[v].body| == r.obj.size
  }

  lemma VersionOfFile(s: State, reader: nat) returns (v: nat)
    requires Inv(s) && NextIsCached(s, reader)
    ensures FileIsFrom(s, s.readers[reader], v)
  {
    var r := s.readers[reader];
    var h, path := s.Hist(r.id), ReaderPath(r);
    assert ReaderOk(s.config, h, s.index.Gen(r.id), s.Bump(r.id), r);
    assert FileOk(s.config, s.upstream, path, s.files[path]);
    v :| PageOfVersion(h, v, path.etag, s.config.PageSizeOf(r.id), path.index, s.files[path]);
    var w: nat :| SentFrom(r, h, w);
    assert h[w].body == h[v].body;
  }

  predicate SpanIsThere(s: State, reader: nat)
    requires reader in s.readers
  {
    var r := s.readers[reader];
    && HasNext(r) && ReaderPath(r) in s.files
    && CopyPageSpan(s.files[ReaderPath(r)], r.spans[r.served], r.obj.pageSize).complete
  }

  lemma WholeFileServes(s: State, reader: nat, v: nat)
    requires NextIsCached(s, reader) && FileIsFrom(s, s.readers[reader], v)
    requires
      var r := s.readers[reader];
      var page := PageBytes(s.Hist(r.id)[v].body, r.obj.pageSize, NextPage(r).index);
      CopyPageSpan(page, r.spans[r.served], r.obj.pageSize).complete
    ensures SpanIsThere(s, reader)
  {
    var r := s.readers[reader];
    WholePage(s.Hist(r.id), v, r.obj.etag, r.obj.pageSize, ReaderPath(r).index, s.files[ReaderPath(r)]);
  }

  lemma CachedIsWhole(s: State, reader: nat)
    requires Inv(s) && NextIsCached(s, reader)
    ensures SpanIsThere(s, reader)
  {
    var v := VersionOfFile(s, reader);
    NextPageIsThere(s, reader, v);
    WholeFileServes(s, reader, v);
  }

  lemma LookupNext(s: State, reader: nat) returns (s': State)
    requires NextIsCached(s, reader) && SpanIsThere(s, reader)
    ensures Step(s, Lookup(reader), s') && CanServeCached(s', reader)
    ensures s'.upstream == s.upstream && s'.index == s.index && s'.files == s.files
    ensures s'.readers[reader] == s.readers[reader].(lookup := s'.readers[reader].lookup)
  {
    s' := AfterLookup(s, reader);
    assert ReaderStep(s, Lookup(reader), s');
  }

  lemma ServeCachedNext(s: State, reader: nat) returns (s': State)
    requires CanServeCached(s, reader)
    ensures Step(s, ServeCached(reader), s')
    ensures s'.upstream == s.upstream && s'.index == s.index && s'.files == s.files && reader in s'.readers
    ensures
      var r, r' := s.readers[reader], s'.readers[reader];
      r'.served == r.served + 1 && r' == r.(served := r'.served, sent := r'.sent, lookup := r'.lookup)
  {
    s' := AfterServe(s, reader, CachedBody(s, reader));
    assert ReaderStep(s, ServeCached(reader), s');
  }

  lemma CachedStep(s: State, reader: nat) returns (s1: State, s2: State)
    requires Inv(s) && NextIsCached(s, reader)
    ensures Step(s, Lookup(reader), s1) && Step(s1, ServeCached(reader), s2) && Inv(s2)
    ensures s2.upstream == s.upstream && s2.index == s.index && s2.files == s.files && reader in s2.readers
    ensures
      var r, r' := s.readers[reader], s2.readers[reader];
      SamePlan(r, r') && r'.served == r.served + 1
  {
    CachedIsWhole(s, reader);
    s1 := LookupNext(s, reader);
    s2 := ServeCachedNext(s1, reader);
    StepKeepsInv(s, Lookup(reader), s1);
    StepKeepsInv(s1, ServeCached(reader), s2);
  }

  /** Every page that the reader has still to serve is in the cache. */
  ghost predicate AllCached(s: State, r: Reader) {
    forall i :: r.served <= i < |r.spans| ==> r.spans[i].index >= 0 && Cached(s, r.id, r.obj, r.spans[i].index)
  }

  lemma NextOfAll(s: State, reader: nat)
    requires reader in s.readers && AllCached(s, s.readers[reader])
    requires s.readers[reader].served < |s.readers[reader].spans|
    ensures NextIsCached(s, reader)
  {
  }

  lemma ServedWithin(s: State, reader: nat)
    requires Inv(s) && reader in s.readers
    ensures s.readers[reader].served <= |s.readers[reader].spans|
  {
    var r := s.readers[reader];
    assert ReaderOk(s.config, s.Hist(r.id), s.index.Gen(r.id), s.Bump(r.id), r);
  }

  lemma CachedStepOfAll(s: State, reader: nat) returns (s1: State, s2: State)
    requires Inv(s) && reader in s.readers && AllCached(s, s.readers[reader])
    requires s.readers[reader].served < |s.readers[reader].spans|
    ensures Step(s, Lookup(reader), s1) && Step(s1, ServeCached(reader), s2) && Inv(s2)
    ensures s2.upstream == s.upstream && reader in s2.readers && AllCached(s2, s2.readers[reader])
    ensures
      var r, r' := s.readers[reader], s2.readers[reader];
      SamePlan(r, r') && r'.served == r.served + 1
  {
    NextOfAll(s, reader);
    s1, s2 := CachedStep(s, reader);
    StillCached(s, s2, s.readers[reader], s2.readers[reader]);
  }

  lemma {:induction false} ServesToTheEnd(s: State, reader: nat) returns (p: Path)
    requires Inv(s) && reader in s.readers && AllCached(s, s.readers[reader])
    ensures IsPath(s, p) && reader in EndOf(s, p).readers && FromCache(p)
    ensures EndOf(s, p).upstream == s.upstream
    ensures
      var r, r' := s.readers[reader], EndOf(s, p).readers[reader];
      SamePlan(r, r') && r'.served == |r'.spans|
    decreases |s.readers[reader].spans| - s.readers[reader].served
  {
    ServedWithin(s, reader);
    if s.readers[reader].served == |s.readers[reader].spans| {
      p := Stop;
    } else {
      var s1, s2 := CachedStepOfAll(s, reader);
      var q := ServesToTheEnd(s2, reader);
      p := TwoMore(s, Lookup(reader), s1, ServeCached(reader), s2, q);
    }
  }

  lemma TwoMore(s: State, a1: Action, s1: State, a2: Action, s2: State, q: Path) returns (p: Path)
    requires Step(s, a1, s1) && Step(s1, a2, s2) && IsPath(s2, q)
    ensures IsPath(s, p) && EndOf(s, p) == EndOf(s2, q)
    ensures FromCache(p) <==> (a1.Lookup? || a1.ServeCached?) && (a2.Lookup? || a2.ServeCached?) && FromCache(q)
  {
    p := OneMore(s1, a2, s2, q);
    p := OneMore(s, a1, s1, p);
  }

  lemma StillCached(s: State, s': State, r: Reader, r': Reader)
    requires AllCached(s, r) && SamePlan(r, r') && r'.served >= r.served
    requires s'.index == s.index && s'.files == s.files
    ensures AllCached(s', r')
  {
  }

  /** No step asks upstream. */
  predicate FromCache(p: Path) {
    p.Go? ==> (p.a.Lookup? || p.a.ServeCached?) && FromCache(p.rest)
  }

  /** A GET whose pages are all in the cache can be served to its end without
      upstream, and gets its range of the version that its etag names. */
  lemma WarmGetCompletes(s: State, reader: nat, v: nat) returns (p: Path)
    requires Inv(s) && reader in s.readers && AllCached(s, s.readers[reader])
    requires IsVersion(s.Hist(s.readers[reader].id), v, s.readers[reader].obj.etag)
    ensures IsPath(s, p) && reader in EndOf(s, p).readers && FromCache(p)
    ensures
      var r, r' := s.readers[reader], EndOf(s, p).readers[reader];
      r'.served == |r'.spans| && SliceOf(r'.sent, s.Hist(r.id), v, r.obj.etag, r.range)
  {
    p := ServesToTheEnd(s, reader);
    PathKeepsInv(s, p);
    CompleteReader(EndOf(s, p), reader, v);
  }
}
