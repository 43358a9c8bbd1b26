/** One cache node and its upstream as a step machine. Every statement that the
    code runs under its own lock, every file operation and every upstream
    exchange is a step of its own, so any two requests interleave freely.

    Page and file removals (eviction, stale, missing or corrupt pages, files of
    lost commits) are steps that may happen at any time. Upstream is a history
    of versions per object in which an etag determines the bytes. One page size
    is fixed per object. */
module CacheMachine {
  import opened Results
  import opened RangePlan
  import opened PageStreams
  import opened CacheIndex

  datatype Version = Stored(etag: string, body: seq<byte>) | Deleted

  type History = seq<Version>

  /** A PutObject call: after its first statement, and after it read the epoch. */
  datatype Put =
    | PutEnsured(id: ObjectId, etag: string, size: nat)
    | PutRead(id: ObjectId, etag: string, size: nat, epoch: nat)

  datatype FillPhase = Fetched | Writing | Renamed

  /** Bytes fetched for one page under `If-Match: etag`, on their way into the
      cache. `version` is the upstream version they were read from. */
  datatype Fill = Fill(k: PageKey, etag: string, epoch: nat, data: seq<byte>, version: nat, phase: FillPhase)

  /** A GET that was planned from the object row `obj`. `since` is the version
      that was newest when the object's generation last advanced before the plan,
      `fetched` the pages that this request itself got from upstream, and `lookup`
      the size in the page row it has found for the next page. */
  datatype Reader = Reader(id: ObjectId, obj: ObjectRow, range: ByteRange, spans: seq<PageSpan>,
                           served: nat, sent: seq<byte>, lookup: Option<nat>,
                           fetched: map<nat, seq<byte>>, since: nat)

  /** Page sizes by bucket, with a default. */
  datatype Config = Config(pageSize: nat, byBucket: map<string, nat>) {
    function PageSizeOf(id: ObjectId): nat {
      if id.bucket in byBucket && byBucket[id.bucket] > 0 then byBucket[id.bucket] else pageSize
    }
  }

  datatype State = State(
    config: Config,
    index: Index,
    files: map<PagePath, seq<byte>>,
    upstream: map<ObjectId, History>,
    puts: map<nat, Put>,
    fills: map<nat, Fill>,
    readers: map<nat, Reader>,
    // history variables: they steer no step
    bump: map<ObjectId, nat>,
    source: map<PageKey, nat>)
  {
    function Hist(id: ObjectId): History {
      HistIn(upstream, id)
    }

    function Bump(id: ObjectId): nat {
      BumpIn(bump, id)
    }
  }

  function HistIn(up: map<ObjectId, History>, id: ObjectId): History {
    if id in up then up[id] else []
  }

  function BumpIn(bump: map<ObjectId, nat>, id: ObjectId): nat {
    if id in bump then bump[id] else 0
  }

  /** Position of the newest version. */
  function Newest(h: History): nat {
    if h == [] then 0 else |h| - 1
  }

  predicate IsVersion(h: History, v: nat, etag: string) {
    v < |h| && h[v].Stored? && h[v].etag == etag
  }

  /** `etag` and `size` describe some version that upstream has had. */
  ghost predicate Known(h: History, etag: string, size: nat) {
    exists v: nat :: IsVersion(h, v, etag) && |h[v].body| == size
  }

  /** `data` is page `index` of version `v`, which has this etag, or what there
      is of that page when a body ended early. */
  predicate PageOfVersion(h: History, v: nat, etag: string, pageSize: nat, index: nat, data: seq<byte>) {
    && IsVersion(h, v, etag)
    && PageStart(index, pageSize) < |h[v].body|
    && data <= PageBytes(h[v].body, pageSize, index)
  }

  // -------------------------------------------------------------------- steps

  datatype Action =
    | UpstreamWrite(id: ObjectId, version: Version)
    | PutBegin(put: nat, id: ObjectId, etag: string, size: nat)
    | PutReadEpoch(put: nat)
    | PutUpsert(put: nat, internalIdentity: bool)
    | PutFail(put: nat)
    | BeginWrite(fill: nat)
    | Rename(fill: nat)
    | CommitRow(fill: nat, now: int)
    | CommitLost(fill: nat)
    | DropFill(fill: nat)
    | Plan(reader: nat, id: ObjectId, range: ByteRange)
    | Fetch(reader: nat, fill: nat, index: nat, length: nat)
    | Lookup(reader: nat)
    | ServeCached(reader: nat)
    | ServeFetched(reader: nat)
    | ReaderEnd(reader: nat)
    | InvalidateObject(id: ObjectId, minEpoch: nat)
    | DeletePageRow(k: PageKey)
    | TouchPageRow(k: PageKey, at: int)
    | RemoveFile(path: PagePath)
    | CollectObjectRow(id: ObjectId)
    | CollectGenerationRow(id: ObjectId)
    | Restart

  /** Upstream writes, and metadata and pages on their way into the cache. */
  ghost predicate WriterStep(s: State, a: Action, s': State) {
    match a
    case UpstreamWrite(id, version) => CanWrite(s, id, version) && s' == AfterWrite(s, id, version)
    case PutBegin(put, id, etag, size) => CanPutBegin(s, put, id, etag, size)
        && s' == AfterPutBegin(s, put, id, etag, size)
    case PutReadEpoch(put) => CanPutReadEpoch(s, put) && s' == AfterPutReadEpoch(s, put)
    case PutUpsert(put, internalIdentity) => CanPutUpsert(s, put) && s' == AfterPutUpsert(s, put, internalIdentity)
    case PutFail(put) => put in s.puts && s' == AfterPutFail(s, put)
    case BeginWrite(fill) => CanBeginWrite(s, fill) && s' == AfterBeginWrite(s, fill)
    case Rename(fill) => CanRename(s, fill) && s' == AfterRename(s, fill)
    case CommitRow(fill, now) => CanCommitRow(s, fill) && s' == AfterCommitRow(s, fill, now)
    case CommitLost(fill) => CanLoseCommit(s, fill) && s' == AfterDropFill(s, fill)
    case DropFill(fill) => fill in s.fills && s' == AfterDropFill(s, fill)
    case _ => false
  }

  /** A GET: plan, then page by page from the cache or from upstream. */
  ghost predicate ReaderStep(s: State, a: Action, s': State) {
    match a
    case Plan(reader, id, range) => CanPlan(s, reader, id, range) && s' == AfterPlan(s, reader, id, range)
    case Fetch(reader, fill, index, length) =>
      CanFetch(s, reader, fill, index, length) && s' == AfterFetch(s, reader, fill, index, length)
    case Lookup(reader) => CanLookup(s, reader) && s' == AfterLookup(s, reader)
    case ServeCached(reader) => CanServeCached(s, reader) && s' == AfterServe(s, reader, CachedBody(s, reader))
    case ServeFetched(reader) => CanServeFetched(s, reader) && s' == AfterServe(s, reader, FetchedBody(s, reader))
    case ReaderEnd(reader) => reader in s.readers && s' == AfterReaderEnd(s, reader)
    case _ => false
  }

  /** Invalidation, eviction, garbage collection and restart. */
  ghost predicate RemovalStep(s: State, a: Action, s': State) {
    match a
    case InvalidateObject(id, minEpoch) => s' == AfterInvalidate(s, id, minEpoch)
    case DeletePageRow(k) => s' == AfterDeletePage(s, k)
    case TouchPageRow(k, at) => s' == AfterTouchPage(s, k, at)
    case RemoveFile(path) => s' == AfterRemoveFile(s, path)
    case CollectObjectRow(id) => s.index.PagesOf(id) == {} && s' == AfterCollectObject(s, id)
    case CollectGenerationRow(id) =>
      CanCollectGeneration(s, id) && CollectionIsSafe(s, id) && s' == AfterCollectGeneration(s, id)
    case Restart => s' == AfterRestart(s)
    case _ => false
  }

  /** `a` takes `s` to `s'`. */
  ghost predicate Step(s: State, a: Action, s': State) {
    WriterStep(s, a, s') || ReaderStep(s, a, s') || RemovalStep(s, a, s')
  }

  /** An overwrite or a delete; equal etags mean equal bytes. */
  ghost predicate CanWrite(s: State, id: ObjectId, version: Version) {
    WriteAgrees(HistIn(s.upstream, id), version)
  }

  ghost predicate WriteAgrees(h: History, version: Version) {
    forall v: nat :: version.Stored? && IsVersion(h, v, version.etag) ==> h[v].body == version.body
  }

  function AfterWrite(s: State, id: ObjectId, version: Version): State {
    s.(upstream := s.upstream[id := s.Hist(id) + [version]])
  }

  /** PutObject with metadata that some HEAD answer has shown, now or earlier. */
  ghost predicate CanPutBegin(s: State, put: nat, id: ObjectId, etag: string, size: nat) {
    put !in s.puts && s.config.PageSizeOf(id) > 0 && Known(s.Hist(id), etag, size)
  }

  function AfterPutBegin(s: State, put: nat, id: ObjectId, etag: string, size: nat): State {
    s.(index := s.index.EnsureGeneration(id), puts := s.puts[put := PutEnsured(id, etag, size)])
  }

  predicate CanPutReadEpoch(s: State, put: nat) {
    put in s.puts && s.puts[put].PutEnsured? && s.puts[put].id in s.index.generations
  }

  function AfterPutReadEpoch(s: State, put: nat): State
    requires CanPutReadEpoch(s, put)
  {
    var p := s.puts[put];
    s.(puts := s.puts[put := PutRead(p.id, p.etag, p.size, s.index.Gen(p.id))])
  }

  predicate CanPutUpsert(s: State, put: nat) {
    put in s.puts && s.puts[put].PutRead?
  }

  function AfterPutUpsert(s: State, put: nat, internalIdentity: bool): State
    requires CanPutUpsert(s, put)
  {
    var p := s.puts[put];
    s.(index := s.index.Upsert(p.id, ObjectRow(p.etag, p.size, s.config.PageSizeOf(p.id), internalIdentity, p.epoch)),
       puts := s.puts - {put})
  }

  predicate CanPlan(s: State, reader: nat, id: ObjectId, range: ByteRange) {
    && reader !in s.readers && id in s.index.objects
    && ValidRange(range) && range.end < s.index.objects[id].size
    && 0 < s.index.objects[id].pageSize
  }

  function NewReader(s: State, id: ObjectId, range: ByteRange): Reader
    requires id in s.index.objects && 0 < s.index.objects[id].pageSize
    requires ValidRange(range)
  {
    var obj := s.index.objects[id];
    Reader(id, obj, range, Spans(range, obj.pageSize), 0, [], None, map[], s.Bump(id))
  }

  function AfterPlan(s: State, reader: nat, id: ObjectId, range: ByteRange): State
    requires CanPlan(s, reader, id, range)
  {
    s.(readers := s.readers[reader := NewReader(s, id, range)])
  }

  /** Upstream answers a page request only while its If-Match holds. A body that
      ends early brings only the first `length` bytes of the page; whether they
      get committed is up to the steps that follow. */
  predicate CanFetch(s: State, reader: nat, fill: nat, index: nat, length: nat) {
    && reader in s.readers && fill !in s.fills
    && CanRead(s, s.readers[reader], index, length)
  }

  predicate CanRead(s: State, r: Reader, index: nat, length: nat) {
    var h := s.Hist(r.id);
    && IsVersion(h, Newest(h), r.obj.etag)
    && PageStart(index, r.obj.pageSize) < |h[Newest(h)].body|
    && length <= |PageBytes(h[Newest(h)].body, r.obj.pageSize, index)|
  }

  function NewFill(s: State, r: Reader, index: nat, length: nat): Fill
    requires CanRead(s, r, index, length)
  {
    var v := Newest(s.Hist(r.id));
    var data := PageBytes(s.Hist(r.id)[v].body, r.obj.pageSize, index)[..length];
    Fill(PageKey(r.id, index), r.obj.etag, r.obj.epoch, data, v, Fetched)
  }

  function AfterFetch(s: State, reader: nat, fill: nat, index: nat, length: nat): State
    requires CanFetch(s, reader, fill, index, length)
  {
    var r := s.readers[reader];
    var f := NewFill(s, r, index, length);
    s.(fills := s.fills[fill := f], readers := s.readers[reader := r.(fetched := r.fetched[index := f.data])])
  }

  predicate FillCanCommit(s: State, fill: nat)
    requires fill in s.fills
  {
    s.index.CanCommit(s.fills[fill].k.id, s.fills[fill].etag, s.fills[fill].epoch)
  }

  predicate CanBeginWrite(s: State, fill: nat) {
    fill in s.fills && s.fills[fill].phase == Fetched && FillCanCommit(s, fill)
  }

  function AfterBeginWrite(s: State, fill: nat): State
    requires fill in s.fills
  {
    s.(fills := s.fills[fill := s.fills[fill].(phase := Writing)])
  }

  predicate CanRename(s: State, fill: nat) {
    fill in s.fills && s.fills[fill].phase == Writing
  }

  predicate CanLoseCommit(s: State, fill: nat) {
    fill in s.fills && s.fills[fill].phase == Renamed && !FillCanCommit(s, fill)
  }

  function AfterDropFill(s: State, fill: nat): State {
    s.(fills := s.fills - {fill})
  }

  function PathOfFill(f: Fill): PagePath {
    PagePath(f.k.id, f.k.index, f.etag, f.epoch)
  }

  function AfterRename(s: State, fill: nat): State
    requires fill in s.fills
  {
    var f := s.fills[fill];
    s.(files := s.files[PathOfFill(f) := f.data], fills := s.fills[fill := f.(phase := Renamed)])
  }

  predicate CanCommitRow(s: State, fill: nat) {
    fill in s.fills && s.fills[fill].phase == Renamed && FillCanCommit(s, fill)
  }

  function AfterCommitRow(s: State, fill: nat, now: int): State
    requires CanCommitRow(s, fill)
  {
    var f := s.fills[fill];
    s.(index := s.index.PutPage(f.k, f.etag, f.epoch, |f.data|, now),
       source := s.source[f.k := f.version], fills := s.fills - {fill})
  }

  predicate HasNext(r: Reader) {
    r.served < |r.spans| && r.spans[r.served].index >= 0
  }

  /** The page that a reader serves next. */
  function NextPage(r: Reader): PageKey
    requires HasNext(r)
  {
    PageKey(r.id, r.spans[r.served].index)
  }

  function ReaderPath(r: Reader): PagePath
    requires HasNext(r)
  {
    PagePath(r.id, r.spans[r.served].index, r.obj.etag, r.obj.epoch)
  }

  /** OpenPage accepts the row of the reader's next page. */
  predicate RowMatches(s: State, r: Reader) {
    && HasNext(r)
    && NextPage(r) in s.index.pages
    && s.index.pages[NextPage(r)].etag == r.obj.etag
    && s.index.pages[NextPage(r)].epoch == r.obj.epoch
  }

  predicate CanLookup(s: State, reader: nat) {
    reader in s.readers && RowMatches(s, s.readers[reader])
  }

  function AfterLookup(s: State, reader: nat): State
    requires CanLookup(s, reader)
  {
    var r := s.readers[reader];
    s.(readers := s.readers[reader := r.(lookup := Some(s.index.pages[NextPage(r)].size))])
  }

  /** The file is opened after the row was read; its length must be the row's. */
  predicate CanServeCached(s: State, reader: nat) {
    && reader in s.readers
    && var r := s.readers[reader];
    && HasNext(r) && r.lookup.Some?
    && ReaderPath(r) in s.files && |s.files[ReaderPath(r)]| == r.lookup.value
    && CopyPageSpan(s.files[ReaderPath(r)], r.spans[r.served], r.obj.pageSize).complete
  }

  function CachedBody(s: State, reader: nat): seq<byte>
    requires CanServeCached(s, reader)
  {
    s.files[ReaderPath(s.readers[reader])]
  }

  function FetchedBody(s: State, reader: nat): seq<byte>
    requires CanServeFetched(s, reader)
  {
    s.readers[reader].fetched[NextPage(s.readers[reader]).index]
  }

  predicate CanServeFetched(s: State, reader: nat) {
    && reader in s.readers
    && var r := s.readers[reader];
    && HasNext(r) && NextPage(r).index in r.fetched
    && CopyPageSpan(r.fetched[NextPage(r).index], r.spans[r.served], r.obj.pageSize).complete
  }

  function Serve(r: Reader, body: seq<byte>): Reader
    requires HasNext(r)
  {
    r.(served := r.served + 1, lookup := None,
       sent := r.sent + CopyPageSpan(body, r.spans[r.served], r.obj.pageSize).bytes)
  }

  function AfterServe(s: State, reader: nat, body: seq<byte>): State
    requires reader in s.readers && HasNext(s.readers[reader])
  {
    s.(readers := s.readers[reader := Serve(s.readers[reader], body)])
  }

  function AfterInvalidate(s: State, id: ObjectId, minEpoch: nat): State {
    s.(index := s.index.Invalidate(id, minEpoch),
       bump := if s.index.Gen(id) < s.index.NextEpoch(id, minEpoch) then s.bump[id := Newest(s.Hist(id))] else s.bump)
  }

  predicate CanCollectGeneration(s: State, id: ObjectId) {
    id in s.index.generations && id !in s.index.objects
  }

  /** Collecting a generation row resets the epoch to 0. Every epoch that an open
      call remembers must then be 0, and no open fill may have been read before
      the last advance. */
  ghost predicate CollectionIsSafe(s: State, id: ObjectId) {
    && (forall t :: t in s.puts && s.puts[t].PutRead? && s.puts[t].id == id ==> s.puts[t].epoch == 0)
    && (forall f :: f in s.fills && s.fills[f].k.id == id ==> s.fills[f].epoch == 0 && s.Bump(id) <= s.fills[f].version)
    && (forall r :: r in s.readers && s.readers[r].id == id ==> s.readers[r].obj.epoch == 0)
  }

  function AfterPutFail(s: State, put: nat): State {
    s.(puts := s.puts - {put})
  }

  function AfterReaderEnd(s: State, reader: nat): State {
    s.(readers := s.readers - {reader})
  }

  function AfterDeletePage(s: State, k: PageKey): State {
    s.(index := s.index.DeletePage(k))
  }

  function AfterTouchPage(s: State, k: PageKey, at: int): State {
    s.(index := s.index.TouchPage(k, at))
  }

  function AfterRemoveFile(s: State, path: PagePath): State {
    s.(files := s.files - {path})
  }

  function AfterCollectObject(s: State, id: ObjectId): State {
    s.(index := s.index.CollectObject(id))
  }

  function AfterCollectGeneration(s: State, id: ObjectId): State {
    s.(index := s.index.CollectGeneration(id))
  }

  /** The process ends and opens the same tables and files again. */
  function AfterRestart(s: State): State {
    s.(puts := map[], fills := map[], readers := map[])
  }

  // ---------------------------------------------------------------- invariant

  type Upstream = map<ObjectId, History>
  type Epochs = map<ObjectId, nat>

  function EpochIn(epochs: Epochs, id: ObjectId): nat {
    if id in epochs then epochs[id] else 0
  }

  ghost predicate EtagsAgree(up: Upstream) {
    forall id, v: nat, w: nat, etag :: IsVersion(HistIn(up, id), v, etag) && IsVersion(HistIn(up, id), w, etag) ==>
      HistIn(up, id)[v].body == HistIn(up, id)[w].body
  }

  ghost predicate BumpsOk(up: Upstream, bump: Epochs) {
    forall id :: BumpIn(bump, id) <= Newest(HistIn(up, id))
  }

  ghost predicate RowOk(c: Config, up: Upstream, id: ObjectId, row: ObjectRow) {
    Known(HistIn(up, id), row.etag, row.size) && row.pageSize == c.PageSizeOf(id) > 0
  }

  ghost predicate RowsOk(c: Config, up: Upstream, objects: map<ObjectId, ObjectRow>) {
    forall id :: id in objects ==> RowOk(c, up, id, objects[id])
  }

  ghost predicate PutOk(c: Config, up: Upstream, epochs: Epochs, p: Put) {
    && c.PageSizeOf(p.id) > 0
    && Known(HistIn(up, p.id), p.etag, p.size)
    && (p.PutRead? ==> p.epoch <= EpochIn(epochs, p.id))
  }

  ghost predicate PutsOk(c: Config, up: Upstream, epochs: Epochs, puts: map<nat, Put>) {
    forall t :: t in puts ==> PutOk(c, up, epochs, puts[t])
  }

  /** A path only ever holds the page of the version that it names, or a prefix. */
  ghost predicate FileOk(c: Config, up: Upstream, path: PagePath, data: seq<byte>) {
    exists v: nat :: PageOfVersion(HistIn(up, path.id), v, path.etag, c.PageSizeOf(path.id), path.index, data)
  }

  ghost predicate FilesOk(c: Config, up: Upstream, files: map<PagePath, seq<byte>>) {
    forall p :: p in files ==> FileOk(c, up, p, files[p])
  }

  /** A fill that is still current was read at or after the last advance. */
  ghost predicate FillOk(c: Config, up: Upstream, epochs: Epochs, bump: Epochs, f: Fill) {
    && c.PageSizeOf(f.k.id) > 0
    && PageOfVersion(HistIn(up, f.k.id), f.version, f.etag, c.PageSizeOf(f.k.id), f.k.index, f.data)
    && f.epoch <= EpochIn(epochs, f.k.id)
    && (f.epoch == EpochIn(epochs, f.k.id) ==> BumpIn(bump, f.k.id) <= f.version)
  }

  ghost predicate FillsOk(c: Config, up: Upstream, epochs: Epochs, bump: Epochs, fills: map<nat, Fill>) {
    forall f :: f in fills ==> FillOk(c, up, epochs, bump, fills[f])
  }

  /** The version `v` that a page row was read from. */
  ghost predicate PageOk(c: Config, h: History, bumped: nat, k: PageKey, row: PageRow, v: nat) {
    && IsVersion(h, v, row.etag)
    && bumped <= v
    && PageStart(k.index, c.PageSizeOf(k.id)) < |h[v].body|
    && row.size <= |PageBytes(h[v].body, c.PageSizeOf(k.id), k.index)|
  }

  ghost predicate PagesOk(c: Config, up: Upstream, bump: Epochs, source: map<PageKey, nat>,
        pages: map<PageKey, PageRow>)
  {
    forall k :: k in pages ==> k in source && PageOk(c, HistIn(up, k.id), BumpIn(bump, k.id), k, pages[k], source[k])
  }

  /** Offset up to which the reader has served. */
  function Cut(r: Reader): int {
    if 0 < r.served <= |r.spans| then r.spans[r.served - 1].end + 1 else r.range.start
  }

  /** Everything sent so far is a prefix of the planned slice of version `v`. */
  ghost predicate SentFrom(r: Reader, h: History, v: nat) {
    && IsVersion(h, v, r.obj.etag)
    && |h[v].body| == r.obj.size
    && 0 <= r.range.start <= Cut(r) <= r.range.end + 1 <= |h[v].body|
    && r.sent == h[v].body[r.range.start..Cut(r)]
  }

  /** Some version not older than `since` has the planned etag. */
  ghost predicate FreshEtag(h: History, etag: string, since: nat) {
    exists v: nat :: since <= v && IsVersion(h, v, etag)
  }

  /** A page of some version not older than `since`. */
  ghost predicate FreshPage(h: History, etag: string, pageSize: nat, since: nat, index: nat, data: seq<byte>) {
    exists v: nat :: since <= v && PageOfVersion(h, v, etag, pageSize, index, data)
  }

  ghost predicate Planned(c: Config, r: Reader) {
    && r.obj.pageSize == c.PageSizeOf(r.id) > 0
    && ValidRange(r.range)
    && Tiles(r.spans, r.range, r.obj.pageSize)
    && r.served <= |r.spans|
  }

  ghost predicate ReaderOk(c: Config, h: History, epoch: nat, bumped: nat, r: Reader) {
    && Planned(c, r)
    && r.obj.epoch <= epoch
    && r.since <= bumped
    && (exists v: nat :: SentFrom(r, h, v))
    && (r.served > 0 || r.lookup.Some? ==> FreshEtag(h, r.obj.etag, r.since))
    && (forall i :: i in r.fetched ==> FreshPage(h, r.obj.etag, r.obj.pageSize, r.since, i, r.fetched[i]))
  }

  ghost predicate ReadersOk(c: Config, up: Upstream, epochs: Epochs, bump: Epochs, readers: map<nat, Reader>) {
    forall r :: r in readers ==>
      ReaderOk(c, HistIn(up, readers[r].id), EpochIn(epochs, readers[r].id), BumpIn(bump, readers[r].id), readers[r])
  }

  /** What holds of the index, the files and the upstream history. */
  ghost predicate StoreInv(s: State) {
    && EtagsAgree(s.upstream)
    && BumpsOk(s.upstream, s.bump)
    && Fenced(s.index)
    && RowsOk(s.config, s.upstream, s.index.objects)
    && FilesOk(s.config, s.upstream, s.files)
    && PagesOk(s.config, s.upstream, s.bump, s.source, s.index.pages)
  }

  /** What holds of every call that is under way. */
  ghost predicate CallInv(s: State) {
    && PutsOk(s.config, s.upstream, s.index.generations, s.puts)
    && FillsOk(s.config, s.upstream, s.index.generations, s.bump, s.fills)
    && ReadersOk(s.config, s.upstream, s.index.generations, s.bump, s.readers)
  }

  ghost predicate Inv(s: State) {
    StoreInv(s) && CallInv(s)
  }
}
