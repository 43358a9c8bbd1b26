/** Safety of the cache machine over whole runs. */
module CacheSafety {
  import opened Results
  import opened RangePlan
  import opened PageStreams
  import opened CacheIndex
  import opened CacheMachine

  // ----------------------------------------------------------- one call changes

  lemma UpdateReader(s: State, reader: nat, r: Reader)
    requires Inv(s)
    requires ReaderOk(s.config, s.Hist(r.id), s.index.Gen(r.id), s.Bump(r.id), r)
    ensures Inv(s.(readers := s.readers[reader := r]))
  {
    assert ReadersOk(s.config, s.upstream, s.index.generations, s.bump, s.readers[reader := r]);
  }

  lemma UpdateFill(s: State, fill: nat, f: Fill)
    requires Inv(s)
    requires FillOk(s.config, s.upstream, s.index.generations, s.bump, f)
    ensures Inv(s.(fills := s.fills[fill := f]))
  {
    assert FillsOk(s.config, s.upstream, s.index.generations, s.bump, s.fills[fill := f]);
  }

  // --------------------------------------------------------- upstream writes

  lemma KnownGrows(h: History, v: Version, etag: string, size: nat)
    requires Known(h, etag, size)
    ensures Known(h + [v], etag, size)
  {
    var w: nat :| IsVersion(h, w, etag) && |h[w].body| == size;
    assert IsVersion(h + [v], w, etag);
  }

  lemma FreshPageGrows(h: History, v: Version, etag: string, pageSize: nat, since: nat, index: nat, data: seq<byte>)
    requires FreshPage(h, etag, pageSize, since, index, data)
    ensures FreshPage(h + [v], etag, pageSize, since, index, data)
  {
    var w: nat :| since <= w && PageOfVersion(h, w, etag, pageSize, index, data);
    assert PageOfVersion(h + [v], w, etag, pageSize, index, data);
  }

  lemma ReaderSurvivesWrite(c: Config, h: History, epoch: nat, bumped: nat, r: Reader, v: Version)
    requires ReaderOk(c, h, epoch, bumped, r)
    ensures ReaderOk(c, h + [v], epoch, bumped, r)
  {
    var w: nat :| SentFrom(r, h, w);
    assert SentFrom(r, h + [v], w);
    if FreshEtag(h, r.obj.etag, r.since) {
      var u: nat :| r.since <= u && IsVersion(h, u, r.obj.etag);
      assert IsVersion(h + [v], u, r.obj.etag);
    }
    forall i | i in r.fetched
      ensures FreshPage(h + [v], r.obj.etag, r.obj.pageSize, r.since, i, r.fetched[i])
    {
      FreshPageGrows(h, v, r.obj.etag, r.obj.pageSize, r.since, i, r.fetched[i]);
    }
  }

  lemma FileSurvivesWrite(c: Config, up: Upstream, id: ObjectId, version: Version, p: PagePath, data: seq<byte>)
    requires FileOk(c, up, p, data)
    ensures FileOk(c, up[id := HistIn(up, id) + [version]], p, data)
  {
    var v: nat :| PageOfVersion(HistIn(up, p.id), v, p.etag, c.PageSizeOf(p.id), p.index, data);
    assert PageOfVersion(HistIn(up[id := HistIn(up, id) + [version]], p.id), v, p.etag, c.PageSizeOf(p.id),
        p.index, data);
  }

  lemma EtagsAgreeAfterWrite(up: Upstream, id: ObjectId, version: Version)
    requires EtagsAgree(up)
    requires WriteAgrees(HistIn(up, id), version)
    ensures EtagsAgree(up[id := HistIn(up, id) + [version]])
  {
    var up' := up[id := HistIn(up, id) + [version]];
    forall i, v: nat, w: nat, etag | IsVersion(HistIn(up', i), v, etag) && IsVersion(HistIn(up', i), w, etag)
      ensures HistIn(up', i)[v].body == HistIn(up', i)[w].body
    {
      var n := |HistIn(up, id)|;
      if i != id || (v != n && w != n) {
        assert IsVersion(HistIn(up, i), v, etag) && IsVersion(HistIn(up, i), w, etag);
      } else {
        assert v != n ==> IsVersion(HistIn(up, i), v, etag);
        assert w != n ==> IsVersion(HistIn(up, i), w, etag);
      }
    }
  }

  lemma ReadersSurviveWrite(s: State, id: ObjectId, version: Version)
    requires Inv(s)
    ensures ReadersOk(s.config, AfterWrite(s, id, version).upstream, s.index.generations, s.bump, s.readers)
  {
    forall r | r in s.readers && s.readers[r].id == id
      ensures ReaderOk(s.config, s.Hist(id) + [version], s.index.Gen(id), s.Bump(id), s.readers[r])
    {
      ReaderSurvivesWrite(s.config, s.Hist(id), s.index.Gen(id), s.Bump(id), s.readers[r], version);
    }
  }

  lemma MetadataSurvivesWrite(s: State, id: ObjectId, version: Version)
    requires Inv(s)
    ensures RowsOk(s.config, AfterWrite(s, id, version).upstream, s.index.objects)
    ensures PutsOk(s.config, AfterWrite(s, id, version).upstream, s.index.generations, s.puts)
  {
    var s' := AfterWrite(s, id, version);
    forall i | i in s.index.objects
      ensures RowOk(s.config, s'.upstream, i, s.index.objects[i])
    {
      if i == id {
        KnownGrows(s.Hist(id), version, s.index.objects[i].etag, s.index.objects[i].size);
      }
    }
    forall t | t in s.puts
      ensures PutOk(s.config, s'.upstream, s.index.generations, s.puts[t])
    {
      if s.puts[t].id == id {
        KnownGrows(s.Hist(id), version, s.puts[t].etag, s.puts[t].size);
      }
    }
  }

  lemma FilesSurviveWrite(s: State, id: ObjectId, version: Version)
    requires Inv(s)
    ensures FilesOk(s.config, AfterWrite(s, id, version).upstream, s.files)
    ensures FillsOk(s.config, AfterWrite(s, id, version).upstream, s.index.generations, s.bump, s.fills)
  {
    var s' := AfterWrite(s, id, version);
    forall p | p in s.files
      ensures FileOk(s.config, s'.upstream, p, s.files[p])
    {
      FileSurvivesWrite(s.config, s.upstream, id, version, p, s.files[p]);
    }
    forall f | f in s.fills
      ensures FillOk(s.config, s'.upstream, s.index.generations, s.bump, s.fills[f])
    {
      assert FillOk(s.config, s.upstream, s.index.generations, s.bump, s.fills[f]);
    }
  }

  lemma PagesSurviveWrite(s: State, id: ObjectId, version: Version)
    requires Inv(s)
    ensures PagesOk(s.config, AfterWrite(s, id, version).upstream, s.bump, s.source, s.index.pages)
  {
    var s' := AfterWrite(s, id, version);
    forall k | k in s.index.pages
      ensures PageOk(s.config, s'.Hist(k.id), s.Bump(k.id), k, s.index.pages[k], s.source[k])
    {
      assert PageOk(s.config, s.Hist(k.id), s.Bump(k.id), k, s.index.pages[k], s.source[k]);
    }
  }

  lemma WriteKeepsInv(s: State, id: ObjectId, version: Version, s': State)
    requires Inv(s)
    requires CanWrite(s, id, version)
    requires s' == AfterWrite(s, id, version)
    ensures Inv(s')
  {
    EtagsAgreeAfterWrite(s.upstream, id, version);
    MetadataSurvivesWrite(s, id, version);
    FilesSurviveWrite(s, id, version);
    PagesSurviveWrite(s, id, version);
    ReadersSurviveWrite(s, id, version);
  }

  // ---------------------------------------------------------- metadata upserts

  /** Epochs that calls remember stay behind when a generation advances. */
  lemma CallsUnderEpochs(s: State, epochs: Epochs, bump: Epochs)
    requires Inv(s)
    requires forall t :: t in s.puts && s.puts[t].PutRead? ==>
        s.index.Gen(s.puts[t].id) <= EpochIn(epochs, s.puts[t].id)
    requires forall f :: f in s.fills ==>
               var id := s.fills[f].k.id;
               || s.index.Gen(id) < EpochIn(epochs, id)
               || (s.index.Gen(id) == EpochIn(epochs, id) && s.Bump(id) == BumpIn(bump, id))
    ensures PutsOk(s.config, s.upstream, epochs, s.puts)
    ensures FillsOk(s.config, s.upstream, epochs, bump, s.fills)
  {
    forall f | f in s.fills
      ensures FillOk(s.config, s.upstream, epochs, bump, s.fills[f])
    {
      assert FillOk(s.config, s.upstream, s.index.generations, s.bump, s.fills[f]);
    }
  }

  lemma ReadersUnderEpochs(s: State, epochs: Epochs, bump: Epochs)
    requires Inv(s)
    requires forall r :: r in s.readers ==>
               var id := s.readers[r].id;
               s.index.Gen(id) <= EpochIn(epochs, id) && s.Bump(id) <= BumpIn(bump, id)
    ensures ReadersOk(s.config, s.upstream, epochs, bump, s.readers)
  {
    forall r | r in s.readers
      ensures ReaderOk(s.config, s.Hist(s.readers[r].id), EpochIn(epochs, s.readers[r].id),
          BumpIn(bump, s.readers[r].id), s.readers[r])
    {
      var id := s.readers[r].id;
      assert ReaderOk(s.config, s.Hist(id), s.index.Gen(id), s.Bump(id), s.readers[r]);
    }
  }

  /** Nothing depends on a generation row but its epoch. */
  lemma SameEpochs(s: State, generations: Epochs)
    requires Inv(s)
    requires forall id :: EpochIn(generations, id) == s.index.Gen(id)
    ensures Inv(s.(index := s.index.(generations := generations)))
  {
    CallsUnderEpochs(s, generations, s.bump);
    ReadersUnderEpochs(s, generations, s.bump);
    SameEpochsFenced(s.index, generations);
  }

  lemma SameEpochsFenced(x: Index, generations: Epochs)
    requires Fenced(x)
    requires forall id :: EpochIn(generations, id) == x.Gen(id)
    ensures Fenced(x.(generations := generations))
  {
    var y := x.(generations := generations);
    assert forall id :: y.Gen(id) == EpochIn(generations, id);
  }

  lemma PutBeginKeepsInv(s: State, put: nat, id: ObjectId, etag: string, size: nat, s': State)
    requires Inv(s)
    requires CanPutBegin(s, put, id, etag, size)
    requires s' == AfterPutBegin(s, put, id, etag, size)
    ensures Inv(s')
  {
    SameEpochs(s, s.index.EnsureGeneration(id).generations);
  }

  lemma PutReadEpochKeepsInv(s: State, put: nat, s': State)
    requires Inv(s)
    requires CanPutReadEpoch(s, put)
    requires s' == AfterPutReadEpoch(s, put)
    ensures Inv(s')
  {
    assert PutOk(s.config, s.upstream, s.index.generations, s.puts[put]);
  }

  lemma PutUpsertKeepsInv(s: State, put: nat, internalIdentity: bool, s': State)
    requires Inv(s)
    requires CanPutUpsert(s, put)
    requires s' == AfterPutUpsert(s, put, internalIdentity)
    ensures Inv(s')
  {
    var p := s.puts[put];
    assert PutOk(s.config, s.upstream, s.index.generations, p);
    UpsertKeepsFence(s.index, p.id, AfterPutUpsert(s, put, internalIdentity).index.objects[p.id]);
  }

  // -------------------------------------------------------------------- fills

  lemma FetchKeepsInv(s: State, reader: nat, fill: nat, index: nat, length: nat, s': State)
    requires Inv(s)
    requires CanFetch(s, reader, fill, index, length)
    requires s' == AfterFetch(s, reader, fill, index, length)
    ensures Inv(s')
  {
    var r := s.readers[reader];
    var h, f := s.Hist(r.id), NewFill(s, r, index, length);
    assert ReaderOk(s.config, h, s.index.Gen(r.id), s.Bump(r.id), r);
    assert FillOk(s.config, s.upstream, s.index.generations, s.bump, f);
    FetchedReaderOk(s.config, h, s.index.Gen(r.id), s.Bump(r.id), r, index, f);
    UpdateFill(s, fill, f);
    UpdateReader(s.(fills := s.fills[fill := f]), reader, r.(fetched := r.fetched[index := f.data]));
  }

  lemma FetchedReaderOk(c: Config, h: History, epoch: nat, bumped: nat, r: Reader, index: nat, f: Fill)
    requires ReaderOk(c, h, epoch, bumped, r)
    requires bumped <= f.version
    requires PageOfVersion(h, f.version, r.obj.etag, r.obj.pageSize, index, f.data)
    ensures ReaderOk(c, h, epoch, bumped, r.(fetched := r.fetched[index := f.data]))
  {
    assert FreshPage(h, r.obj.etag, r.obj.pageSize, r.since, index, f.data);
    var v: nat :| SentFrom(r, h, v);
    assert SentFrom(r.(fetched := r.fetched[index := f.data]), h, v);
  }

  lemma BeginWriteKeepsInv(s: State, fill: nat, s': State)
    requires Inv(s)
    requires fill in s.fills
    requires s' == AfterBeginWrite(s, fill)
    ensures Inv(s')
  {
    assert FillOk(s.config, s.upstream, s.index.generations, s.bump, s.fills[fill]);
  }

  /** A rename puts the right page at its path even when the commit then loses. */
  lemma RenameKeepsInv(s: State, fill: nat, s': State)
    requires Inv(s)
    requires fill in s.fills
    requires s' == AfterRename(s, fill)
    ensures Inv(s')
  {
    var f := s.fills[fill];
    assert FillOk(s.config, s.upstream, s.index.generations, s.bump, f);
    assert FileOk(s.config, s.upstream, PathOfFill(f), f.data);
  }

  lemma CommitRowKeepsInv(s: State, fill: nat, now: int, s': State)
    requires Inv(s)
    requires CanCommitRow(s, fill)
    requires s' == AfterCommitRow(s, fill, now)
    ensures Inv(s')
  {
    var f := s.fills[fill];
    assert FillOk(s.config, s.upstream, s.index.generations, s.bump, f);
    CommitKeepsFence(s.index, f.k, f.etag, f.epoch, |f.data|, now);
    assert PageOk(s.config, s.Hist(f.k.id), s.Bump(f.k.id), f.k, s'.index.pages[f.k], f.version);
    forall k | k in s'.index.pages
      ensures PageOk(s.config, s.Hist(k.id), s.Bump(k.id), k, s'.index.pages[k], s'.source[k])
    {
      if k != f.k {
        assert PageOk(s.config, s.Hist(k.id), s.Bump(k.id), k, s.index.pages[k], s.source[k]);
      }
    }
  }

  // ------------------------------------------------------------------ readers

  lemma NewReaderOk(s: State, id: ObjectId, range: ByteRange)
    requires id in s.index.objects
    requires RowOk(s.config, s.upstream, id, s.index.objects[id])
    requires s.index.objects[id].epoch <= s.index.Gen(id)
    requires ValidRange(range) && range.end < s.index.objects[id].size
    ensures ReaderOk(s.config, s.Hist(id), s.index.Gen(id), s.Bump(id), NewReader(s, id, range))
  {
    var r, h := NewReader(s, id, range), s.Hist(id);
    SpansTile(range, r.obj.pageSize);
    assert Known(h, r.obj.etag, r.obj.size);
    var v: nat :| IsVersion(h, v, r.obj.etag) && |h[v].body| == r.obj.size;
    assert SentFrom(r, h, v);
  }

  lemma PlanKeepsInv(s: State, reader: nat, id: ObjectId, range: ByteRange, s': State)
    requires Inv(s)
    requires CanPlan(s, reader, id, range)
    requires s' == AfterPlan(s, reader, id, range)
    ensures Inv(s')
  {
    NewReaderOk(s, id, range);
    UpdateReader(s, reader, NewReader(s, id, range));
  }

  lemma LookupKeepsInv(s: State, reader: nat, s': State)
    requires Inv(s)
    requires CanLookup(s, reader)
    requires s' == AfterLookup(s, reader)
    ensures Inv(s')
  {
    var r := s.readers[reader];
    var h, k := s.Hist(r.id), NextPage(r);
    assert ReaderOk(s.config, h, s.index.Gen(r.id), s.Bump(r.id), r);
    assert PageOk(s.config, h, s.Bump(r.id), k, s.index.pages[k], s.source[k]);
    LookedUpReaderOk(s.config, h, s.index.Gen(r.id), s.Bump(r.id), r, s.source[k], s.index.pages[k].size);
    UpdateReader(s, reader, s'.readers[reader]);
  }

  lemma LookedUpReaderOk(c: Config, h: History, epoch: nat, bumped: nat, r: Reader, v: nat, size: nat)
    requires ReaderOk(c, h, epoch, bumped, r)
    requires bumped <= v && IsVersion(h, v, r.obj.etag)
    ensures ReaderOk(c, h, epoch, bumped, r.(lookup := Some(size)))
  {
    assert FreshEtag(h, r.obj.etag, r.since);
    var w: nat :| SentFrom(r, h, w);
    assert SentFrom(r.(lookup := Some(size)), h, w);
  }

  lemma NextSpan(r: Reader)
    requires Tiles(r.spans, r.range, r.obj.pageSize)
    requires ValidRange(r.range)
    requires HasNext(r)
    ensures
      var span := r.spans[r.served];
      && InsidePage(span, r.obj.pageSize)
      && r.range.start <= Cut(r) == span.start <= span.end <= r.range.end
  {
    TileStart(r.spans, r.range, r.obj.pageSize, r.served);
    TileEnd(r.spans, r.range, r.obj.pageSize, r.served, |r.spans| - 1);
    assert r.served > 0 ==> r.spans[r.served - 1].end + 1 == r.spans[r.served].start;
  }

  lemma ServedBytes(r: Reader, body: seq<byte>)
    requires HasNext(r) && 0 <= r.range.start <= Cut(r) == r.spans[r.served].start <= r.spans[r.served].end < |body|
    requires InsidePage(r.spans[r.served], r.obj.pageSize)
    requires r.sent == body[r.range.start..Cut(r)]
    ensures
      var r' := Serve(r, PageBytes(body, r.obj.pageSize, r.spans[r.served].index));
      Cut(r') == r.spans[r.served].end + 1 && r'.sent == body[r.range.start..Cut(r')]
  {
    var span := r.spans[r.served];
    SpanOfPage(body, span, r.obj.pageSize);
    Concat(body, r.range.start, span.start, span.end + 1);
  }

  /** Serving the right page extends the slice by exactly the next span. */
  lemma ServeExtends(r: Reader, h: History, v: nat, data: seq<byte>)
    requires Tiles(r.spans, r.range, r.obj.pageSize)
    requires ValidRange(r.range)
    requires HasNext(r)
    requires SentFrom(r, h, v)
    requires PageOfVersion(h, v, r.obj.etag, r.obj.pageSize, r.spans[r.served].index, data)
    requires CopyPageSpan(data, r.spans[r.served], r.obj.pageSize).complete
    ensures SentFrom(Serve(r, data), h, v)
  {
    NextSpan(r);
    var span, pageSize := r.spans[r.served], r.obj.pageSize;
    SpanOfPrefix(data, PageBytes(h[v].body, pageSize, span.index), span, pageSize);
    ServedBytes(r, h[v].body);
  }

  /** Bytes of any version with the planned etag are the right bytes to serve. */
  lemma ServeKeepsInv(s: State, reader: nat, w: nat, data: seq<byte>, s': State)
    requires Inv(s)
    requires reader in s.readers && HasNext(s.readers[reader])
    requires
      var r := s.readers[reader];
      && PageOfVersion(s.Hist(r.id), w, r.obj.etag, s.config.PageSizeOf(r.id), r.spans[r.served].index, data)
      && FreshEtag(s.Hist(r.id), r.obj.etag, r.since)
      && CopyPageSpan(data, r.spans[r.served], r.obj.pageSize).complete
    requires s' == AfterServe(s, reader, data)
    ensures Inv(s')
  {
    var r := s.readers[reader];
    var h := s.Hist(r.id);
    assert ReaderOk(s.config, h, s.index.Gen(r.id), s.Bump(r.id), r);
    var v: nat :| SentFrom(r, h, v);
    assert h[v].body == h[w].body;
    ServeExtends(r, h, v, data);
    ServedReaderOk(s.config, h, s.index.Gen(r.id), s.Bump(r.id), r, v, data);
    UpdateReader(s, reader, Serve(r, data));
  }

  lemma ServedReaderOk(c: Config, h: History, epoch: nat, bumped: nat, r: Reader, v: nat, data: seq<byte>)
    requires ReaderOk(c, h, epoch, bumped, r)
    requires HasNext(r)
    requires FreshEtag(h, r.obj.etag, r.since)
    requires SentFrom(Serve(r, data), h, v)
    ensures ReaderOk(c, h, epoch, bumped, Serve(r, data))
  {
  }

  lemma ServeCachedKeepsInv(s: State, reader: nat, s': State)
    requires Inv(s)
    requires CanServeCached(s, reader)
    requires s' == AfterServe(s, reader, CachedBody(s, reader))
    ensures Inv(s')
  {
    var r := s.readers[reader];
    var path := ReaderPath(r);
    assert FileOk(s.config, s.upstream, path, s.files[path]);
    var w: nat :| PageOfVersion(s.Hist(r.id), w, r.obj.etag, s.config.PageSizeOf(r.id), path.index, s.files[path]);
    assert ReaderOk(s.config, s.Hist(r.id), s.index.Gen(r.id), s.Bump(r.id), r);
    ServeKeepsInv(s, reader, w, s.files[path], s');
  }

  lemma ServeFetchedKeepsInv(s: State, reader: nat, s': State)
    requires Inv(s)
    requires CanServeFetched(s, reader)
    requires s' == AfterServe(s, reader, FetchedBody(s, reader))
    ensures Inv(s')
  {
    var r := s.readers[reader];
    var h, i := s.Hist(r.id), NextPage(r).index;
    assert ReaderOk(s.config, h, s.index.Gen(r.id), s.Bump(r.id), r);
    assert FreshPage(h, r.obj.etag, r.obj.pageSize, r.since, i, r.fetched[i]);
    var v: nat :| r.since <= v && PageOfVersion(h, v, r.obj.etag, r.obj.pageSize, i, r.fetched[i]);
    ServeKeepsInv(s, reader, v, r.fetched[i], s');
  }

  // ------------------------------------------- invalidation, removal, collection

  lemma InvalidateKeepsInv(s: State, id: ObjectId, minEpoch: nat, s': State)
    requires Inv(s)
    requires s' == AfterInvalidate(s, id, minEpoch)
    ensures Inv(s')
  {
    InvalidateKeepsFence(s.index, id, minEpoch);
    if s.index.Gen(id) == s.index.NextEpoch(id, minEpoch) {
      SameEpochs(s, s'.index.generations);
    } else {
      AdvanceKeepsInv(s, id, minEpoch, s');
    }
  }

  lemma AdvanceKeepsInv(s: State, id: ObjectId, minEpoch: nat, s': State)
    requires Inv(s)
    requires s.index.Gen(id) < s.index.NextEpoch(id, minEpoch)
    requires s' == AfterInvalidate(s, id, minEpoch)
    ensures Inv(s')
  {
    InvalidateKeepsFence(s.index, id, minEpoch);
    AdvanceKeepsCalls(s, id, minEpoch);
    AdvanceKeepsTables(s, id, minEpoch);
  }

  lemma AdvanceKeepsCalls(s: State, id: ObjectId, minEpoch: nat)
    requires Inv(s)
    requires s.index.Gen(id) < s.index.NextEpoch(id, minEpoch)
    ensures CallInv(AfterInvalidate(s, id, minEpoch))
  {
    var s' := AfterInvalidate(s, id, minEpoch);
    var epochs, bump := s'.index.generations, s'.bump;
    forall i
      ensures i == id ==> s.index.Gen(i) < EpochIn(epochs, i)
      ensures i != id ==> s.index.Gen(i) == EpochIn(epochs, i) && s.Bump(i) == BumpIn(bump, i)
    {
    }
    CallsUnderEpochs(s, epochs, bump);
    ReadersUnderEpochs(s, epochs, bump);
  }

  lemma AdvanceKeepsTables(s: State, id: ObjectId, minEpoch: nat)
    requires Inv(s)
    requires s.index.Gen(id) < s.index.NextEpoch(id, minEpoch)
    ensures
      var s' := AfterInvalidate(s, id, minEpoch);
      && RowsOk(s.config, s.upstream, s'.index.objects)
      && PagesOk(s.config, s.upstream, s'.bump, s'.source, s'.index.pages)
      && BumpsOk(s.upstream, s'.bump)
  {
    var s' := AfterInvalidate(s, id, minEpoch);
    InvalidateKeepsFence(s.index, id, minEpoch);
    forall k | k in s'.index.pages
      ensures k in s.index.pages && k.id != id
    {
      assert k.id == id ==> k in s'.index.PagesOf(id);
    }
  }

  lemma RemovePageKeepsInv(s: State, k: PageKey, s': State)
    requires Inv(s)
    requires s' == AfterDeletePage(s, k)
    ensures Inv(s')
  {
    DeletePageKeepsFence(s.index, k);
  }

  lemma TouchPageKeepsInv(s: State, k: PageKey, at: int, s': State)
    requires Inv(s)
    requires s' == AfterTouchPage(s, k, at)
    ensures Inv(s')
  {
    TouchPageKeepsPages(s, k, at);
  }

  lemma TouchPageKeepsPages(s: State, k: PageKey, at: int)
    requires StoreInv(s)
    ensures Fenced(s.index.TouchPage(k, at))
    ensures PagesOk(s.config, s.upstream, s.bump, s.source, s.index.TouchPage(k, at).pages)
  {
    if k in s.index.pages {
      var row := s.index.pages[k];
      assert PageOk(s.config, s.Hist(k.id), s.Bump(k.id), k, row, s.source[k]);
      assert PageOk(s.config, s.Hist(k.id), s.Bump(k.id), k, row.(accessedAt := at), s.source[k]);
    }
  }

  lemma RemoveFileKeepsInv(s: State, path: PagePath, s': State)
    requires Inv(s)
    requires s' == AfterRemoveFile(s, path)
    ensures Inv(s')
  {
  }

  lemma CollectObjectKeepsInv(s: State, id: ObjectId, s': State)
    requires Inv(s)
    requires s.index.PagesOf(id) == {}
    requires s' == AfterCollectObject(s, id)
    ensures Inv(s')
  {
    CollectObjectKeepsFence(s.index, id);
  }

  lemma CollectObjectKeepsFence(x: Index, id: ObjectId)
    requires Fenced(x)
    requires x.PagesOf(id) == {}
    ensures Fenced(x.CollectObject(id))
  {
    assert forall k :: k in x.pages && k.id == id ==> k in x.PagesOf(id);
  }

  lemma CollectGenerationKeepsInv(s: State, id: ObjectId, s': State)
    requires Inv(s)
    requires CanCollectGeneration(s, id) && CollectionIsSafe(s, id)
    requires s' == AfterCollectGeneration(s, id)
    ensures Inv(s')
  {
    CollectionKeepsFence(s.index, id);
    SafeCollection(s, id);
  }

  lemma CollectedGen(s: State, id: ObjectId, i: ObjectId)
    ensures EpochIn(AfterCollectGeneration(s, id).index.generations, i) == if i == id then 0 else s.index.Gen(i)
  {
  }

  lemma CollectedCalls(s: State, id: ObjectId)
    requires Inv(s)
    requires CollectionIsSafe(s, id)
    ensures
      var epochs := AfterCollectGeneration(s, id).index.generations;
      PutsOk(s.config, s.upstream, epochs, s.puts) && FillsOk(s.config, s.upstream, epochs, s.bump, s.fills)
  {
    var epochs := AfterCollectGeneration(s, id).index.generations;
    forall f | f in s.fills
      ensures FillOk(s.config, s.upstream, epochs, s.bump, s.fills[f])
    {
      CollectedGen(s, id, s.fills[f].k.id);
      assert FillOk(s.config, s.upstream, s.index.generations, s.bump, s.fills[f]);
    }
    forall t | t in s.puts
      ensures PutOk(s.config, s.upstream, epochs, s.puts[t])
    {
      CollectedGen(s, id, s.puts[t].id);
      assert PutOk(s.config, s.upstream, s.index.generations, s.puts[t]);
    }
  }

  lemma SafeCollection(s: State, id: ObjectId)
    requires Inv(s)
    requires CollectionIsSafe(s, id)
    ensures CallInv(AfterCollectGeneration(s, id))
  {
    var epochs := AfterCollectGeneration(s, id).index.generations;
    CollectedCalls(s, id);
    forall r | r in s.readers
      ensures ReaderOk(s.config, s.Hist(s.readers[r].id), EpochIn(epochs, s.readers[r].id),
          s.Bump(s.readers[r].id), s.readers[r])
    {
      var i := s.readers[r].id;
      CollectedGen(s, id, i);
      assert ReaderOk(s.config, s.Hist(i), s.index.Gen(i), s.Bump(i), s.readers[r]);
    }
  }

  /** The other half: a collection that keeps the invariant is a safe one. */
  lemma KeptCollectionIsSafe(s: State, id: ObjectId)
    requires CallInv(AfterCollectGeneration(s, id))
    ensures CollectionIsSafe(s, id)
  {
    var s' := AfterCollectGeneration(s, id);
    CollectedGen(s, id, id);
    forall f | f in s.fills && s.fills[f].k.id == id
      ensures s.fills[f].epoch == 0 && s.Bump(id) <= s.fills[f].version
    {
      assert FillOk(s'.config, s'.upstream, s'.index.generations, s'.bump, s'.fills[f]);
    }
    forall r | r in s.readers && s.readers[r].id == id
      ensures s.readers[r].obj.epoch == 0
    {
      assert ReaderOk(s'.config, s'.Hist(id), EpochIn(s'.index.generations, id), s'.Bump(id), s'.readers[r]);
    }
    forall t | t in s.puts && s.puts[t].PutRead? && s.puts[t].id == id
      ensures s.puts[t].epoch == 0
    {
      assert PutOk(s'.config, s'.upstream, s'.index.generations, s'.puts[t]);
    }
  }

  lemma CollectionKeepsFence(x: Index, id: ObjectId)
    requires Fenced(x)
    requires id !in x.objects
    ensures Fenced(x.CollectGeneration(id))
  {
    assert forall i :: i != id ==> x.CollectGeneration(id).Gen(i) == x.Gen(i);
  }

  lemma PutFailKeepsInv(s: State, put: nat, s': State)
    requires Inv(s)
    requires s' == AfterPutFail(s, put)
    ensures Inv(s')
  {
  }

  lemma DropFillKeepsInv(s: State, fill: nat, s': State)
    requires Inv(s)
    requires s' == AfterDropFill(s, fill)
    ensures Inv(s')
  {
  }

  lemma ReaderEndKeepsInv(s: State, reader: nat, s': State)
    requires Inv(s)
    requires s' == AfterReaderEnd(s, reader)
    ensures Inv(s')
  {
  }

  lemma RestartKeepsInv(s: State, s': State)
    requires Inv(s)
    requires s' == AfterRestart(s)
    ensures Inv(s')
  {
  }

  lemma WriterStepKeepsInv(s: State, a: Action, s': State)
    requires Inv(s)
    requires WriterStep(s, a, s')
    ensures Inv(s')
  {
    if a.UpstreamWrite? {
      WriteKeepsInv(s, a.id, a.version, s');
    } else if a.PutBegin? {
      PutBeginKeepsInv(s, a.put, a.id, a.etag, a.size, s');
    } else if a.PutReadEpoch? {
      PutReadEpochKeepsInv(s, a.put, s');
    } else if a.PutUpsert? {
      PutUpsertKeepsInv(s, a.put, a.internalIdentity, s');
    } else if a.PutFail? {
      PutFailKeepsInv(s, a.put, s');
    } else if a.BeginWrite? {
      BeginWriteKeepsInv(s, a.fill, s');
    } else if a.Rename? {
      RenameKeepsInv(s, a.fill, s');
    } else if a.CommitRow? {
      CommitRowKeepsInv(s, a.fill, a.now, s');
    } else {
      DropFillKeepsInv(s, a.fill, s');
    }
  }

  lemma ReaderStepKeepsInv(s: State, a: Action, s': State)
    requires Inv(s)
    requires ReaderStep(s, a, s')
    ensures Inv(s')
  {
    if a.Plan? {
      PlanKeepsInv(s, a.reader, a.id, a.range, s');
    } else if a.Fetch? {
      FetchKeepsInv(s, a.reader, a.fill, a.index, a.length, s');
    } else if a.Lookup? {
      LookupKeepsInv(s, a.reader, s');
    } else if a.ServeCached? {
      ServeCachedKeepsInv(s, a.reader, s');
    } else if a.ServeFetched? {
      ServeFetchedKeepsInv(s, a.reader, s');
    } else {
      ReaderEndKeepsInv(s, a.reader, s');
    }
  }

  lemma RemovalStepKeepsInv(s: State, a: Action, s': State)
    requires Inv(s)
    requires RemovalStep(s, a, s')
    ensures Inv(s')
  {
    if a.InvalidateObject? {
      InvalidateKeepsInv(s, a.id, a.minEpoch, s');
    } else if a.DeletePageRow? {
      RemovePageKeepsInv(s, a.k, s');
    } else if a.TouchPageRow? {
      TouchPageKeepsInv(s, a.k, a.at, s');
    } else if a.RemoveFile? {
      RemoveFileKeepsInv(s, a.path, s');
    } else if a.CollectObjectRow? {
      CollectObjectKeepsInv(s, a.id, s');
    } else if a.CollectGenerationRow? {
      CollectGenerationKeepsInv(s, a.id, s');
    } else {
      RestartKeepsInv(s, s');
    }
  }

  /** Every step keeps the invariant. */
  lemma StepKeepsInv(s: State, a: Action, s': State)
    requires Inv(s)
    requires Step(s, a, s')
    ensures Inv(s')
  {
    if WriterStep(s, a, s') {
      WriterStepKeepsInv(s, a, s');
    } else if ReaderStep(s, a, s') {
      ReaderStepKeepsInv(s, a, s');
    } else {
      RemovalStepKeepsInv(s, a, s');
    }
  }
}
