/** What the cache guarantees over whole runs: every interleaving, every length. */
module CacheRuns {
  import opened PageStreams
  import opened RangePlan
  import opened CacheIndex
  import opened CacheMachine
  import opened CacheSafety

  /** A cold cache in front of any upstream. */
  ghost predicate Init(s: State) {
    && s.index == Index(map[], map[], map[])
    && s.files == map[] && s.puts == map[] && s.fills == map[] && s.readers == map[]
    && s.bump == map[] && s.source == map[]
    && EtagsAgree(s.upstream)
  }

  ghost predicate IsRun(states: seq<State>, actions: seq<Action>) {
    && |states| == |actions| + 1
    && Init(states[0])
    && forall i {:trigger actions[i]} :: 0 <= i < |actions| ==> Step(states[i], actions[i], states[i + 1])
  }

  lemma {:induction false} RunKeepsInv(states: seq<State>, actions: seq<Action>, i: nat)
    requires IsRun(states, actions)
    requires i < |states|
    ensures Inv(states[i])
  {
    if i > 0 {
      RunKeepsInv(states, actions, i - 1);
      StepKeepsInv(states[i - 1], actions[i - 1], states[i]);
    }
  }

  /** The epoch fence: a page row belongs to an object row, carries the object's
      generation, and no object row is ahead of its generation. */
  lemma EpochFence(states: seq<State>, actions: seq<Action>, i: nat)
    requires IsRun(states, actions)
    requires i < |states|
    ensures Fenced(states[i].index)
  {
    RunKeepsInv(states, actions, i);
  }

  // ------------------------------------------------------- no mixed versions

  /** These bytes are exactly the range of version `v`, which has this etag. */
  ghost predicate SliceOf(sent: seq<byte>, h: History, v: nat, etag: string, range: ByteRange) {
    && IsVersion(h, v, etag)
    && 0 <= range.start <= range.end < |h[v].body|
    && sent == h[v].body[range.start..range.end + 1]
  }

  ghost predicate SentSliceOf(r: Reader, h: History, v: nat) {
    SliceOf(r.sent, h, v, r.obj.etag, r.range)
  }

  lemma CompleteReader(s: State, reader: nat, v: nat)
    requires Inv(s)
    requires reader in s.readers
    requires s.readers[reader].served == |s.readers[reader].spans|
    requires IsVersion(s.Hist(s.readers[reader].id), v, s.readers[reader].obj.etag)
    ensures SentSliceOf(s.readers[reader], s.Hist(s.readers[reader].id), v)
  {
    var r := s.readers[reader];
    var h := s.Hist(r.id);
    assert ReaderOk(s.config, h, s.index.Gen(r.id), s.Bump(r.id), r);
    var w: nat :| SentFrom(r, h, w);
    assert h[w].body == h[v].body;
    assert Cut(r) == r.range.end + 1;
  }

  lemma CompleteReaderSlices(states: seq<State>, actions: seq<Action>, i: nat, reader: nat)
    requires IsRun(states, actions)
    requires i < |states|
    requires reader in states[i].readers
    requires states[i].readers[reader].served == |states[i].readers[reader].spans|
    ensures
      var r := states[i].readers[reader];
      var h := states[i].Hist(r.id);
      && (exists v: nat :: SentSliceOf(r, h, v))
      && (forall v: nat :: IsVersion(h, v, r.obj.etag) ==> SentSliceOf(r, h, v))
  {
    RunKeepsInv(states, actions, i);
    var s := states[i];
    var r := s.readers[reader];
    var h := s.Hist(r.id);
    assert ReaderOk(s.config, h, s.index.Gen(r.id), s.Bump(r.id), r);
    var w: nat :| SentFrom(r, h, w);
    CompleteReader(s, reader, w);
    forall v: nat | IsVersion(h, v, r.obj.etag)
      ensures SentSliceOf(r, h, v)
    {
      CompleteReader(s, reader, v);
    }
  }

  lemma ReaderPersists(s: State, a: Action, s': State, reader: nat)
    requires Step(s, a, s')
    requires reader in s.readers && reader in s'.readers
    ensures s'.readers[reader].id == s.readers[reader].id
    ensures s'.readers[reader].obj == s.readers[reader].obj
    ensures s'.readers[reader].range == s.readers[reader].range
    ensures s'.readers[reader].since == s.readers[reader].since
  {
    if WriterStep(s, a, s') {
      WriterFrame(s, a, s', s.readers[reader].id);
    } else if RemovalStep(s, a, s') {
      RemovalFrame(s, a, s');
    } else if a.Plan? {}
    else if a.Fetch? {}
    else if a.Lookup? {}
    else if a.ServeCached? {}
    else if a.ServeFetched? {}
    else {}
  }

  /** The GET planned by step `j` is still open in state `n`. */
  ghost predicate OpenSincePlan(states: seq<State>, actions: seq<Action>, j: nat, n: nat, reader: nat, id: ObjectId,
        range: ByteRange)
    requires IsRun(states, actions)
  {
    && j < n < |states|
    && actions[j] == Plan(reader, id, range)
    && forall m :: j < m <= n ==> reader in states[m].readers
  }

  /** A GET goes on with the range it was asked for and with the object row that
      was there when it was planned. */
  lemma {:induction false} PlanIsKept(states: seq<State>, actions: seq<Action>, j: nat, n: nat, reader: nat,
        id: ObjectId, range: ByteRange)
    requires IsRun(states, actions)
    requires OpenSincePlan(states, actions, j, n, reader, id, range)
    ensures id in states[j].index.objects
    ensures
      var r := states[n].readers[reader];
      r.id == id && r.range == range && r.obj == states[j].index.objects[id] && r.since == states[j].Bump(id)
    decreases n
  {
    assert Step(states[j], actions[j], states[j + 1]);
    if j + 1 < n {
      PlanIsKept(states, actions, j, n - 1, reader, id, range);
      ReaderPersists(states[n - 1], actions[n - 1], states[n], reader);
    }
  }

  lemma OnlyPlanOpens(s: State, a: Action, s': State, reader: nat)
    requires Step(s, a, s')
    requires reader !in s.readers && reader in s'.readers
    ensures a.Plan? && a.reader == reader && a.id == s'.readers[reader].id && a.range == s'.readers[reader].range
  {
    if WriterStep(s, a, s') {
      WriterFrame(s, a, s', s'.readers[reader].id);
    } else if RemovalStep(s, a, s') {
      RemovalFrame(s, a, s');
    } else if a.Plan? {}
    else if a.Fetch? {}
    else if a.Lookup? {}
    else if a.ServeCached? {}
    else if a.ServeFetched? {}
    else {}
  }

  /** Every open GET was planned, for the object and the range it serves. */
  lemma {:induction false} ReaderWasPlanned(states: seq<State>, actions: seq<Action>, n: nat, reader: nat)
      returns (j: nat)
    requires IsRun(states, actions)
    requires n < |states| && reader in states[n].readers
    ensures OpenSincePlan(states, actions, j, n, reader, states[n].readers[reader].id, states[n].readers[reader].range)
    decreases n
  {
    assert n > 0;
    if reader in states[n - 1].readers {
      j := ReaderWasPlanned(states, actions, n - 1, reader);
      ReaderPersists(states[n - 1], actions[n - 1], states[n], reader);
    } else {
      j := n - 1;
      OnlyPlanOpens(states[j], actions[j], states[n], reader);
    }
  }

  /** A GET that ends without error has sent the range it was asked for, of one
      single upstream version: the one named by the etag that the object row had
      when the GET was planned. Whatever else ran between its pages, no byte of
      another version is in it. */
  lemma NoMixedVersions(states: seq<State>, actions: seq<Action>, j: nat, n: nat, reader: nat, id: ObjectId,
        range: ByteRange)
    requires IsRun(states, actions)
    requires OpenSincePlan(states, actions, j, n, reader, id, range)
    requires states[n].readers[reader].served == |states[n].readers[reader].spans|
    ensures id in states[j].index.objects
    ensures
      var etag := states[j].index.objects[id].etag;
      var h := states[n].Hist(id);
      var sent := states[n].readers[reader].sent;
      && (exists v: nat :: SliceOf(sent, h, v, etag, range))
      && (forall v: nat :: IsVersion(h, v, etag) ==> SliceOf(sent, h, v, etag, range))
  {
    PlanIsKept(states, actions, j, n, reader, id, range);
    CompleteReaderSlices(states, actions, n, reader);
    var r := states[n].readers[reader];
    var h := states[n].Hist(id);
    var v: nat :| SentSliceOf(r, h, v);
    assert SliceOf(r.sent, h, v, r.obj.etag, range);
    forall v: nat | IsVersion(h, v, r.obj.etag)
      ensures SliceOf(r.sent, h, v, r.obj.etag, range)
    {
      assert SentSliceOf(r, h, v);
    }
  }

  /** A page file only ever holds the page of the version in its name, even
      when the writer that renamed it into place then lost its commit. */
  lemma FilesNameTheirContent(states: seq<State>, actions: seq<Action>, i: nat, path: PagePath, v: nat)
    requires IsRun(states, actions)
    requires i < |states|
    requires path in states[i].files
    requires IsVersion(states[i].Hist(path.id), v, path.etag)
    ensures PageOfVersion(states[i].Hist(path.id), v, path.etag, states[i].config.PageSizeOf(path.id),
        path.index, states[i].files[path])
  {
    RunKeepsInv(states, actions, i);
    var s := states[i];
    assert FileOk(s.config, s.upstream, path, s.files[path]);
    var w: nat :| PageOfVersion(s.Hist(path.id), w, path.etag, s.config.PageSizeOf(path.id), path.index, s.files[path]);
    assert s.Hist(path.id)[w].body == s.Hist(path.id)[v].body;
  }

  // ----------------------------------------------------------------- freshness

  // What each kind of step leaves alone.

  lemma WriterFrame(s: State, a: Action, s': State, id: ObjectId)
    requires WriterStep(s, a, s')
    ensures s'.bump == s.bump && s'.readers == s.readers
    ensures s.Hist(id) <= s'.Hist(id)
    ensures s'.index.Gen(id) == s.index.Gen(id)
  {
    if a.UpstreamWrite? {}
    else if a.PutBegin? {}
    else if a.PutReadEpoch? {}
    else if a.PutUpsert? {}
    else if a.PutFail? {}
    else if a.BeginWrite? {}
    else if a.Rename? {}
    else if a.CommitRow? {}
    else {}
  }

  lemma ReaderFrame(s: State, a: Action, s': State)
    requires ReaderStep(s, a, s')
    ensures s'.bump == s.bump && s'.upstream == s.upstream && s'.index == s.index
  {
    if a.Plan? {}
    else if a.Fetch? {}
    else if a.Lookup? {}
    else if a.ServeCached? {}
    else if a.ServeFetched? {}
    else {}
  }

  lemma RemovalFrame(s: State, a: Action, s': State)
    requires RemovalStep(s, a, s')
    ensures s'.upstream == s.upstream
    ensures if a.Restart? then s'.readers == map[] && s'.fills == map[]
        else s'.readers == s.readers && s'.fills == s.fills
    ensures a.InvalidateObject? || s'.bump == s.bump
    ensures a.InvalidateObject? || a.CollectGenerationRow? || s'.index.generations == s.index.generations
  {
    if a.InvalidateObject? {}
    else if a.DeletePageRow? {}
    else if a.TouchPageRow? {}
    else if a.RemoveFile? {}
    else if a.CollectObjectRow? {}
    else if a.CollectGenerationRow? {}
    else {}
  }

  lemma InvalidateBumps(s: State, id: ObjectId, minEpoch: nat, other: ObjectId)
    requires s.Bump(other) <= Newest(s.Hist(other))
    ensures s.Bump(other) <= AfterInvalidate(s, id, minEpoch).Bump(other)
  {
  }

  /** History only grows, and so does the mark left by the last advance. */
  lemma StepAdvances(s: State, a: Action, s': State, id: ObjectId)
    requires BumpsOk(s.upstream, s.bump)
    requires Step(s, a, s')
    ensures s.Hist(id) <= s'.Hist(id)
    ensures s.Bump(id) <= s'.Bump(id)
  {
    if WriterStep(s, a, s') {
      WriterFrame(s, a, s', id);
    } else if ReaderStep(s, a, s') {
      ReaderFrame(s, a, s');
    } else {
      RemovalFrame(s, a, s');
      if a.InvalidateObject? {
        InvalidateBumps(s, a.id, a.minEpoch, id);
      }
    }
  }

  lemma {:induction false} RunAdvances(states: seq<State>, actions: seq<Action>, i: nat, j: nat, id: ObjectId)
    requires IsRun(states, actions)
    requires i <= j < |states|
    ensures states[i].Hist(id) <= states[j].Hist(id)
    ensures states[i].Bump(id) <= states[j].Bump(id)
    decreases j
  {
    if i < j {
      RunAdvances(states, actions, i, j - 1, id);
      RunKeepsInv(states, actions, j - 1);
      StepAdvances(states[j - 1], actions[j - 1], states[j], id);
    }
  }

  /** The mark after a local invalidation is the version then newest. */
  lemma InvalidationMarks(states: seq<State>, actions: seq<Action>, i: nat, j: nat, id: ObjectId)
    requires IsRun(states, actions)
    requires i < j < |states|
    requires actions[i] == InvalidateObject(id, 0)
    ensures Newest(states[i].Hist(id)) <= states[j].Bump(id)
  {
    assert Step(states[i], actions[i], states[i + 1]);
    assert states[i + 1] == AfterInvalidate(states[i], id, 0);
    RunAdvances(states, actions, i + 1, j, id);
  }

  /** After a local invalidation every page row of the object that exists at any
      later time holds bytes that were read from upstream at or after the write
      which was newest then: in-flight fills and raced metadata cannot put older
      bytes back. */
  lemma FreshAfterInvalidation(states: seq<State>, actions: seq<Action>, i: nat, j: nat, k: PageKey)
    requires IsRun(states, actions)
    requires i < j < |states|
    requires actions[i] == InvalidateObject(k.id, 0)
    requires k in states[j].index.pages
    ensures
      var s, row := states[j], states[j].index.pages[k];
      var path := PathOf(k, row);
      && k in s.source
      && Newest(states[i].Hist(k.id)) <= s.source[k]
      && IsVersion(s.Hist(k.id), s.source[k], row.etag)
      && (path in s.files ==> PageOfVersion(s.Hist(k.id), s.source[k], row.etag, s.config.PageSizeOf(k.id),
          k.index, s.files[path]))
  {
    InvalidationMarks(states, actions, i, j, k.id);
    RunKeepsInv(states, actions, j);
    var s, row := states[j], states[j].index.pages[k];
    assert PageOk(s.config, s.Hist(k.id), s.Bump(k.id), k, row, s.source[k]);
    if PathOf(k, row) in s.files {
      FilesNameTheirContent(states, actions, j, PathOf(k, row), s.source[k]);
    }
  }

  lemma CompleteReaderIsFresh(s: State, reader: nat)
    requires Inv(s)
    requires reader in s.readers
    requires s.readers[reader].served == |s.readers[reader].spans|
    ensures
      var r := s.readers[reader];
      exists v: nat :: r.since <= v && SentSliceOf(r, s.Hist(r.id), v)
  {
    var r := s.readers[reader];
    assert ReaderOk(s.config, s.Hist(r.id), s.index.Gen(r.id), s.Bump(r.id), r);
    var v: nat :| r.since <= v && IsVersion(s.Hist(r.id), v, r.obj.etag);
    CompleteReader(s, reader, v);
  }

  lemma CompleteReaderInRun(states: seq<State>, actions: seq<Action>, n: nat, reader: nat) returns (v: nat)
    requires IsRun(states, actions)
    requires n < |states|
    requires reader in states[n].readers
    requires states[n].readers[reader].served == |states[n].readers[reader].spans|
    ensures states[n].readers[reader].since <= v
    ensures SentSliceOf(states[n].readers[reader], states[n].Hist(states[n].readers[reader].id), v)
  {
    RunKeepsInv(states, actions, n);
    CompleteReaderIsFresh(states[n], reader);
    v :| states[n].readers[reader].since <= v
      && SentSliceOf(states[n].readers[reader], states[n].Hist(states[n].readers[reader].id), v);
  }

  /** Read your writes. A GET that is planned after a local invalidation, and
      ends without error, has sent the range it was asked for, of a version that
      is the one then newest or a later one. */
  lemma ReadYourWrites(states: seq<State>, actions: seq<Action>, i: nat, j: nat, n: nat, reader: nat,
        id: ObjectId, range: ByteRange)
    requires IsRun(states, actions)
    requires i < j && OpenSincePlan(states, actions, j, n, reader, id, range)
    requires actions[i] == InvalidateObject(id, 0)
    requires states[n].readers[reader].served == |states[n].readers[reader].spans|
    ensures id in states[j].index.objects
    ensures exists v: nat ::
      && Newest(states[i].Hist(id)) <= v
      && SliceOf(states[n].readers[reader].sent, states[n].Hist(id), v, states[j].index.objects[id].etag, range)
  {
    InvalidationMarks(states, actions, i, j, id);
    PlanIsKept(states, actions, j, n, reader, id, range);
    var v := CompleteReaderInRun(states, actions, n, reader);
    assert SliceOf(states[n].readers[reader].sent, states[n].Hist(id), v, states[j].index.objects[id].etag, range);
  }

  // --------------------------------------------------------- where rows come from

  /** The same row, whenever it was last used. */
  ghost predicate SameRow(p: PageRow, q: PageRow) {
    p.etag == q.etag && p.epoch == q.epoch && p.size == q.size
  }

  lemma WriterTables(s: State, a: Action, s': State)
    requires WriterStep(s, a, s')
    ensures a.PutUpsert? || s'.index.objects == s.index.objects
    ensures a.CommitRow? || s'.index.pages == s.index.pages
  {
    if a.UpstreamWrite? {}
    else if a.PutBegin? {}
    else if a.PutReadEpoch? {}
    else if a.PutUpsert? {}
    else if a.PutFail? {}
    else if a.BeginWrite? {}
    else if a.Rename? {}
    else if a.CommitRow? {}
    else {}
  }

  lemma RemovalTables(s: State, a: Action, s': State)
    requires RemovalStep(s, a, s')
    ensures forall id :: id in s'.index.objects ==> id in s.index.objects && s'.index.objects[id] == s.index.objects[id]
    ensures forall k :: k in s'.index.pages ==> k in s.index.pages && SameRow(s.index.pages[k], s'.index.pages[k])
  {
    if a.InvalidateObject? {
      InvalidationExactly(s.index, a.id, a.minEpoch);
    } else if a.DeletePageRow? {}
    else if a.TouchPageRow? {}
    else if a.RemoveFile? {}
    else if a.CollectObjectRow? {}
    else if a.CollectGenerationRow? {}
    else {}
  }

  /** The row that a PutObject call writes. */
  ghost predicate WrittenBy(s: State, a: Action, id: ObjectId, row: ObjectRow) {
    && a.PutUpsert? && a.put in s.puts && s.puts[a.put].PutRead?
    && var p := s.puts[a.put];
    && p.id == id
    && row == ObjectRow(p.etag, p.size, s.config.PageSizeOf(id), a.internalIdentity, p.epoch)
  }

  lemma ObjectRowStep(s: State, a: Action, s': State, id: ObjectId)
    requires Step(s, a, s')
    requires id in s'.index.objects
    requires id in s.index.objects ==> s'.index.objects[id] != s.index.objects[id]
    ensures WrittenBy(s, a, id, s'.index.objects[id])
  {
    if WriterStep(s, a, s') {
      WriterTables(s, a, s');
      if a.PutUpsert? {}
    } else if ReaderStep(s, a, s') {
      ReaderFrame(s, a, s');
    } else {
      RemovalTables(s, a, s');
    }
  }

  /** An object row that is there after a local invalidation was written by a
      PutObject call that reached its upsert later: the invalidation leaves none. */
  lemma {:induction false} ObjectRowIsNewer(states: seq<State>, actions: seq<Action>, i: nat, n: nat, id: ObjectId)
      returns (m: nat)
    requires IsRun(states, actions)
    requires i < n < |states|
    requires actions[i] == InvalidateObject(id, 0)
    requires id in states[n].index.objects
    ensures i < m < n
    ensures WrittenBy(states[m], actions[m], id, states[n].index.objects[id])
    ensures forall t :: m < t <= n ==>
      id in states[t].index.objects && states[t].index.objects[id] == states[n].index.objects[id]
    decreases n
  {
    assert Step(states[n - 1], actions[n - 1], states[n]);
    if i == n - 1 {
      InvalidationExactly(states[i].index, id, 0);
      assert false;
    } else if id in states[n - 1].index.objects && states[n].index.objects[id] == states[n - 1].index.objects[id] {
      m := ObjectRowIsNewer(states, actions, i, n - 1, id);
    } else {
      m := n - 1;
      ObjectRowStep(states[m], actions[m], states[n], id);
    }
  }

  /** The commit of a fill whose etag and epoch are those that the object has at
      that moment, and nothing else, inserts this row. */
  ghost predicate CommittedBy(s: State, a: Action, k: PageKey, etag: string, epoch: nat, size: nat) {
    && a.CommitRow? && a.fill in s.fills
    && s.fills[a.fill].k == k && |s.fills[a.fill].data| == size
    && s.fills[a.fill].etag == etag && s.fills[a.fill].epoch == epoch
    && k.id in s.index.objects && s.index.objects[k.id].etag == etag
    && k.id in s.index.generations && s.index.generations[k.id] == epoch
  }

  lemma PageRowStep(s: State, a: Action, s': State, k: PageKey)
    requires Step(s, a, s')
    requires k in s'.index.pages
    requires k in s.index.pages ==> !SameRow(s.index.pages[k], s'.index.pages[k])
    ensures
      var row := s'.index.pages[k];
      CommittedBy(s, a, k, row.etag, row.epoch, row.size)
  {
    if WriterStep(s, a, s') {
      WriterTables(s, a, s');
      if a.CommitRow? {}
    } else if ReaderStep(s, a, s') {
      ReaderFrame(s, a, s');
    } else {
      RemovalTables(s, a, s');
    }
  }

  /** Every page row was inserted by a commit that found its own etag and epoch in
      the tables: a fill with another etag than the object row never inserts. */
  lemma {:induction false} PageRowWasCurrent(states: seq<State>, actions: seq<Action>, n: nat, k: PageKey)
      returns (m: nat)
    requires IsRun(states, actions)
    requires n < |states| && k in states[n].index.pages
    ensures m < n
    ensures
      var row := states[n].index.pages[k];
      CommittedBy(states[m], actions[m], k, row.etag, row.epoch, row.size)
    decreases n
  {
    assert n > 0;
    if k in states[n - 1].index.pages && SameRow(states[n - 1].index.pages[k], states[n].index.pages[k]) {
      m := PageRowWasCurrent(states, actions, n - 1, k);
    } else {
      m := n - 1;
      PageRowStep(states[m], actions[m], states[n], k);
    }
  }

  // -------------------------------------------------------------- stale writers

  /** Whatever advances a generation removes all pages of that object. */
  lemma AdvanceRemovesPages(s: State, a: Action, s': State, id: ObjectId)
    requires Fenced(s.index)
    requires Step(s, a, s')
    requires s.index.Gen(id) < s'.index.Gen(id)
    ensures s'.index.PagesOf(id) == {}
  {
    if WriterStep(s, a, s') {
      WriterFrame(s, a, s', id);
    } else if ReaderStep(s, a, s') {
      ReaderFrame(s, a, s');
    } else {
      RemovalFrame(s, a, s');
      if a.InvalidateObject? {
        InvalidateKeepsFence(s.index, a.id, a.minEpoch);
      }
    }
  }

  /** Generations do not fall unless they are collected. */
  lemma GenerationHolds(s: State, a: Action, s': State, fill: nat)
    requires Fenced(s.index)
    requires Step(s, a, s')
    requires fill in s.fills && a != CollectGenerationRow(s.fills[fill].k.id)
    ensures s.index.Gen(s.fills[fill].k.id) <= s'.index.Gen(s.fills[fill].k.id)
  {
    if WriterStep(s, a, s') {
      WriterFrame(s, a, s', s.fills[fill].k.id);
    } else if ReaderStep(s, a, s') {
      ReaderFrame(s, a, s');
    } else {
      RemovalFrame(s, a, s');
      if a.InvalidateObject? {
        InvalidateKeepsFence(s.index, a.id, a.minEpoch);
      }
    }
  }

  lemma FillPersists(s: State, a: Action, s': State, fill: nat)
    requires Step(s, a, s')
    requires fill in s.fills && fill in s'.fills
    ensures s'.fills[fill].k == s.fills[fill].k && s'.fills[fill].epoch == s.fills[fill].epoch
  {
    if WriterStep(s, a, s') {
      if a.UpstreamWrite? {}
      else if a.PutBegin? {}
      else if a.PutReadEpoch? {}
      else if a.PutUpsert? {}
      else if a.PutFail? {}
      else if a.BeginWrite? {}
      else if a.Rename? {}
      else if a.CommitRow? {}
      else {}
    } else if RemovalStep(s, a, s') {
      RemovalFrame(s, a, s');
    } else if a.Plan? {}
    else if a.Fetch? {}
    else if a.Lookup? {}
    else if a.ServeCached? {}
    else if a.ServeFetched? {}
    else {}
  }

  lemma FillInRun(states: seq<State>, actions: seq<Action>, j: nat, fill: nat)
    requires IsRun(states, actions)
    requires 0 < j < |states|
    requires fill in states[j - 1].fills && fill in states[j].fills
    requires actions[j - 1] != CollectGenerationRow(states[j - 1].fills[fill].k.id)
    ensures states[j].fills[fill].k == states[j - 1].fills[fill].k
    ensures states[j].fills[fill].epoch == states[j - 1].fills[fill].epoch
    ensures states[j - 1].index.Gen(states[j].fills[fill].k.id) <= states[j].index.Gen(states[j].fills[fill].k.id)
  {
    RunKeepsInv(states, actions, j - 1);
    FillPersists(states[j - 1], actions[j - 1], states[j], fill);
    GenerationHolds(states[j - 1], actions[j - 1], states[j], fill);
  }

  /** A writer whose epoch is behind while it is open stays behind for as long as
      it is open and the generation of its object is not collected, so its commit
      can only lose. */
  lemma {:induction false} StaleWriterNeverCommits(states: seq<State>, actions: seq<Action>, i: nat, j: nat, fill: nat)
    requires IsRun(states, actions)
    requires i <= j < |states|
    requires forall m :: i <= m <= j ==> fill in states[m].fills
    requires forall m :: i <= m < j ==> actions[m] != CollectGenerationRow(states[i].fills[fill].k.id)
    requires states[i].fills[fill].epoch < states[i].index.Gen(states[i].fills[fill].k.id)
    ensures states[j].fills[fill].k == states[i].fills[fill].k
    ensures states[j].fills[fill].epoch < states[j].index.Gen(states[j].fills[fill].k.id)
    ensures !FillCanCommit(states[j], fill)
    decreases j
  {
    if i < j {
      StaleWriterNeverCommits(states, actions, i, j - 1, fill);
      FillInRun(states, actions, j, fill);
    }
  }
}
