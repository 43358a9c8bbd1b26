/** Collecting a generation row resets the epoch of an object to 0. When that is
    safe, and what goes wrong in all other cases. */
module CacheCollection {
  import opened PageStreams
  import opened CacheIndex
  import opened CacheMachine
  import opened CacheSafety

  /** What the cache promises of its tables: the epoch fence, and no page that was
      read before the last advance of its object. */
  ghost predicate Healthy(s: State) {
    && Fenced(s.index)
    && forall k :: k in s.index.pages ==> k in s.source && s.Bump(k.id) <= s.source[k]
  }

  /** Any steps, from any state. */
  ghost predicate IsPath(states: seq<State>, actions: seq<Action>) {
    && |states| == |actions| + 1
    && forall i {:trigger actions[i]} :: 0 <= i < |actions| ==> Step(states[i], actions[i], states[i + 1])
  }

  function Last(states: seq<State>): State
    requires states != []
  {
    states[|states| - 1]
  }

  lemma Extend(states: seq<State>, actions: seq<Action>, a: Action, s: State)
      returns (states': seq<State>, actions': seq<Action>)
    requires IsPath(states, actions) && Step(Last(states), a, s)
    ensures IsPath(states', actions') && states'[0] == states[0] && Last(states') == s
  {
    states', actions' := states + [s], actions + [a];
  }

  lemma InvIsHealthy(s: State)
    requires Inv(s)
    ensures Healthy(s)
  {
    forall k | k in s.index.pages
      ensures k in s.source && s.Bump(k.id) <= s.source[k]
    {
      assert PageOk(s.config, s.Hist(k.id), s.Bump(k.id), k, s.index.pages[k], s.source[k]);
    }
  }

  lemma {:induction false} PathKeepsInv(states: seq<State>, actions: seq<Action>, i: nat)
    requires IsPath(states, actions) && i < |states|
    requires Inv(states[0])
    ensures Inv(states[i])
  {
    if i > 0 {
      PathKeepsInv(states, actions, i - 1);
      StepKeepsInv(states[i - 1], actions[i - 1], states[i]);
    }
  }

  // ------------------------------------------------------- committing a stale fill

  /** A fill that was read before the last advance and yet has the current epoch. */
  ghost predicate IsRevived(s: State, fill: nat) {
    && fill in s.fills
    && var f := s.fills[fill];
    && s.config.PageSizeOf(f.k.id) > 0
    && IsVersion(s.Hist(f.k.id), f.version, f.etag)
    && s.index.Gen(f.k.id) == f.epoch
    && f.version < s.Bump(f.k.id)
  }

  /** It has become committable. */
  ghost predicate IsArmed(s: State, fill: nat) {
    && fill in s.fills
    && FillCanCommit(s, fill)
    && s.fills[fill].version < s.Bump(s.fills[fill].k.id)
  }

  lemma FreshName(used: set<nat>) returns (n: nat)
    ensures n !in used
  {
    n := Above(used);
  }

  lemma {:induction false} Above(used: set<nat>) returns (n: nat)
    ensures forall x :: x in used ==> x < n
    decreases |used|
  {
    n := 0;
    if used != {} {
      var x :| x in used;
      var m := Above(used - {x});
      n := if x < m then m else x + 1;
      assert forall y :: y in used ==> y == x || y in used - {x};
    }
  }

  /** PutObject with metadata of the version that the fill was read from. */
  lemma ArmRevived(states: seq<State>, actions: seq<Action>, fill: nat)
      returns (states': seq<State>, actions': seq<Action>)
    requires IsPath(states, actions) && IsRevived(Last(states), fill)
    ensures IsPath(states', actions') && states'[0] == states[0] && IsArmed(Last(states'), fill)
  {
    var s := Last(states);
    var f := s.fills[fill];
    var id, size := f.k.id, |s.Hist(f.k.id)[f.version].body|;
    var put := FreshName(s.puts.Keys);
    assert Known(s.Hist(id), f.etag, size);
    var s1 := AfterPutBegin(s, put, id, f.etag, size);
    assert WriterStep(s, PutBegin(put, id, f.etag, size), s1);
    states', actions' := Extend(states, actions, PutBegin(put, id, f.etag, size), s1);
    var s2 := AfterPutReadEpoch(s1, put);
    assert WriterStep(s1, PutReadEpoch(put), s2);
    states', actions' := Extend(states', actions', PutReadEpoch(put), s2);
    var s3 := AfterPutUpsert(s2, put, false);
    assert WriterStep(s2, PutUpsert(put, false), s3);
    states', actions' := Extend(states', actions', PutUpsert(put, false), s3);
  }

  /** Then the writer goes through its remaining phases and commits. */
  lemma CommitArmed(states: seq<State>, actions: seq<Action>, fill: nat)
      returns (states': seq<State>, actions': seq<Action>)
    requires IsPath(states, actions) && IsArmed(Last(states), fill)
    ensures IsPath(states', actions') && states'[0] == states[0] && !Healthy(Last(states'))
  {
    states', actions' := states, actions;
    var s := Last(states);
    if s.fills[fill].phase == Fetched {
      var next := AfterBeginWrite(s, fill);
      assert WriterStep(s, BeginWrite(fill), next);
      states', actions' := Extend(states', actions', BeginWrite(fill), next);
      s := next;
    }
    if s.fills[fill].phase == Writing {
      var next := AfterRename(s, fill);
      assert WriterStep(s, Rename(fill), next);
      states', actions' := Extend(states', actions', Rename(fill), next);
      s := next;
    }
    var next := AfterCommitRow(s, fill, 0);
    assert WriterStep(s, CommitRow(fill, 0), next);
    states', actions' := Extend(states', actions', CommitRow(fill, 0), next);
    assert s.fills[fill].k in next.index.pages;
  }

  lemma CommitRevived(states: seq<State>, actions: seq<Action>, fill: nat)
      returns (states': seq<State>, actions': seq<Action>)
    requires IsPath(states, actions) && IsRevived(Last(states), fill)
    ensures IsPath(states', actions') && states'[0] == states[0] && !Healthy(Last(states'))
  {
    states', actions' := ArmRevived(states, actions, fill);
    states', actions' := CommitArmed(states', actions', fill);
  }

  // ---------------------------------------------------------- calls that are ahead

  /** A fill of an epoch that its object has yet to reach. */
  ghost predicate IsAhead(s: State, fill: nat) {
    && fill in s.fills
    && var f := s.fills[fill];
    && s.config.PageSizeOf(f.k.id) > 0
    && IsVersion(s.Hist(f.k.id), f.version, f.etag)
    && s.index.Gen(f.k.id) == 0 < f.epoch
  }

  /** A write that the fill has not seen, and invalidations up to its epoch, the
      last of them for that write. */
  lemma ReachAhead(states: seq<State>, actions: seq<Action>, fill: nat)
      returns (states': seq<State>, actions': seq<Action>)
    requires IsPath(states, actions) && IsAhead(Last(states), fill)
    ensures IsPath(states', actions') && states'[0] == states[0] && IsRevived(Last(states'), fill)
  {
    var s := Last(states);
    var f := s.fills[fill];
    var id := f.k.id;
    var s1 := AfterWrite(s, id, Deleted);
    assert WriterStep(s, UpstreamWrite(id, Deleted), s1);
    states', actions' := Extend(states, actions, UpstreamWrite(id, Deleted), s1);
    if f.epoch > 1 {
      var s2 := AfterInvalidate(s1, id, f.epoch - 1);
      assert RemovalStep(s1, InvalidateObject(id, f.epoch - 1), s2);
      states', actions' := Extend(states', actions', InvalidateObject(id, f.epoch - 1), s2);
      s1 := s2;
    }
    var s3 := AfterInvalidate(s1, id, 0);
    assert RemovalStep(s1, InvalidateObject(id, 0), s3);
    states', actions' := Extend(states', actions', InvalidateObject(id, 0), s3);
  }

  /** A reader that is ahead makes a fill that is ahead, once upstream has its
      version again. */
  lemma FetchAhead(states: seq<State>, actions: seq<Action>, reader: nat, v: nat)
      returns (states': seq<State>, actions': seq<Action>, fill: nat)
    requires IsPath(states, actions)
    requires
      var s := Last(states);
      && reader in s.readers
      && var r := s.readers[reader];
      && r.obj.pageSize == s.config.PageSizeOf(r.id) > 0
      && EtagsAgree(s.upstream)
      && IsVersion(s.Hist(r.id), v, r.obj.etag) && |s.Hist(r.id)[v].body| > 0
      && s.index.Gen(r.id) == 0 < r.obj.epoch
    ensures IsPath(states', actions') && states'[0] == states[0] && IsAhead(Last(states'), fill)
  {
    var s := Last(states);
    var r := s.readers[reader];
    var version := s.Hist(r.id)[v];
    var s1 := AfterWrite(s, r.id, version);
    assert WriterStep(s, UpstreamWrite(r.id, version), s1);
    states', actions' := Extend(states, actions, UpstreamWrite(r.id, version), s1);
    fill := FreshName(s1.fills.Keys);
    assert Newest(s1.Hist(r.id)) == |s.Hist(r.id)| && s1.Hist(r.id)[|s.Hist(r.id)|] == version;
    var length := |PageBytes(version.body, r.obj.pageSize, 0)|;
    var s2 := AfterFetch(s1, reader, fill, 0, length);
    assert ReaderStep(s1, Fetch(reader, fill, 0, length), s2);
    states', actions' := Extend(states', actions', Fetch(reader, fill, 0, length), s2);
  }

  // ------------------------------------------------------------- the exact result

  lemma AheadPutBreaks(s: State, id: ObjectId, t: nat) returns (states: seq<State>, actions: seq<Action>)
    requires t in s.puts && s.puts[t].PutRead? && s.puts[t].id == id && s.puts[t].epoch != 0
    ensures IsPath(states, actions) && states[0] == AfterCollectGeneration(s, id) && !Healthy(Last(states))
  {
    var s1 := AfterCollectGeneration(s, id);
    var s2 := AfterPutUpsert(s1, t, false);
    assert WriterStep(s1, PutUpsert(t, false), s2);
    states, actions := Extend([s1], [], PutUpsert(t, false), s2);
    assert id in s2.index.objects && s2.index.objects[id].epoch > s2.index.Gen(id);
  }

  lemma UnsafeFillBreaks(s: State, id: ObjectId, f: nat) returns (states: seq<State>, actions: seq<Action>)
    requires Inv(s) && f in s.fills && s.fills[f].k.id == id
    requires s.fills[f].epoch != 0 || s.fills[f].version < s.Bump(id)
    ensures IsPath(states, actions) && states[0] == AfterCollectGeneration(s, id) && !Healthy(Last(states))
  {
    assert FillOk(s.config, s.upstream, s.index.generations, s.bump, s.fills[f]);
    states, actions := [AfterCollectGeneration(s, id)], [];
    if s.fills[f].epoch != 0 {
      states, actions := ReachAhead(states, actions, f);
    }
    states, actions := CommitRevived(states, actions, f);
  }

  lemma AheadReaderBreaks(s: State, id: ObjectId, r: nat) returns (states: seq<State>, actions: seq<Action>)
    requires Inv(s) && r in s.readers && s.readers[r].id == id && s.readers[r].obj.epoch != 0
    ensures IsPath(states, actions) && states[0] == AfterCollectGeneration(s, id) && !Healthy(Last(states))
  {
    assert ReaderOk(s.config, s.Hist(id), s.index.Gen(id), s.Bump(id), s.readers[r]);
    var v: nat :| SentFrom(s.readers[r], s.Hist(id), v);
    var f;
    states, actions, f := FetchAhead([AfterCollectGeneration(s, id)], [], r, v);
    states, actions := ReachAhead(states, actions, f);
    states, actions := CommitRevived(states, actions, f);
  }

  /** After an unsafe collection some steps lead to a state in which the tables
      break their promise. */
  lemma UnsafeCollectionBreaks(s: State, id: ObjectId) returns (states: seq<State>, actions: seq<Action>)
    requires Inv(s) && !CollectionIsSafe(s, id)
    ensures IsPath(states, actions) && states[0] == AfterCollectGeneration(s, id) && !Healthy(Last(states))
  {
    if t :| t in s.puts && s.puts[t].PutRead? && s.puts[t].id == id && s.puts[t].epoch != 0 {
      states, actions := AheadPutBreaks(s, id, t);
    } else if f :| f in s.fills && s.fills[f].k.id == id && (s.fills[f].epoch != 0 || s.fills[f].version < s.Bump(id)) {
      states, actions := UnsafeFillBreaks(s, id, f);
    } else {
      var r :| r in s.readers && s.readers[r].id == id && s.readers[r].obj.epoch != 0;
      states, actions := AheadReaderBreaks(s, id, r);
    }
  }

  /** A collection is safe exactly when, whatever happens afterwards, the fence
      holds and no page is older than the last advance. */
  lemma CollectionIsSafeExactly(s: State, id: ObjectId)
    requires Inv(s) && CanCollectGeneration(s, id)
    ensures
      (forall states, actions :: IsPath(states, actions) && states[0] == AfterCollectGeneration(s, id) ==>
          Healthy(Last(states)))
      <==> CollectionIsSafe(s, id)
  {
    var s' := AfterCollectGeneration(s, id);
    if CollectionIsSafe(s, id) {
      CollectGenerationKeepsInv(s, id, s');
      forall states, actions | IsPath(states, actions) && states[0] == s'
        ensures Healthy(Last(states))
      {
        PathKeepsInv(states, actions, |states| - 1);
        InvIsHealthy(Last(states));
      }
    } else {
      var states, actions := UnsafeCollectionBreaks(s, id);
    }
  }

  /** Equally, exactly when it keeps the invariant behind all results on runs. */
  lemma CollectionKeepsInvExactly(s: State, id: ObjectId)
    requires Inv(s) && CanCollectGeneration(s, id)
    ensures Inv(AfterCollectGeneration(s, id)) <==> CollectionIsSafe(s, id)
  {
    if CollectionIsSafe(s, id) {
      CollectGenerationKeepsInv(s, id, AfterCollectGeneration(s, id));
    } else if Inv(AfterCollectGeneration(s, id)) {
      KeptCollectionIsSafe(s, id);
    }
  }

  /** With a fill of epoch 0 still open, a collection after an invalidation lets
      it commit: the page row that appears was read before the invalidation. */
  lemma UnsafeCollectionRevivesOldPage(id: ObjectId)
    ensures
      var k, first := PageKey(id, 0), [1 as byte];
      var f := Fill(k, "a", 0, first, 0, Renamed);
      var s := State(Config(1, map[]), Index(map[id := 1], map[], map[]), map[],
        map[id := [Stored("a", first), Stored("b", [2])]], map[], map[0 := f], map[], map[id := 1], map[]);
      var revived := AfterCollectGeneration(s, id);
      var s' := revived.(index := revived.index.PutObject(id, ObjectRow("a", 1, 1, false, 0)));
      && Inv(s) && CanCollectGeneration(s, id) && !CollectionIsSafe(s, id)
      && CanCommitRow(s', 0)
      && AfterCommitRow(s', 0, 0).source[k] < AfterCommitRow(s', 0, 0).Bump(id)
  {
    var k, first := PageKey(id, 0), [1 as byte];
    var f := Fill(k, "a", 0, first, 0, Renamed);
    var h := [Stored("a", first), Stored("b", [2])];
    var s := State(Config(1, map[]), Index(map[id := 1], map[], map[]), map[],
      map[id := h], map[], map[0 := f], map[], map[id := 1], map[]);
    assert PageBytes(first, 1, 0) == first;
    assert FillOk(s.config, s.upstream, s.index.generations, s.bump, f);
    assert 0 in s.fills && s.fills[0].k.id == id;
  }
}
