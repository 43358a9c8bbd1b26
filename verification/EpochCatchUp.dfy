/** Epochs are counted per node. A coordinator whose epoch is behind an owner's is
    refused, falls back, and advances its own epoch by one. Here that process is
    shown to end, and never to push any epoch beyond the largest one.

    One object, an upstream that does not change, calls that are not interleaved. */
module EpochCatchUp {
  import opened Results
  import opened CacheIndex
  import CacheStore

  type Cluster = map<string, Index>

  /** The identity that a coordinator plans with. */
  datatype Identity = Identity(etag: string, size: nat, pageSize: nat)

  function IdentityOf(row: ObjectRow): Identity {
    Identity(row.etag, row.size, row.pageSize)
  }

  function RowOf(m: Identity, internalIdentity: bool, epoch: nat): ObjectRow {
    ObjectRow(m.etag, m.size, m.pageSize, internalIdentity, epoch)
  }

  /** Without interleaving an object row carries the current generation. */
  predicate Current(x: Index, id: ObjectId) {
    id in x.objects ==> x.objects[id].epoch == x.Gen(id)
  }

  /** The node has this identity of the object at this epoch, which is current. */
  predicate Agrees(x: Index, id: ObjectId, m: Identity, epoch: nat) {
    && id in x.objects && x.Gen(id) == epoch && x.objects[id].epoch == epoch
    && x.objects[id].etag == m.etag && x.objects[id].size == m.size && x.objects[id].pageSize == m.pageSize
  }

  datatype Answer = Answer(index: Index, row: Option<ObjectRow>)

  /** An owner adopts the identity and epoch of a page read, or refuses it. */
  function InternalPageReadObject(x: Index, id: ObjectId, m: Identity, epoch: nat): Answer {
    if id in x.objects then
      var obj := x.objects[id];
      if obj.epoch > epoch then Answer(x, None)
      else if obj.epoch == epoch && obj.etag == m.etag && obj.size == m.size && obj.pageSize == m.pageSize then
        Answer(x, Some(obj))
      else if obj.epoch < epoch then
        var y := x.Invalidate(id, epoch);
        if y.Gen(id) != epoch then Answer(y, None) else Adopt(y, id, m, epoch)
      else Adopt(x, id, m, epoch)
    else if epoch > 0 then
      var y := x.Invalidate(id, epoch);
      if y.Gen(id) != epoch then Answer(y, None) else Adopt(y, id, m, epoch)
    else Adopt(x, id, m, epoch)
  }

  function Adopt(x: Index, id: ObjectId, m: Identity, epoch: nat): Answer {
    var y := x.PutObject(id, RowOf(m, true, 0));
    if y.objects[id].epoch != epoch then Answer(y, None) else Answer(y, Some(y.objects[id]))
  }

  /** The owner's code, on its cache. A request with an empty bucket, key or etag
      or without a page size was turned away before. */
  method ReadObject(cache: CacheStore.Cache, id: ObjectId, m: Identity, epoch: nat) returns (row: Option<ObjectRow>)
    requires cache.Valid()
    requires id.bucket != "" && id.key != "" && m.etag != "" && m.pageSize > 0
    modifies cache
    ensures cache.Valid()
    ensures Answer(cache.View(), row) == InternalPageReadObject(old(cache.View()), id, m, epoch)
  {
    var obj := cache.GetObject(id);
    if obj.Some? && obj.value.epoch > epoch {
      return None;
    }
    if obj.Some? && obj.value.epoch == epoch && obj.value.etag == m.etag && obj.value.size == m.size
        && obj.value.pageSize == m.pageSize {
      return obj;
    }
    if (obj.Some? && obj.value.epoch < epoch) || (obj.None? && epoch > 0) {
      var now := cache.InvalidateObject(id, epoch);
      if now.value != epoch {
        return None;
      }
    }
    var put := cache.PutObject(id, m.etag, m.size, m.pageSize, true);
    row := if put.value.epoch != epoch then None else Some(put.value);
  }

  /** An owner accepts exactly the epochs that are not behind its own. Then it
      has that epoch and identity, and pages of it can be committed. A refusal
      leaves its epoch alone. */
  lemma OwnerAcceptsExactly(x: Index, id: ObjectId, m: Identity, epoch: nat)
    requires Current(x, id)
    ensures
      var a := InternalPageReadObject(x, id, m, epoch);
      && (a.row.Some? <==> x.Gen(id) <= epoch)
      && a.index.Gen(id) == (if x.Gen(id) <= epoch then epoch else x.Gen(id))
      && Current(a.index, id)
      && (a.row.Some? ==> Agrees(a.index, id, m, epoch) && a.row.value == a.index.objects[id])
      && (forall i :: i != id ==>
            && a.index.Gen(i) == x.Gen(i) && (i in a.index.objects <==> i in x.objects)
            && (i in x.objects ==> a.index.objects[i] == x.objects[i]))
  {
  }

  lemma OwnerKeepsFence(x: Index, id: ObjectId, m: Identity, epoch: nat)
    requires Fenced(x)
    ensures Fenced(InternalPageReadObject(x, id, m, epoch).index)
  {
    InvalidateKeepsFence(x, id, epoch);
    AdoptKeepsFence(x, id, m, epoch);
    AdoptKeepsFence(x.Invalidate(id, epoch), id, m, epoch);
  }

  lemma AdoptKeepsFence(x: Index, id: ObjectId, m: Identity, epoch: nat)
    requires Fenced(x)
    ensures Fenced(Adopt(x, id, m, epoch).index)
  {
    EnsureGenerationKeepsFence(x, id);
    UpsertKeepsFence(x.EnsureGeneration(id), id, RowOf(m, true, x.Gen(id)));
  }

  // ------------------------------------------------------------- coordination

  /** The coordinator's plan: its own row, or upstream's metadata. */
  function Plan(x: Index, id: ObjectId, m: Identity): Index {
    if id in x.objects && !x.objects[id].internalIdentity then x else x.PutObject(id, RowOf(m, false, 0))
  }

  lemma PlanIsCurrent(x: Index, id: ObjectId, m: Identity)
    requires Current(x, id)
    ensures
      var y := Plan(x, id, m);
      && id in y.objects && y.Gen(id) == x.Gen(id) && y.objects[id].epoch == x.Gen(id)
      && !y.objects[id].internalIdentity
      && (if id in x.objects && !x.objects[id].internalIdentity then y == x else Agrees(y, id, m, x.Gen(id)))
  {
  }

  /** What an owner does with a read of epoch `epoch`. */
  function Owner(id: ObjectId, m: Identity, epoch: nat): Index -> Answer {
    x => InternalPageReadObject(x, id, m, epoch)
  }

  /** All that matters here of what an owner does. */
  ghost predicate Adopts(owner: Index -> Answer, id: ObjectId, m: Identity, epoch: nat) {
    forall x {:trigger owner(x)} :: Current(x, id) ==>
      && (owner(x).row.Some? <==> x.Gen(id) <= epoch)
      && owner(x).index.Gen(id) == (if x.Gen(id) <= epoch then epoch else x.Gen(id))
      && Current(owner(x).index, id)
      && (owner(x).row.Some? ==> Agrees(owner(x).index, id, m, epoch))
  }

  lemma OwnerAdopts(id: ObjectId, m: Identity, epoch: nat)
    ensures Adopts(Owner(id, m, epoch), id, m, epoch)
  {
    forall x | Current(x, id)
      ensures
        var a := Owner(id, m, epoch)(x);
        && (a.row.Some? <==> x.Gen(id) <= epoch)
        && a.index.Gen(id) == (if x.Gen(id) <= epoch then epoch else x.Gen(id))
        && Current(a.index, id)
        && (a.row.Some? ==> Agrees(a.index, id, m, epoch))
    {
      OwnerAcceptsExactly(x, id, m, epoch);
    }
  }

  datatype Asked = Asked(cluster: Cluster, served: bool)

  /** Ask the owners in turn, stopping at the first refusal. */
  function Ask(c: Cluster, owners: seq<string>, owner: Index -> Answer): Asked
    requires forall i :: 0 <= i < |owners| ==> owners[i] in c
    decreases |owners|
  {
    if owners == [] then Asked(c, true)
    else
      var a := owner(c[owners[0]]);
      var c' := c[owners[0] := a.index];
      if a.row == None then Asked(c', false) else Ask(c', owners[1..], owner)
  }

  ghost predicate Wf(c: Cluster, id: ObjectId) {
    forall n :: n in c ==> Current(c[n], id)
  }

  ghost predicate Below(c: Cluster, id: ObjectId, max: nat) {
    forall n :: n in c ==> c[n].Gen(id) <= max
  }

  /** A node either takes the epoch asked for or keeps its own. */
  ghost predicate Raised(c: Cluster, d: Cluster, id: ObjectId, epoch: nat) {
    && d.Keys == c.Keys
    && forall n :: n in c ==> d[n].Gen(id) == c[n].Gen(id) || (c[n].Gen(id) <= epoch && d[n].Gen(id) == epoch)
  }

  lemma AskOne(c: Cluster, o: string, owner: Index -> Answer, id: ObjectId, m: Identity,
        epoch: nat)
    requires Wf(c, id) && Adopts(owner, id, m, epoch) && o in c
    ensures Wf(c[o := owner(c[o]).index], id) && Raised(c, c[o := owner(c[o]).index], id, epoch)
  {
  }

  lemma {:induction false} AskRaises(c: Cluster, owners: seq<string>, owner: Index -> Answer, id: ObjectId, m: Identity,
        epoch: nat)
    requires Wf(c, id) && Adopts(owner, id, m, epoch)
    requires forall i :: 0 <= i < |owners| ==> owners[i] in c
    ensures Wf(Ask(c, owners, owner).cluster, id) && Raised(c, Ask(c, owners, owner).cluster, id, epoch)
    decreases |owners|
  {
    if owners != [] {
      var o := owners[0];
      AskOne(c, o, owner, id, m, epoch);
      if owner(c[o]).row.Some? {
        AskRaises(c[o := owner(c[o]).index], owners[1..], owner, id, m, epoch);
      }
    }
  }

  /** A node that is not asked does not change. */
  lemma {:induction false} AskSkips(c: Cluster, owners: seq<string>, owner: Index -> Answer, n: string)
    requires n in c && n !in owners
    requires forall i :: 0 <= i < |owners| ==> owners[i] in c
    ensures n in Ask(c, owners, owner).cluster && Ask(c, owners, owner).cluster[n] == c[n]
    decreases |owners|
  {
    if owners != [] {
      AskSkips(c[owners[0] := owner(c[owners[0]]).index], owners[1..], owner, n);
    }
  }

  /** Every owner accepts if and only if none of them is ahead; then all of them
      have the epoch. */
  lemma {:induction false} AskServes(c: Cluster, owners: seq<string>, owner: Index -> Answer, id: ObjectId, m: Identity,
        epoch: nat)
    requires Wf(c, id) && Adopts(owner, id, m, epoch)
    requires forall i :: 0 <= i < |owners| ==> owners[i] in c
    ensures Ask(c, owners, owner).served <==> forall i :: 0 <= i < |owners| ==> c[owners[i]].Gen(id) <= epoch
    decreases |owners|
  {
    if owners != [] {
      var o := owners[0];
      var c' := c[o := owner(c[o]).index];
      AskOne(c, o, owner, id, m, epoch);
      if owner(c[o]).row.Some? {
        AskServes(c', owners[1..], owner, id, m, epoch);
        assert forall i :: 0 <= i < |owners[1..]| ==> owners[1..][i] == owners[i + 1];
        assert forall i :: 0 < i < |owners| ==> owners[i] == owners[1..][i - 1];
        assert forall n :: n in c ==> (c'[n].Gen(id) <= epoch <==> c[n].Gen(id) <= epoch);
      }
    }
  }

  /** A node that agrees goes on to agree. */
  lemma {:induction false} AskKeeps(c: Cluster, owners: seq<string>, owner: Index -> Answer, id: ObjectId,
        m: Identity, epoch: nat, n: string)
    requires Wf(c, id) && Adopts(owner, id, m, epoch)
    requires forall i :: 0 <= i < |owners| ==> owners[i] in c
    requires n in c && Agrees(c[n], id, m, epoch)
    ensures n in Ask(c, owners, owner).cluster && Agrees(Ask(c, owners, owner).cluster[n], id, m, epoch)
    decreases |owners|
  {
    if owners != [] {
      var o := owners[0];
      AskOne(c, o, owner, id, m, epoch);
      if owner(c[o]).row.Some? {
        AskKeeps(c[o := owner(c[o]).index], owners[1..], owner, id, m, epoch, n);
      }
    }
  }

  lemma {:induction false} AskReaches(c: Cluster, owners: seq<string>, owner: Index -> Answer, id: ObjectId,
        m: Identity, epoch: nat, k: nat)
    requires Wf(c, id) && Adopts(owner, id, m, epoch)
    requires forall i :: 0 <= i < |owners| ==> owners[i] in c
    requires k < |owners| && Ask(c, owners, owner).served
    ensures owners[k] in Ask(c, owners, owner).cluster
    ensures Agrees(Ask(c, owners, owner).cluster[owners[k]], id, m, epoch)
    decreases |owners|
  {
    var o := owners[0];
    var c' := c[o := owner(c[o]).index];
    AskOne(c, o, owner, id, m, epoch);
    if k > 0 {
      AskReaches(c', owners[1..], owner, id, m, epoch, k - 1);
    } else {
      AskKeeps(c', owners[1..], owner, id, m, epoch, o);
    }
  }

  /** One distributed read: plan, ask the owners, and on a refusal advance the
      coordinator's own epoch without telling anyone. */
  function Attempt(c: Cluster, self: string, owners: seq<string>, id: ObjectId, m: Identity): Asked
    requires self in c && self !in owners
    requires forall i :: 0 <= i < |owners| ==> owners[i] in c
  {
    var planned := Plan(c[self], id, m);
    var c1 := c[self := planned];
    var owner := Owner(id, IdentityOf(planned.objects[id]), planned.objects[id].epoch);
    var a := Ask(c1, owners, owner);
    AskSkips(c1, owners, owner, self);
    if a.served then a else Asked(a.cluster[self := a.cluster[self].Invalidate(id, 0)], false)
  }

  ghost predicate Behind(c: Cluster, owners: seq<string>, id: ObjectId, epoch: nat)
    requires forall i :: 0 <= i < |owners| ==> owners[i] in c
  {
    exists i :: 0 <= i < |owners| && c[owners[i]].Gen(id) > epoch
  }

  /** What one attempt does to every epoch in the cluster: it is refused exactly
      when some owner asked is ahead. */
  lemma AttemptExactly(c: Cluster, self: string, owners: seq<string>, id: ObjectId, m: Identity)
    requires Wf(c, id)
    requires self in c && self !in owners
    requires forall i :: 0 <= i < |owners| ==> owners[i] in c
    ensures
      var a := Attempt(c, self, owners, id, m);
      var e := c[self].Gen(id);
      && a.cluster.Keys == c.Keys && Wf(a.cluster, id)
      && (a.served <==> !Behind(c, owners, id, e))
      && a.cluster[self].Gen(id) == (if a.served then e else e + 1)
      && (forall n :: n in c && n != self ==>
            a.cluster[n].Gen(id) == c[n].Gen(id) || (c[n].Gen(id) <= e && a.cluster[n].Gen(id) == e))
  {
    PlanIsCurrent(c[self], id, m);
    var c1 := c[self := Plan(c[self], id, m)];
    var e, n := c[self].Gen(id), IdentityOf(c1[self].objects[id]);
    OwnerAdopts(id, n, e);
    AskRaises(c1, owners, Owner(id, n, e), id, n, e);
    AskSkips(c1, owners, Owner(id, n, e), self);
    AskServes(c1, owners, Owner(id, n, e), id, n, e);
  }

  /** A served attempt leaves every owner asked with the coordinator's epoch and
      with the identity that the coordinator planned with. */
  lemma ServedOwnersAgree(c: Cluster, self: string, owners: seq<string>, id: ObjectId, m: Identity, k: nat)
    requires Wf(c, id)
    requires self in c && self !in owners
    requires forall i :: 0 <= i < |owners| ==> owners[i] in c
    requires k < |owners| && Attempt(c, self, owners, id, m).served
    ensures
      var d := Attempt(c, self, owners, id, m).cluster;
      && self in d && owners[k] in d && id in d[self].objects
      && Agrees(d[owners[k]], id, IdentityOf(d[self].objects[id]), d[self].Gen(id))
  {
    AttemptExactly(c, self, owners, id, m);
    PlanIsCurrent(c[self], id, m);
    var c1 := c[self := Plan(c[self], id, m)];
    var e, n := c[self].Gen(id), IdentityOf(c1[self].objects[id]);
    OwnerAdopts(id, n, e);
    AskSkips(c1, owners, Owner(id, n, e), self);
    AskReaches(c1, owners, Owner(id, n, e), id, n, e, k);
  }

  // ---------------------------------------------------------------------- runs

  datatype Read = Read(self: string, owners: seq<string>, served: bool)

  ghost predicate Possible(c: Cluster, self: string, owners: seq<string>) {
    self in c && self !in owners && forall i :: 0 <= i < |owners| ==> owners[i] in c
  }

  ghost predicate Step(c: Cluster, r: Read, d: Cluster, id: ObjectId, m: Identity) {
    Possible(c, r.self, r.owners) && Attempt(c, r.self, r.owners, id, m) == Asked(d, r.served)
  }

  ghost predicate IsRun(states: seq<Cluster>, attempts: seq<Read>, id: ObjectId, m: Identity) {
    && |states| == |attempts| + 1
    && Wf(states[0], id)
    && forall i {:trigger attempts[i]} :: 0 <= i < |attempts| ==> Step(states[i], attempts[i], states[i + 1], id, m)
  }

  /** How often node `n` was refused. */
  function Fallbacks(attempts: seq<Read>, n: string): nat {
    if attempts == [] then 0
    else
      var r := attempts[|attempts| - 1];
      Fallbacks(attempts[..|attempts| - 1], n) + (if r.self == n && !r.served then 1 else 0)
  }

  /** No attempt raises an epoch beyond a bound on all epochs, none lowers one,
      and a refusal costs the coordinator exactly one. */
  lemma StepAdvances(c: Cluster, r: Read, d: Cluster, id: ObjectId, m: Identity, max: nat, n: string)
    requires Wf(c, id) && Below(c, id, max) && n in c
    requires Step(c, r, d, id, m)
    ensures Wf(d, id) && Below(d, id, max) && n in d
    ensures c[n].Gen(id) + (if r.self == n && !r.served then 1 else 0) <= d[n].Gen(id)
  {
    AttemptExactly(c, r.self, r.owners, id, m);
  }

  /** Any nodes coordinate, in any order, asking any owners: epochs never pass
      the initial maximum, and a node is refused at most as often as it was
      behind it. */
  lemma {:induction false} CatchUpEnds(states: seq<Cluster>, attempts: seq<Read>, id: ObjectId, m: Identity,
        max: nat, n: string)
    requires IsRun(states, attempts, id, m)
    requires Below(states[0], id, max)
    requires n in states[0]
    ensures
      var last := states[|states| - 1];
      && Wf(last, id) && Below(last, id, max) && n in last
      && states[0][n].Gen(id) + Fallbacks(attempts, n) <= last[n].Gen(id) <= max
    decreases |attempts|
  {
    var k := |attempts|;
    if k > 0 {
      var before := states[..k];
      assert IsRun(before, attempts[..k - 1], id, m);
      CatchUpEnds(before, attempts[..k - 1], id, m, max, n);
      StepAdvances(states[k - 1], attempts[k - 1], states[k], id, m, max, n);
    }
  }

  /** A coordinator that is not behind the owners it asks is served at once. */
  lemma LevelCoordinatorIsServed(c: Cluster, self: string, owners: seq<string>, id: ObjectId, m: Identity)
    requires Wf(c, id)
    requires self in c && self !in owners
    requires forall i :: 0 <= i < |owners| ==> owners[i] in c && c[owners[i]].Gen(id) <= c[self].Gen(id)
    ensures Attempt(c, self, owners, id, m).served
  {
    AttemptExactly(c, self, owners, id, m);
  }

  /** A coordinator that tries again and again is refused exactly `n` times, and
      then served. */
  ghost predicate ServedAfter(c: Cluster, self: string, owners: seq<string>, id: ObjectId, m: Identity, n: nat)
    requires Wf(c, id) && Possible(c, self, owners)
    decreases n
  {
    AttemptExactly(c, self, owners, id, m);
    var a := Attempt(c, self, owners, id, m);
    if n == 0 then a.served else !a.served && ServedAfter(a.cluster, self, owners, id, m, n - 1)
  }

  lemma RefusedCoordinatorWasBehind(c: Cluster, self: string, owners: seq<string>, id: ObjectId, m: Identity, max: nat)
    requires Wf(c, id) && Possible(c, self, owners)
    requires forall i :: 0 <= i < |owners| ==> c[owners[i]].Gen(id) <= max
    requires !Attempt(c, self, owners, id, m).served
    ensures
      var d := Attempt(c, self, owners, id, m).cluster;
      && Wf(d, id) && Possible(d, self, owners)
      && (forall i :: 0 <= i < |owners| ==> d[owners[i]].Gen(id) <= max)
      && d[self].Gen(id) == c[self].Gen(id) + 1 <= max
  {
    AttemptExactly(c, self, owners, id, m);
  }

  /** A coordinator left alone is served, after at most as many refusals as its
      epoch is behind the largest owner epoch. */
  lemma {:induction false} LaggingCoordinatorIsServed(c: Cluster, self: string, owners: seq<string>,
        id: ObjectId, m: Identity, max: nat) returns (n: nat)
    requires Wf(c, id) && Possible(c, self, owners)
    requires forall i :: 0 <= i < |owners| ==> c[owners[i]].Gen(id) <= max
    ensures n <= if max < c[self].Gen(id) then 0 else max - c[self].Gen(id)
    ensures ServedAfter(c, self, owners, id, m, n)
    decreases if max < c[self].Gen(id) then 0 else max - c[self].Gen(id)
  {
    var a := Attempt(c, self, owners, id, m);
    n := 0;
    if !a.served {
      RefusedCoordinatorWasBehind(c, self, owners, id, m, max);
      var rest := LaggingCoordinatorIsServed(a.cluster, self, owners, id, m, max);
      n := rest + 1;
    }
  }
}
