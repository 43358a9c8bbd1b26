/** The cache index as a value: three tables and the transactions on them.
    An object id stands for the digest of (bucket, key), and a page path for the
    digest of (id, index, etag, epoch); both are injective. */
module CacheIndex {

  datatype ObjectId = ObjectId(bucket: string, key: string)

  datatype ObjectRow = ObjectRow(etag: string, size: nat, pageSize: nat, internalIdentity: bool, epoch: nat)

  datatype PageKey = PageKey(id: ObjectId, index: nat)

  datatype PageRow = PageRow(etag: string, epoch: nat, size: nat, createdAt: int, accessedAt: int)

  datatype PagePath = PagePath(id: ObjectId, index: nat, etag: string, epoch: nat)

  function PathOf(k: PageKey, row: PageRow): PagePath {
    PagePath(k.id, k.index, row.etag, row.epoch)
  }

  datatype Index = Index(
    generations: map<ObjectId, nat>,
    objects: map<ObjectId, ObjectRow>,
    pages: map<PageKey, PageRow>)
  {
    /** The current epoch of an object; a missing row reads as epoch 0. */
    function Gen(id: ObjectId): nat {
      if id in generations then generations[id] else 0
    }

    function EnsureGeneration(id: ObjectId): Index {
      if id in generations then this else this.(generations := generations[id := 0])
    }

    function Upsert(id: ObjectId, row: ObjectRow): Index {
      this.(objects := objects[id := row])
    }

    /** PutObject with no other step between its three statements. */
    function PutObject(id: ObjectId, row: ObjectRow): Index {
      EnsureGeneration(id).Upsert(id, row.(epoch := Gen(id)))
    }

    function PagesOf(id: ObjectId): set<PageKey> {
      set k | k in pages && k.id == id
    }

    /** Deleting an object row deletes its page rows with it. */
    function DropObject(id: ObjectId): Index {
      this.(objects := objects - {id}, pages := pages - PagesOf(id))
    }

    function NextEpoch(id: ObjectId, minEpoch: nat): nat {
      if minEpoch == 0 then Gen(id) + 1
      else if Gen(id) < minEpoch then minEpoch else Gen(id)
    }

    predicate Drops(id: ObjectId, minEpoch: nat) {
      id in objects && (minEpoch > 0 ==> objects[id].epoch <= minEpoch)
    }

    /** The invalidation transaction; `minEpoch` 0 is a local invalidation. */
    function Invalidate(id: ObjectId, minEpoch: nat): Index {
      var dropped := if Drops(id, minEpoch) then DropObject(id) else this;
      dropped.(generations := generations[id := NextEpoch(id, minEpoch)])
    }

    /** The check made by a page commit, in the same transaction as the insert. */
    predicate CanCommit(id: ObjectId, etag: string, epoch: nat) {
      && id in objects && id in generations
      && generations[id] == epoch
      && objects[id].etag == etag
    }

    /** Insert or overwrite a page row; an overwrite keeps the creation time. */
    function PutPage(k: PageKey, etag: string, epoch: nat, size: nat, now: int): Index {
      var created := if k in pages then pages[k].createdAt else now;
      this.(pages := pages[k := PageRow(etag, epoch, size, created, now)])
    }

    function DeletePage(k: PageKey): Index {
      this.(pages := pages - {k})
    }

    function TouchPage(k: PageKey, at: int): Index {
      if k in pages then this.(pages := pages[k := pages[k].(accessedAt := at)]) else this
    }

    function CollectObject(id: ObjectId): Index {
      this.(objects := objects - {id})
    }

    function CollectGeneration(id: ObjectId): Index {
      this.(generations := generations - {id})
    }
  }

  // ---------------------------------------------------------------- the fence

  /** No object row is ahead of its generation, and every page row belongs to an
      object row and carries the current generation of its object. */
  ghost predicate Fenced(x: Index) {
    && (forall id :: id in x.objects ==> x.objects[id].epoch <= x.Gen(id))
    && (forall k :: k in x.pages ==> k.id in x.objects && x.pages[k].epoch == x.Gen(k.id))
  }

  lemma EnsureGenerationKeepsFence(x: Index, id: ObjectId)
    requires Fenced(x)
    ensures Fenced(x.EnsureGeneration(id))
    ensures forall i :: x.EnsureGeneration(id).Gen(i) == x.Gen(i)
  {
  }

  /** An upsert may carry an epoch read earlier; only an epoch from the future
      would break the fence. */
  lemma UpsertKeepsFence(x: Index, id: ObjectId, row: ObjectRow)
    requires Fenced(x)
    ensures Fenced(x.Upsert(id, row)) <==> row.epoch <= x.Gen(id)
  {
    assert x.Upsert(id, row).objects[id] == row;
  }

  lemma InvalidateKeepsFence(x: Index, id: ObjectId, minEpoch: nat)
    requires Fenced(x)
    ensures Fenced(x.Invalidate(id, minEpoch))
    ensures x.Gen(id) <= x.Invalidate(id, minEpoch).Gen(id) == x.NextEpoch(id, minEpoch)
    ensures forall i :: i != id ==> x.Invalidate(id, minEpoch).Gen(i) == x.Gen(i)
    ensures x.Gen(id) < x.NextEpoch(id, minEpoch) ==> x.Invalidate(id, minEpoch).PagesOf(id) == {}
  {
    var y := x.Invalidate(id, minEpoch);
    forall k | k in y.pages
      ensures k.id in y.objects && y.pages[k].epoch == y.Gen(k.id)
    {
      assert k in x.pages;
    }
  }

  lemma CommitKeepsFence(x: Index, k: PageKey, etag: string, epoch: nat, size: nat, now: int)
    requires Fenced(x)
    requires x.CanCommit(k.id, etag, epoch)
    ensures Fenced(x.PutPage(k, etag, epoch, size, now))
  {
  }

  lemma DeletePageKeepsFence(x: Index, k: PageKey)
    requires Fenced(x)
    ensures Fenced(x.DeletePage(k))
  {
  }

  /** What an invalidation leaves: the object is gone after a local one, and after
      a remote one unless its row is ahead; its pages go with it; its generation
      is one higher, or raised to the epoch sent; nothing else changes. */
  lemma InvalidationExactly(x: Index, id: ObjectId, minEpoch: nat)
    ensures
      var y := x.Invalidate(id, minEpoch);
      && (id in y.objects <==> id in x.objects && minEpoch > 0 && x.objects[id].epoch > minEpoch)
      && (forall i :: i in y.objects ==> i in x.objects && y.objects[i] == x.objects[i])
      && (forall i :: i in x.objects && i != id ==> i in y.objects)
      && (forall k :: k in y.pages ==> k in x.pages && y.pages[k] == x.pages[k])
      && (forall k :: k in x.pages ==>
            (k in y.pages <==> k.id != id || id !in x.objects || id in y.objects))
      && (forall i :: i in y.generations <==> i == id || i in x.generations)
      && (forall i :: i in x.generations && i != id ==> y.generations[i] == x.generations[i])
      && (minEpoch == 0 ==> y.generations[id] == x.Gen(id) + 1)
      && (0 < minEpoch <= x.Gen(id) ==> y.generations[id] == x.Gen(id))
      && (minEpoch > x.Gen(id) ==> y.generations[id] == minEpoch)
  {
  }

  // ----------------------------------------------------- remote invalidations

  function InvalidateAll(x: Index, id: ObjectId, epochs: seq<nat>): Index {
    if epochs == [] then x
    else InvalidateAll(x, id, epochs[..|epochs| - 1]).Invalidate(id, epochs[|epochs| - 1])
  }

  function Largest(epochs: seq<nat>): (m: nat)
    requires epochs != []
    ensures m in epochs
    ensures forall i :: 0 <= i < |epochs| ==> epochs[i] <= m
  {
    var last := epochs[|epochs| - 1];
    if |epochs| == 1 then last
    else
      var m := Largest(epochs[..|epochs| - 1]);
      assert forall i :: 0 <= i < |epochs| - 1 ==> epochs[..|epochs| - 1][i] == epochs[i];
      if m < last then last else m
  }

  /** Remote invalidations of one object form a join: any order, any
      repetition, one invalidation at the largest epoch has the same effect. */
  lemma {:induction false} RemoteInvalidationsJoin(x: Index, id: ObjectId, epochs: seq<nat>)
    requires Fenced(x)
    requires epochs != []
    requires forall i :: 0 <= i < |epochs| ==> epochs[i] > 0
    ensures InvalidateAll(x, id, epochs) == x.Invalidate(id, Largest(epochs))
  {
    var front, last := epochs[..|epochs| - 1], epochs[|epochs| - 1];
    if front == [] {
      assert InvalidateAll(x, id, front) == x;
    } else {
      RemoteInvalidationsJoin(x, id, front);
      TwoInvalidations(x, id, Largest(front), last);
    }
  }

  lemma TwoInvalidations(x: Index, id: ObjectId, m: nat, n: nat)
    requires Fenced(x)
    requires m > 0 && n > 0
    ensures x.Invalidate(id, m).Invalidate(id, n) == x.Invalidate(id, if m < n then n else m)
  {
    var both := x.Invalidate(id, m).Invalidate(id, n);
    var one := x.Invalidate(id, if m < n then n else m);
    assert both.generations == one.generations;
    assert both.objects == one.objects;
    assert both.pages == one.pages;
  }

  /** What a remote invalidation removes: the object's pages go exactly when the
      object row is not ahead of the epoch that was sent. */
  lemma RemoteInvalidationDropsPages(x: Index, id: ObjectId, minEpoch: nat)
    requires Fenced(x)
    requires minEpoch > 0
    requires x.PagesOf(id) != {}
    ensures id in x.objects
    ensures x.Invalidate(id, minEpoch).PagesOf(id) == {} <==> x.objects[id].epoch <= minEpoch
  {
    var k :| k in x.PagesOf(id);
    assert k in x.pages;
    var y := x.Invalidate(id, minEpoch);
    if x.objects[id].epoch > minEpoch {
      assert k in y.PagesOf(id);
    }
  }

  /** A peer that ran ahead on its own keeps its pages through a remote
      invalidation: epochs are counted per peer. */
  lemma AheadPeerKeepsPages(id: ObjectId)
    ensures
      var x := Index(map[id := 2], map[id := ObjectRow("v1", 1, 1, false, 2)],
        map[PageKey(id, 0) := PageRow("v1", 2, 1, 0, 0)]);
      Fenced(x) && x.Invalidate(id, 1) == x && PageKey(id, 0) in x.Invalidate(id, 1).pages
  {
  }
}
