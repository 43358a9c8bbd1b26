/** Rendezvous routing: which peer owns a page. Scores are an arbitrary function. */
module Router {
  import opened Results
  import opened Text

  datatype Peer = Peer(id: string, url: string)

  // ------------------------------------------------------------- string order

  predicate Less(a: string, b: string) {
    && b != ""
    && (a == "" || a[0] < b[0] || (a[0] == b[0] && Less(a[1..], b[1..])))
  }

  lemma {:induction false} LessIsTotal(a: string, b: string)
    ensures Less(a, b) || Less(b, a) || a == b
    ensures !(Less(a, b) && Less(b, a))
    ensures !Less(a, a)
    decreases |a| + |b|
  {
    LessIsIrreflexive(a);
    if a != "" && b != "" {
      LessIsTotal(a[1..], b[1..]);
      if a[0] == b[0] && a[1..] == b[1..] {
        assert a == [a[0]] + a[1..] == [b[0]] + b[1..] == b;
      }
    }
  }

  lemma {:induction false} LessIsIrreflexive(a: string)
    ensures !Less(a, a)
    decreases |a|
  {
    if a != "" {
      LessIsIrreflexive(a[1..]);
    }
  }

  lemma {:induction false} LessIsTransitive(a: string, b: string, c: string)
    requires Less(a, b) && Less(b, c)
    ensures Less(a, c)
    decreases |a|
  {
    if a != "" && a[0] == b[0] == c[0] {
      LessIsTransitive(a[1..], b[1..], c[1..]);
    }
  }

  /** `a` is a proper prefix of `b`, or smaller where they first differ, at `i`. */
  predicate SmallerAt(a: string, b: string, i: nat) {
    i <= |a| && i < |b| && a[..i] == b[..i] && (i == |a| || a[i] < b[i])
  }

  /** The order of strings is the lexicographic one. */
  lemma {:induction false} LessIsLexicographic(a: string, b: string)
    ensures Less(a, b) <==> exists i: nat :: SmallerAt(a, b, i)
    decreases |a|
  {
    if b != "" && (a == "" || a[0] < b[0]) {
      assert SmallerAt(a, b, 0);
    } else if b != "" && a[0] == b[0] {
      LessIsLexicographic(a[1..], b[1..]);
      if i: nat :| SmallerAt(a[1..], b[1..], i) {
        assert a[..i + 1] == [a[0]] + a[1..][..i] && b[..i + 1] == [b[0]] + b[1..][..i];
        assert SmallerAt(a, b, i + 1);
      }
      if i: nat :| SmallerAt(a, b, i) {
        assert i > 0 && a[1..][..i - 1] == a[..i][1..] && b[1..][..i - 1] == b[..i][1..];
        assert SmallerAt(a[1..], b[1..], i - 1);
      }
    } else if b != "" {
      forall i: nat | 0 < i <= |a| && i < |b|
        ensures a[..i] != b[..i]
      {
        assert a[..i][0] == a[0] && b[..i][0] == b[0];
      }
    }
  }

  // ------------------------------------------------------------------ ownership

  /** Higher score first, then smaller id. */
  predicate Beats(score: string -> nat, p: Peer, q: Peer) {
    score(p.id) > score(q.id) || (score(p.id) == score(q.id) && Less(p.id, q.id))
  }

  ghost predicate IsOwner(score: string -> nat, peers: set<Peer>, p: Peer) {
    p in peers && forall q :: q in peers && q != p ==> Beats(score, p, q)
  }

  predicate DistinctIds(peers: set<Peer>) {
    forall p, q :: p in peers && q in peers && p.id == q.id ==> p == q
  }

  function PeerSet(peers: seq<Peer>): set<Peer> {
    set p | p in peers
  }

  /** The routing loop finds the owner; an empty ring has none. */
  method OwnerForRoutingKey(peers: seq<Peer>, score: string -> nat) returns (owner: Peer)
    requires DistinctIds(PeerSet(peers))
    ensures peers == [] ==> owner == Peer("", "")
    ensures peers != [] ==> IsOwner(score, PeerSet(peers), owner)
    ensures peers != [] ==> owner in peers
    ensures forall q :: q in peers ==> score(q.id) <= score(owner.id)
    ensures forall q :: q in peers && score(q.id) == score(owner.id) ==> q == owner || Less(owner.id, q.id)
  {
    owner := Peer("", "");
    var bestScore := 0;
    for i := 0 to |peers|
      invariant i == 0 ==> owner == Peer("", "")
      invariant i > 0 ==> owner in peers[..i] && bestScore == score(owner.id)
      invariant i > 0 ==> forall q :: q in peers[..i] && q != owner ==> Beats(score, owner, q)
    {
      var p := peers[i];
      assert p in PeerSet(peers);
      var s := score(p.id);
      if i == 0 || s > bestScore || (s == bestScore && Less(p.id, owner.id)) {
        forall q | i > 0 && q in peers[..i] && q != p
          ensures Beats(score, p, q)
        {
          if q != owner {
            BeatsIsTransitive(score, p, owner, q);
          }
        }
        bestScore, owner := s, p;
      } else {
        assert owner in PeerSet(peers);
        LessIsTotal(p.id, owner.id);
      }
      assert forall q :: q in peers[..i + 1] <==> q in peers[..i] || q == p;
    }
    assert peers[..|peers|] == peers;
    assert peers == [] ==> forall q :: q !in peers;
  }

  lemma BeatsIsTransitive(score: string -> nat, p: Peer, q: Peer, r: Peer)
    requires Beats(score, p, q) && Beats(score, q, r)
    ensures Beats(score, p, r)
  {
    if score(p.id) == score(r.id) {
      LessIsTransitive(p.id, q.id, r.id);
    }
  }

  /** There is one owner, so it does not depend on the order of the peer list. */
  lemma OwnerIsUnique(score: string -> nat, peers: set<Peer>, p: Peer, q: Peer)
    requires IsOwner(score, peers, p) && IsOwner(score, peers, q)
    ensures p == q
  {
    LessIsTotal(p.id, q.id);
  }

  /** Taking peers away moves only the pages that they owned. */
  lemma RemovalMovesOnlyOwned(score: string -> nat, peers: set<Peer>, removed: set<Peer>, p: Peer, q: Peer)
    requires IsOwner(score, peers, p)
    requires IsOwner(score, peers - removed, q)
    ensures q == p || p in removed
  {
    if p !in removed {
      OwnerIsUnique(score, peers - removed, p, q);
    }
  }

  /** A new peer takes pages only for itself. */
  lemma AdditionMovesOnlyToNewPeer(score: string -> nat, peers: set<Peer>, x: Peer, p: Peer, q: Peer)
    requires x !in peers
    requires IsOwner(score, peers, p)
    requires IsOwner(score, peers + {x}, q)
    ensures q == p || q == x
  {
    assert peers + {x} - {x} == peers;
    RemovalMovesOnlyOwned(score, peers + {x}, {x}, q, p);
  }

  // ----------------------------------------------------------------- the ring

  predicate SortedById(peers: seq<Peer>) {
    forall i, j :: 0 <= i < j < |peers| ==> Less(peers[i].id, peers[j].id)
  }

  /** A ring in id order is determined by its members: every peer that is
      configured with the same members hashes the same ring. */
  lemma {:induction false} RingIsCanonical(a: seq<Peer>, b: seq<Peer>)
    requires SortedById(a) && SortedById(b)
    requires PeerSet(a) == PeerSet(b)
    ensures a == b
    decreases |a|
  {
    EmptyRing(a);
    EmptyRing(b);
    if a != [] {
      FirstIsLeast(a, b);
      RestOfRing(a);
      RestOfRing(b);
      RingIsCanonical(a[1..], b[1..]);
    }
  }

  lemma EmptyRing(a: seq<Peer>)
    ensures a == [] <==> PeerSet(a) == {}
  {
    if a != [] {
      assert a[0] in PeerSet(a);
    }
  }

  lemma FirstIsLeast(a: seq<Peer>, b: seq<Peer>)
    requires a != [] && b != []
    requires SortedById(a) && SortedById(b)
    requires PeerSet(a) == PeerSet(b)
    ensures a[0] == b[0]
  {
    assert a[0] in PeerSet(b) && b[0] in PeerSet(a);
    var i :| 0 <= i < |b| && b[i] == a[0];
    var j :| 0 <= j < |a| && a[j] == b[0];
    LessIsTotal(a[0].id, b[0].id);
  }

  lemma RestOfRing(a: seq<Peer>)
    requires a != [] && SortedById(a)
    ensures SortedById(a[1..])
    ensures PeerSet(a[1..]) == PeerSet(a) - {a[0]}
  {
    forall j | 1 <= j < |a|
      ensures a[j] != a[0]
    {
      LessIsIrreflexive(a[0].id);
    }
    assert a == [a[0]] + a[1..];
  }

  function Insert(p: Peer, sorted: seq<Peer>): seq<Peer> {
    if sorted == [] || Less(p.id, sorted[0].id) then [p] + sorted
    else [sorted[0]] + Insert(p, sorted[1..])
  }

  lemma PeerSetCons(q: Peer, tail: seq<Peer>)
    ensures PeerSet([q] + tail) == PeerSet(tail) + {q}
  {
  }

  lemma {:induction false} InsertAdds(p: Peer, sorted: seq<Peer>)
    ensures PeerSet(Insert(p, sorted)) == PeerSet(sorted) + {p}
    decreases |sorted|
  {
    if sorted == [] || Less(p.id, sorted[0].id) {
      PeerSetCons(p, sorted);
    } else {
      var q, rest := sorted[0], sorted[1..];
      assert sorted == [q] + rest;
      InsertAdds(p, rest);
      PeerSetCons(q, rest);
      PeerSetCons(q, Insert(p, rest));
    }
  }

  lemma SmallestFirst(q: Peer, tail: seq<Peer>)
    requires SortedById(tail)
    requires forall x :: x in PeerSet(tail) ==> Less(q.id, x.id)
    ensures SortedById([q] + tail)
  {
    assert forall j :: 0 <= j < |tail| ==> tail[j] in PeerSet(tail);
  }

  lemma {:induction false} InsertKeepsOrder(p: Peer, sorted: seq<Peer>)
    requires SortedById(sorted)
    requires forall q :: q in sorted ==> q.id != p.id
    ensures SortedById(Insert(p, sorted))
    ensures PeerSet(Insert(p, sorted)) == PeerSet(sorted) + {p}
    decreases |sorted|
  {
    InsertAdds(p, sorted);
    if sorted != [] {
      var q, rest := sorted[0], sorted[1..];
      LessIsTotal(p.id, q.id);
      if Less(p.id, q.id) {
        forall x | x in PeerSet(sorted)
          ensures Less(p.id, x.id)
        {
          if x != q {
            LessIsTransitive(p.id, q.id, x.id);
          }
        }
        SmallestFirst(p, sorted);
      } else {
        InsertKeepsOrder(p, rest);
        SmallestFirst(q, Insert(p, rest));
      }
    }
  }

  predicate Configured(peers: seq<Peer>) {
    && peers != []
    && (forall i :: 0 <= i < |peers| ==> peers[i].id != "" && peers[i].url != "")
    && (forall i, j :: 0 <= i < j < |peers| ==> peers[i].id != peers[j].id)
  }

  datatype Ring = Ring(localId: string, peers: seq<Peer>)

  function Trimmed(peers: seq<Peer>): seq<Peer> {
    seq(|peers|, i requires 0 <= i < |peers| => Peer(TrimSpace(peers[i].id), TrimSpace(peers[i].url)))
  }

  /** Builds the ring from the configured peers, whose fields it trims first. A
      ring exists exactly when the trimmed ids and addresses are usable. */
  method NewRouter(localId: string, peers: seq<Peer>, requireLocal: bool) returns (res: Result<Ring>)
    ensures
      var local, ps := TrimSpace(localId), Trimmed(peers);
      && (res.Ok? <==>
            && Configured(ps)
            && (requireLocal ==> local != "")
            && (requireLocal || local != "" ==> exists i :: 0 <= i < |ps| && ps[i].id == local))
      && (res.Ok? ==>
            && res.value.localId == local
            && SortedById(res.value.peers)
            && PeerSet(res.value.peers) == PeerSet(ps)
            && DistinctIds(PeerSet(res.value.peers)))
  {
    res := BuildRing(TrimSpace(localId), Trimmed(peers), requireLocal);
  }

  /** The same, for fields that are trimmed. */
  method BuildRing(localId: string, peers: seq<Peer>, requireLocal: bool) returns (res: Result<Ring>)
    ensures res.Ok? <==>
              && Configured(peers)
              && (requireLocal ==> localId != "")
              && (requireLocal || localId != "" ==> exists i :: 0 <= i < |peers| && peers[i].id == localId)
    ensures res.Ok? ==>
              && res.value.localId == localId
              && SortedById(res.value.peers)
              && PeerSet(res.value.peers) == PeerSet(peers)
              && DistinctIds(PeerSet(res.value.peers))
  {
    if requireLocal && localId == "" {
      return Err("local peer id is required");
    }
    if peers == [] {
      return Err("peer list is required");
    }
    var copied: seq<Peer> := [];
    var byId: map<string, Peer> := map[];
    for i := 0 to |peers|
      invariant SortedById(copied) && PeerSet(copied) == PeerSet(peers[..i])
      invariant forall id :: id in byId <==> exists j :: 0 <= j < i && peers[j].id == id
      invariant forall j :: 0 <= j < i ==> peers[j].id != "" && peers[j].url != ""
      invariant forall j, k :: 0 <= j < k < i ==> peers[j].id != peers[k].id
    {
      var p := peers[i];
      if p.id == "" {
        return Err("peer id is required");
      }
      if p.url == "" {
        return Err("peer url is required");
      }
      if p.id in byId {
        return Err("peer id is duplicated");
      }
      forall q | q in copied
        ensures q.id != p.id
      {
        assert q in PeerSet(peers[..i]);
        var j :| 0 <= j < i && peers[j] == q;
      }
      InsertKeepsOrder(p, copied);
      assert PeerSet(peers[..i + 1]) == PeerSet(peers[..i]) + {p};
      copied := Insert(p, copied);
      byId := byId[p.id := p];
    }
    assert peers[..|peers|] == peers;
    if requireLocal || localId != "" {
      if localId !in byId {
        return Err("local peer id is not in peer list");
      }
    }
    res := Ok(Ring(localId, copied));
  }
}
