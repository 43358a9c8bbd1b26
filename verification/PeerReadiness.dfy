/** Broadcast of invalidations to peers, bounded retry, and readiness.

    One node, its retry queue and degraded flag, and the generations that its
    peers hold. Requests and acknowledgements may be lost. Every section that the
    code runs under one lock is a step of its own; in particular marking the node
    degraded and queueing the retry are two steps, and so are checking that the
    queue is empty and clearing the flag. The generation of an object also moves
    without a broadcast: by falling back, by a peer's invalidation, by adopting
    an epoch, and by collection. A restart loses what is kept in memory. Peers do
    not collect generations. */
module PeerReadiness {
  import opened Results
  import opened CacheIndex

  const RETRY_LIMIT := 4096

  datatype Key = Key(peer: string, obj: ObjectId)

  datatype Item = Item(key: Key, epoch: nat)

  datatype Reason = PeerInvalidationFailed | OtherReason

  /** Peers still to be told, and the one whose failure was marked but whose
      retry is not queued yet. */
  datatype Broadcast = Broadcast(obj: ObjectId, epoch: nat, todo: set<string>, marked: Option<string>)

  datatype State = State(
    peers: set<string>,
    limit: nat,
    epochs: map<ObjectId, nat>,
    remote: map<Key, nat>,
    broadcasts: map<nat, Broadcast>,
    pending: map<Key, nat>,
    untracked: bool,
    degraded: Option<Reason>,
    snapshot: set<Item>,
    acked: set<Item>,
    checked: bool,
    // history variables: the largest epoch broadcast for each object, and every
    // invalidation that this node owes a peer
    sent: map<ObjectId, nat>,
    due: set<Item>)
  {
    function Epoch(o: ObjectId): nat {
      if o in epochs then epochs[o] else 0
    }

    function Remote(k: Key): nat {
      if k in remote then remote[k] else 0
    }

    function Sent(o: ObjectId): nat {
      if o in sent then sent[o] else 0
    }

    /** The last epoch broadcast that a peer is owed. */
    function Last(k: Key): Item {
      Item(k, Sent(k.obj))
    }

    predicate Ready() {
      degraded == None
    }
  }

  datatype Action =
    | LocalInvalidate(b: nat, obj: ObjectId)
    | SendAcked(b: nat, peer: string)
    | SendFailed(b: nat, peer: string, applied: bool)
    | Enqueue(b: nat)
    | BroadcastEnd(b: nat)
    | GenerationMoves(obj: ObjectId, epoch: nat)
    | PeerAdvance(key: Key, epoch: nat)
    | MarkOther
    | TakeSnapshot
    | RetryAcked(item: Item)
    | RetryFailed(item: Item, applied: bool)
    | RemoveAcked(item: Item)
    | Check
    | Clear
    | Restart

  // -------------------------------------------------------------------- pieces

  /** A peer that applies an invalidation at epoch e has generation max(old, e). */
  function Applied(remote: map<Key, nat>, key: Key, epoch: nat): map<Key, nat> {
    if key in remote && remote[key] >= epoch then remote else remote[key := epoch]
  }

  function Mark(degraded: Option<Reason>, reason: Reason): Option<Reason> {
    if degraded == None then Some(reason)
    else if degraded == Some(PeerInvalidationFailed) && reason != PeerInvalidationFailed then Some(reason)
    else degraded
  }

  predicate Overflows(pending: map<Key, nat>, limit: nat, item: Item) {
    item.key !in pending && |pending| >= limit
  }

  /** The retry queue keeps the highest epoch per peer and object, and takes no
      new key when it is full. */
  function Queued(pending: map<Key, nat>, limit: nat, item: Item): map<Key, nat> {
    if (item.key in pending && pending[item.key] >= item.epoch) || Overflows(pending, limit, item) then pending
    else pending[item.key := item.epoch]
  }

  /** An acknowledgement removes an entry unless a newer one replaced it. */
  function Unqueued(pending: map<Key, nat>, item: Item): map<Key, nat> {
    if item.key !in pending || pending[item.key] > item.epoch then pending else pending - {item.key}
  }

  function Queue(s: State, item: Item): State {
    s.(pending := Queued(s.pending, s.limit, item), untracked := s.untracked || Overflows(s.pending, s.limit, item))
  }

  function Unqueue(s: State, item: Item): State {
    s.(pending := Unqueued(s.pending, item))
  }

  predicate Idle(s: State) {
    s.pending == map[] && !s.untracked
  }

  function Owed(s: State, obj: ObjectId, epoch: nat): set<Item> {
    set p | p in s.peers :: Item(Key(p, obj), epoch)
  }

  // --------------------------------------------------------------------- steps

  predicate Enabled(s: State, a: Action) {
    match a
    case LocalInvalidate(b, _) => b !in s.broadcasts
    case SendAcked(b, peer) => b in s.broadcasts && peer in s.broadcasts[b].todo && s.broadcasts[b].marked == None
    case SendFailed(b, peer, _) => b in s.broadcasts && peer in s.broadcasts[b].todo && s.broadcasts[b].marked == None
    case Enqueue(b) => b in s.broadcasts && s.broadcasts[b].marked.Some?
    case BroadcastEnd(b) => b in s.broadcasts && s.broadcasts[b].todo == {} && s.broadcasts[b].marked == None
    case GenerationMoves(obj, epoch) => true
    case PeerAdvance(key, epoch) => true
    case MarkOther => true
    case TakeSnapshot => true
    case RetryAcked(item) => item in s.snapshot
    case RetryFailed(item, _) => item in s.snapshot
    case RemoveAcked(item) => item in s.acked
    case Check => Idle(s)
    case Clear => s.checked
    case Restart => true
  }

  function Apply(s: State, a: Action): State
    requires Enabled(s, a)
  {
    match a
    case LocalInvalidate(b, obj) =>
      var e := s.Epoch(obj) + 1;
      s.(epochs := s.epochs[obj := e], broadcasts := s.broadcasts[b := Broadcast(obj, e, s.peers, None)],
         sent := s.sent[obj := if s.Sent(obj) < e then e else s.Sent(obj)], due := s.due + Owed(s, obj, e))
    case SendAcked(b, peer) =>
      var c := s.broadcasts[b];
      s.(remote := Applied(s.remote, Key(peer, c.obj), c.epoch),
         broadcasts := s.broadcasts[b := c.(todo := c.todo - {peer})])
    case SendFailed(b, peer, applied) =>
      var c := s.broadcasts[b];
      s.(remote := if applied then Applied(s.remote, Key(peer, c.obj), c.epoch) else s.remote,
         degraded := Mark(s.degraded, PeerInvalidationFailed),
         broadcasts := s.broadcasts[b := c.(todo := c.todo - {peer}, marked := Some(peer))])
    case Enqueue(b) =>
      var c := s.broadcasts[b];
      Queue(s, Item(Key(c.marked.value, c.obj), c.epoch)).(broadcasts := s.broadcasts[b := c.(marked := None)])
    case BroadcastEnd(b) => s.(broadcasts := s.broadcasts - {b})
    case GenerationMoves(obj, epoch) => s.(epochs := s.epochs[obj := epoch])
    case PeerAdvance(key, epoch) => s.(remote := Applied(s.remote, key, epoch))
    case MarkOther => s.(degraded := Mark(s.degraded, OtherReason))
    case TakeSnapshot => s.(snapshot := set k | k in s.pending :: Item(k, s.pending[k]))
    case RetryAcked(item) =>
      s.(remote := Applied(s.remote, item.key, item.epoch), snapshot := s.snapshot - {item}, acked := s.acked + {item})
    case RetryFailed(item, applied) =>
      s.(remote := if applied then Applied(s.remote, item.key, item.epoch) else s.remote,
         snapshot := s.snapshot - {item})
    case RemoveAcked(item) => Unqueue(s, item).(acked := s.acked - {item})
    case Check => s.(checked := true)
    case Clear =>
      s.(degraded := if s.degraded == Some(PeerInvalidationFailed) then None else s.degraded, checked := false)
    case Restart =>
      s.(broadcasts := map[], pending := map[], untracked := false, degraded := None,
         snapshot := {}, acked := {}, checked := false)
  }

  // ----------------------------------------------------------------- invariant

  predicate InTodo(c: Broadcast, d: Item) {
    c.obj == d.key.obj && c.epoch == d.epoch && d.key.peer in c.todo
  }

  predicate IsMarked(c: Broadcast, d: Item) {
    c.obj == d.key.obj && c.epoch == d.epoch && c.marked == Some(d.key.peer)
  }

  predicate InBroadcast(c: Broadcast, d: Item) {
    InTodo(c, d) || IsMarked(c, d)
  }

  /** What is owed to a peer has been applied there, is queued at that epoch or a
      later one, is covered by the sticky flag, or is still being sent. */
  ghost predicate Covered(s: State, d: Item) {
    || d.epoch <= s.Remote(d.key)
    || (d.key in s.pending && d.epoch <= s.pending[d.key])
    || s.untracked
    || exists b :: b in s.broadcasts && InBroadcast(s.broadcasts[b], d)
  }

  ghost predicate Tracked(s: State) {
    && (forall d :: d in s.due ==> Covered(s, d))
    && (forall i :: i in s.acked ==> i.epoch <= s.Remote(i.key))
  }

  function SentIn(sent: map<ObjectId, nat>, o: ObjectId): nat {
    if o in sent then sent[o] else 0
  }

  /** A peer that is owed anything about an object is owed the last epoch that was
      broadcast for it, and so is every other peer. */
  ghost predicate DueOk(peers: set<string>, sent: map<ObjectId, nat>, due: set<Item>) {
    && (forall d :: d in due ==> d.key.peer in peers && 0 < d.epoch <= SentIn(sent, d.key.obj))
    && (forall p, o :: p in peers && SentIn(sent, o) > 0 ==> Item(Key(p, o), SentIn(sent, o)) in due)
  }

  ghost predicate PendingOwed(pending: map<Key, nat>, due: set<Item>) {
    forall k :: k in pending ==> Item(k, pending[k]) in due
  }

  ghost predicate SendsOwed(broadcasts: map<nat, Broadcast>, due: set<Item>) {
    forall b, p :: b in broadcasts && Sending(broadcasts[b], p) ==>
      Item(Key(p, broadcasts[b].obj), broadcasts[b].epoch) in due
  }

  /** Whatever is queued, being sent, given up, retried or acknowledged is owed. */
  ghost predicate Recorded(s: State) {
    && DueOk(s.peers, s.sent, s.due)
    && PendingOwed(s.pending, s.due)
    && SendsOwed(s.broadcasts, s.due)
    && (s.untracked ==> s.due != {})
    && s.snapshot <= s.due && s.acked <= s.due
  }

  predicate Sending(c: Broadcast, p: string) {
    p in c.todo || c.marked == Some(p)
  }

  ghost predicate StillToTell(s: State, d: Item) {
    exists b :: b in s.broadcasts && InTodo(s.broadcasts[b], d)
  }

  /** A send of this or a later epoch failed, as far as the node knows. */
  ghost predicate Failing(s: State, d: Item) {
    || s.untracked
    || (d.key in s.pending && d.epoch <= s.pending[d.key])
    || exists b :: b in s.broadcasts && IsMarked(s.broadcasts[b], d)
  }

  /** The peer may have missed the last epoch broadcast: a send of it failed, it
      has not been acknowledged since, and it is not about to be sent. */
  ghost predicate InDoubt(s: State, d: Item) {
    d == s.Last(d.key) && d !in s.acked && Failing(s, d) && !StillToTell(s, d)
  }

  /** An older epoch in the queue is no reason for doubt: the peer acknowledged a
      newer one. What counts is the last epoch broadcast, not the generation. */
  ghost predicate Doubtful(s: State) {
    exists d :: d in s.due && InDoubt(s, d)
  }

  /** Every peer's generation has reached every epoch that the node ever broadcast,
      except where the last of them is about to be sent. */
  ghost predicate Reached(s: State) {
    forall d :: d in s.due ==> d.epoch <= s.Remote(d.key) || StillToTell(s, s.Last(d.key))
  }

  ghost predicate Sound(s: State) {
    s.Ready() ==> Reached(s)
  }

  ghost predicate Inv(s: State) {
    Tracked(s) && Recorded(s) && Sound(s)
  }

  lemma LastIsDue(s: State, d: Item)
    requires DueOk(s.peers, s.sent, s.due) && d in s.due
    ensures s.Last(d.key) in s.due && d.epoch <= s.Last(d.key).epoch
  {
    assert d.key == Key(d.key.peer, d.key.obj);
  }

  // ------------------------------------------------------------- preservation

  lemma AppliedGrows(remote: map<Key, nat>, key: Key, epoch: nat, k: Key)
    ensures
      var was := if k in remote then remote[k] else 0;
      var r := Applied(remote, key, epoch);
      var now := if k in r then r[k] else 0;
      was <= now && (k == key ==> epoch <= now) && (now == was || (k == key && now == epoch))
  {
  }

  /** Growing generations keep everything that is tracked. */
  lemma RemoteGrows(s: State, key: Key, epoch: nat)
    requires Tracked(s)
    ensures Tracked(s.(remote := Applied(s.remote, key, epoch)))
    ensures epoch <= s.(remote := Applied(s.remote, key, epoch)).Remote(key)
  {
    var s' := s.(remote := Applied(s.remote, key, epoch));
    forall d | d in s.due
      ensures Covered(s', d)
    {
      assert Covered(s, d);
      AppliedGrows(s.remote, key, epoch, d.key);
    }
    forall i | i in s.acked
      ensures i.epoch <= s'.Remote(i.key)
    {
      AppliedGrows(s.remote, key, epoch, i.key);
    }
  }

  /** Changing one broadcast keeps what is tracked if whatever it covered is
      covered otherwise. */
  lemma BroadcastChanges(s: State, b: nat, broadcasts: map<nat, Broadcast>)
    requires Tracked(s)
    requires b in s.broadcasts
    requires forall x :: x in s.broadcasts && x != b ==> x in broadcasts && broadcasts[x] == s.broadcasts[x]
    requires forall d :: d in s.due && InBroadcast(s.broadcasts[b], d) ==> Covered(s.(broadcasts := broadcasts), d)
    ensures Tracked(s.(broadcasts := broadcasts))
  {
    forall d | d in s.due
      ensures Covered(s.(broadcasts := broadcasts), d)
    {
      assert Covered(s, d);
      if x :| x in s.broadcasts && InBroadcast(s.broadcasts[x], d) {
        assert x == b || InBroadcast(broadcasts[x], d);
      }
    }
  }

  lemma LocalInvalidateTracked(s: State, b: nat, obj: ObjectId)
    requires Tracked(s) && Enabled(s, LocalInvalidate(b, obj))
    ensures Tracked(Apply(s, LocalInvalidate(b, obj)))
  {
    var s' := Apply(s, LocalInvalidate(b, obj));
    forall d | d in s'.due
      ensures Covered(s', d)
    {
      if d in s.due {
        assert Covered(s, d);
        if x :| x in s.broadcasts && InBroadcast(s.broadcasts[x], d) {
          assert InBroadcast(s'.broadcasts[x], d);
        }
      } else {
        assert InBroadcast(s'.broadcasts[b], d);
      }
    }
  }

  lemma SendTracked(s: State, a: Action)
    requires Tracked(s) && (a.SendAcked? || a.SendFailed?) && Enabled(s, a)
    ensures Tracked(Apply(s, a))
  {
    var s', c := Apply(s, a), s.broadcasts[a.b];
    var t := s;
    if a.SendAcked? || a.applied {
      RemoteGrows(s, Key(a.peer, c.obj), c.epoch);
      t := s.(remote := Applied(s.remote, Key(a.peer, c.obj), c.epoch));
    }
    forall d | d in t.due && InBroadcast(c, d)
      ensures Covered(t.(broadcasts := s'.broadcasts), d)
    {
      assert d.key.peer == a.peer || InBroadcast(s'.broadcasts[a.b], d);
      assert a.SendFailed? && d.key.peer == a.peer ==> InBroadcast(s'.broadcasts[a.b], d);
    }
    BroadcastChanges(t, a.b, s'.broadcasts);
  }

  lemma QueueTracked(s: State, item: Item)
    requires Tracked(s)
    ensures Tracked(Queue(s, item))
  {
    var s' := Queue(s, item);
    forall d | d in s.due
      ensures Covered(s', d)
    {
      QueueKeepsCovered(s, item, d);
    }
  }

  lemma QueueKeepsCovered(s: State, item: Item, d: Item)
    requires Covered(s, d)
    ensures Covered(Queue(s, item), d)
  {
    var s' := Queue(s, item);
    assert s'.broadcasts == s.broadcasts && s'.remote == s.remote;
    if !(exists b :: b in s.broadcasts && InBroadcast(s.broadcasts[b], d)) {
      assert d.key in s.pending ==> s.pending[d.key] <= s'.pending[d.key];
    }
  }

  lemma EnqueueTracked(s: State, b: nat)
    requires Tracked(s) && Enabled(s, Enqueue(b))
    ensures Tracked(Apply(s, Enqueue(b)))
  {
    var s', c := Apply(s, Enqueue(b)), s.broadcasts[b];
    var item := Item(Key(c.marked.value, c.obj), c.epoch);
    var t := Queue(s, item);
    QueueTracked(s, item);
    forall d | d in t.due && InBroadcast(c, d)
      ensures Covered(t.(broadcasts := s'.broadcasts), d)
    {
      if d == item {
        QueueCovers(s, item);
      } else {
        assert InBroadcast(s'.broadcasts[b], d);
      }
    }
    BroadcastChanges(t, b, s'.broadcasts);
  }

  lemma QueueCovers(s: State, item: Item)
    ensures
      var t := Queue(s, item);
      t.untracked || (item.key in t.pending && item.epoch <= t.pending[item.key])
  {
  }

  lemma UnqueueTracked(s: State, item: Item)
    requires Tracked(s)
    requires item.epoch <= s.Remote(item.key)
    ensures Tracked(Unqueue(s, item))
  {
    var s' := Unqueue(s, item);
    forall d | d in s.due
      ensures Covered(s', d)
    {
      assert Covered(s, d);
    }
  }

  lemma EndTracked(s: State, b: nat)
    requires Tracked(s) && Enabled(s, BroadcastEnd(b))
    ensures Tracked(Apply(s, BroadcastEnd(b)))
  {
    BroadcastChanges(s, b, s.broadcasts - {b});
  }

  lemma StepTracked(s: State, a: Action)
    requires Tracked(s) && Enabled(s, a) && a != Restart
    ensures Tracked(Apply(s, a))
  {
    var s' := Apply(s, a);
    if a.LocalInvalidate? {
      LocalInvalidateTracked(s, a.b, a.obj);
    } else if a.SendAcked? || a.SendFailed? {
      SendTracked(s, a);
    } else if a.Enqueue? {
      EnqueueTracked(s, a.b);
    } else if a.BroadcastEnd? {
      EndTracked(s, a.b);
    } else if a.PeerAdvance? {
      RemoteGrows(s, a.key, a.epoch);
    } else if a.RetryAcked? || (a.RetryFailed? && a.applied) {
      RemoteGrows(s, a.item.key, a.item.epoch);
      SameTracked(s.(remote := s'.remote), s');
    } else if a.RemoveAcked? {
      UnqueueTracked(s, a.item);
      SameTracked(Unqueue(s, a.item), s');
    } else {
      SameTracked(s, s');
    }
  }

  /** Only these parts matter to what is tracked. */
  lemma SameTracked(s: State, s': State)
    requires Tracked(s)
    requires s'.remote == s.remote && s'.pending == s.pending && s'.untracked == s.untracked
    requires s'.broadcasts == s.broadcasts && s'.due == s.due
    requires forall i :: i in s'.acked ==> i in s.acked || i.epoch <= s.Remote(i.key)
    ensures Tracked(s')
  {
    forall d | d in s'.due
      ensures Covered(s', d)
    {
      assert Covered(s, d);
    }
  }

  lemma OwedIs(s: State, obj: ObjectId, epoch: nat, d: Item)
    ensures d in Owed(s, obj, epoch) <==> d.key.obj == obj && d.epoch == epoch && d.key.peer in s.peers
  {
    if d.key.obj == obj && d.epoch == epoch {
      assert d == Item(Key(d.key.peer, obj), epoch);
    }
  }

  lemma LocalInvalidateDue(s: State, b: nat, obj: ObjectId)
    requires Recorded(s) && Enabled(s, LocalInvalidate(b, obj))
    ensures var s' := Apply(s, LocalInvalidate(b, obj)); DueOk(s'.peers, s'.sent, s'.due)
  {
    var s', e := Apply(s, LocalInvalidate(b, obj)), s.Epoch(obj) + 1;
    forall d | d in s'.due
      ensures d.key.peer in s.peers && 0 < d.epoch <= SentIn(s'.sent, d.key.obj)
    {
      OwedIs(s, obj, e, d);
    }
    forall p, o | p in s.peers && SentIn(s'.sent, o) > 0
      ensures Item(Key(p, o), SentIn(s'.sent, o)) in s'.due
    {
      OwedIs(s, obj, e, Item(Key(p, obj), e));
    }
  }

  lemma LocalInvalidateRecorded(s: State, b: nat, obj: ObjectId)
    requires Recorded(s) && Enabled(s, LocalInvalidate(b, obj))
    ensures Recorded(Apply(s, LocalInvalidate(b, obj)))
  {
    var s', e := Apply(s, LocalInvalidate(b, obj)), s.Epoch(obj) + 1;
    LocalInvalidateDue(s, b, obj);
    forall x, p | x in s'.broadcasts && Sending(s'.broadcasts[x], p)
      ensures Item(Key(p, s'.broadcasts[x].obj), s'.broadcasts[x].epoch) in s'.due
    {
      OwedIs(s, obj, e, Item(Key(p, obj), e));
    }
  }

  lemma EnqueueRecorded(s: State, b: nat)
    requires Recorded(s) && Enabled(s, Enqueue(b))
    ensures Recorded(Apply(s, Enqueue(b)))
  {
    var c := s.broadcasts[b];
    assert Sending(c, c.marked.value);
    QueueOwed(s.pending, s.limit, Item(Key(c.marked.value, c.obj), c.epoch), s.due);
    FewerSends(s.broadcasts, s.broadcasts[b := c.(marked := None)], s.due);
  }

  lemma QueueOwed(pending: map<Key, nat>, limit: nat, item: Item, due: set<Item>)
    requires PendingOwed(pending, due) && item in due
    ensures PendingOwed(Queued(pending, limit, item), due)
  {
  }

  lemma FewerSends(broadcasts: map<nat, Broadcast>, fewer: map<nat, Broadcast>, due: set<Item>)
    requires SendsOwed(broadcasts, due)
    requires forall b :: b in fewer ==>
      && b in broadcasts && fewer[b].obj == broadcasts[b].obj && fewer[b].epoch == broadcasts[b].epoch
      && forall p :: Sending(fewer[b], p) ==> Sending(broadcasts[b], p)
    ensures SendsOwed(fewer, due)
  {
  }

  lemma StepRecorded(s: State, a: Action)
    requires Recorded(s) && Enabled(s, a)
    ensures Recorded(Apply(s, a))
  {
    if a.LocalInvalidate? {
      LocalInvalidateRecorded(s, a.b, a.obj);
    } else if a.Enqueue? {
      EnqueueRecorded(s, a.b);
    } else {
      FewerSends(s.broadcasts, Apply(s, a).broadcasts, s.due);
    }
  }

  // ----------------------------------------------------------------- readiness

  /** Growing generations of peers and unchanged sends keep what is reached. */
  lemma SameReached(s: State, s': State)
    requires Reached(s)
    requires s'.due == s.due && s'.sent == s.sent
    requires forall k :: s.Remote(k) <= s'.Remote(k)
    requires forall d :: StillToTell(s, d) ==> StillToTell(s', d) || d.epoch <= s'.Remote(d.key)
    requires forall d :: d in s.due ==> d.epoch <= s.Last(d.key).epoch
    ensures Reached(s')
  {
    forall d | d in s'.due
      ensures d.epoch <= s'.Remote(d.key) || StillToTell(s', s'.Last(d.key))
    {
      assert s'.Last(d.key) == s.Last(d.key);
    }
  }

  lemma LocalInvalidateReached(s: State, b: nat, obj: ObjectId)
    requires Recorded(s) && Reached(s) && Enabled(s, LocalInvalidate(b, obj))
    ensures Reached(Apply(s, LocalInvalidate(b, obj)))
  {
    var s', e := Apply(s, LocalInvalidate(b, obj)), s.Epoch(obj) + 1;
    forall d | d in s'.due
      ensures d.epoch <= s'.Remote(d.key) || StillToTell(s', s'.Last(d.key))
    {
      OwedIs(s, obj, e, d);
      assert d.key == Key(d.key.peer, d.key.obj);
      if d.key.obj == obj && s.Sent(obj) < e {
        assert InTodo(s'.broadcasts[b], s'.Last(d.key));
      } else {
        assert s'.Last(d.key) == s.Last(d.key) && s.Last(d.key) in s.due;
        if x :| x in s.broadcasts && InTodo(s.broadcasts[x], s.Last(d.key)) {
          assert InTodo(s'.broadcasts[x], s.Last(d.key));
        }
      }
    }
  }

  lemma SendAckedReached(s: State, b: nat, peer: string)
    requires Recorded(s) && Reached(s) && Enabled(s, SendAcked(b, peer))
    ensures Reached(Apply(s, SendAcked(b, peer)))
  {
    var s', c := Apply(s, SendAcked(b, peer)), s.broadcasts[b];
    forall k
      ensures s.Remote(k) <= s'.Remote(k)
    {
      AppliedGrows(s.remote, Key(peer, c.obj), c.epoch, k);
    }
    forall d | StillToTell(s, d)
      ensures StillToTell(s', d) || d.epoch <= s'.Remote(d.key)
    {
      var x :| x in s.broadcasts && InTodo(s.broadcasts[x], d);
      AppliedGrows(s.remote, Key(peer, c.obj), c.epoch, d.key);
      assert (x == b && d.key.peer == peer) || InTodo(s'.broadcasts[x], d);
    }
    SameReached(s, s');
  }

  /** Every step that leaves a node ready keeps what is reached, except a clear and
      a restart. */
  lemma StepReached(s: State, a: Action)
    requires Recorded(s) && Reached(s) && Enabled(s, a)
    requires !a.Clear? && !a.Restart? && !a.SendFailed?
    ensures Reached(Apply(s, a))
  {
    if a.LocalInvalidate? {
      LocalInvalidateReached(s, a.b, a.obj);
    } else if a.SendAcked? {
      SendAckedReached(s, a.b, a.peer);
    } else {
      OtherReached(s, a);
    }
  }

  lemma OtherReached(s: State, a: Action)
    requires Recorded(s) && Reached(s) && Enabled(s, a)
    requires !a.Clear? && !a.Restart? && !a.SendFailed? && !a.LocalInvalidate? && !a.SendAcked?
    ensures Reached(Apply(s, a))
  {
    var s' := Apply(s, a);
    forall k
      ensures s.Remote(k) <= s'.Remote(k)
    {
      RemoteNeverFalls(s, a, k);
    }
    forall d | StillToTell(s, d)
      ensures StillToTell(s', d)
    {
      SendsStay(s, a, d);
    }
    OtherFrame(s, a);
    SameReached(s, s');
  }

  lemma OtherFrame(s: State, a: Action)
    requires Enabled(s, a) && !a.LocalInvalidate?
    ensures Apply(s, a).due == s.due && Apply(s, a).sent == s.sent
  {
  }

  lemma RemoteNeverFalls(s: State, a: Action, k: Key)
    requires Enabled(s, a)
    ensures s.Remote(k) <= Apply(s, a).Remote(k)
  {
    if a.SendAcked? || a.SendFailed? {
      AppliedGrows(s.remote, Key(a.peer, s.broadcasts[a.b].obj), s.broadcasts[a.b].epoch, k);
    } else if a.PeerAdvance? {
      AppliedGrows(s.remote, a.key, a.epoch, k);
    } else if a.RetryAcked? || a.RetryFailed? {
      AppliedGrows(s.remote, a.item.key, a.item.epoch, k);
    }
  }

  lemma SendsStay(s: State, a: Action, d: Item)
    requires Enabled(s, a) && StillToTell(s, d)
    requires !a.SendAcked? && !a.SendFailed? && !a.LocalInvalidate? && !a.Restart?
    ensures StillToTell(Apply(s, a), d)
  {
    var s' := Apply(s, a);
    var x :| x in s.broadcasts && InTodo(s.broadcasts[x], d);
    assert x in s'.broadcasts && InTodo(s'.broadcasts[x], d);
  }

  /** A node without doubt has reached its peers. */
  lemma WithoutDoubt(s: State)
    requires Tracked(s) && Recorded(s) && !Doubtful(s)
    ensures Reached(s)
  {
    forall d | d in s.due
      ensures d.epoch <= s.Remote(d.key) || StillToTell(s, s.Last(d.key))
    {
      LastIsDue(s, d);
      var last := s.Last(d.key);
      assert Covered(s, last) && !InDoubt(s, last);
      if b :| b in s.broadcasts && InBroadcast(s.broadcasts[b], last) {
        assert InTodo(s.broadcasts[b], last) || IsMarked(s.broadcasts[b], last);
      }
    }
  }

  /** Peers that agree with what the node keeps, one of which is one epoch short of
      the last one: it failed or is about to be sent, and is not acknowledged. */
  lemma OneShort(s: State, d: Item) returns (r: map<Key, nat>)
    requires Recorded(s) && d in s.due && d == s.Last(d.key) && d !in s.acked
    requires Failing(s, d) || StillToTell(s, d)
    ensures Tracked(s.(remote := r)) && s.(remote := r).Remote(d.key) < d.epoch
  {
    var keys := set x | x in s.due :: x.key;
    r := map k | k in keys :: if k == d.key then d.epoch - 1 else s.Sent(k.obj);
    var s' := s.(remote := r);
    assert d.key in keys;
    forall x | x in s.due
      ensures Covered(s', x)
      ensures x in s.acked ==> x.epoch <= s'.Remote(x.key)
    {
      assert x.key in keys;
      LastIsDue(s, x);
      assert x.key == d.key && x.epoch == d.epoch ==> x == d;
      if x == d {
        LostIsCovered(s', d);
      }
    }
  }

  lemma LostIsCovered(s: State, d: Item)
    requires Failing(s, d) || StillToTell(s, d)
    ensures Covered(s, d)
  {
    if Failing(s, d) {
      FailingIsCovered(s, d);
    } else {
      var b :| b in s.broadcasts && InTodo(s.broadcasts[b], d);
      assert InBroadcast(s.broadcasts[b], d);
    }
  }

  /** A node in doubt may not have reached its peers. */
  lemma InDoubtUnreached(s: State, d: Item) returns (r: map<Key, nat>)
    requires Recorded(s) && d in s.due && InDoubt(s, d)
    ensures Tracked(s.(remote := r)) && !Reached(s.(remote := r))
  {
    r := OneShort(s, d);
    var s' := s.(remote := r);
    assert s'.Last(d.key) == d;
    assert StillToTell(s', d) ==> StillToTell(s, d);
  }

  lemma FailingIsCovered(s: State, d: Item)
    requires Failing(s, d)
    ensures Covered(s, d)
  {
    if b :| b in s.broadcasts && IsMarked(s.broadcasts[b], d) {
      assert InBroadcast(s.broadcasts[b], d);
    }
  }

  /** What a node cannot see is what its peers have. Clearing the flag is sound for
      every state of the peers that agrees with what the node keeps, exactly when
      the node is not in doubt. */
  lemma ClearIsSafeExactly(s: State)
    requires Recorded(s) && Enabled(s, Clear)
    requires s.degraded == Some(PeerInvalidationFailed)
    ensures
      (forall r: map<Key, nat> :: Tracked(s.(remote := r)) ==> Sound(Apply(s.(remote := r), Clear))) <==> !Doubtful(s)
  {
    if !Doubtful(s) {
      forall r: map<Key, nat> | Tracked(s.(remote := r))
        ensures Sound(Apply(s.(remote := r), Clear))
      {
        SameDoubt(s, r);
        WithoutDoubt(s.(remote := r));
        ClearFrame(s.(remote := r));
      }
    } else {
      var d :| d in s.due && InDoubt(s, d);
      var r := InDoubtUnreached(s, d);
      ClearFrame(s.(remote := r));
    }
  }

  lemma SameDoubt(s: State, r: map<Key, nat>)
    ensures Recorded(s) ==> Recorded(s.(remote := r))
    ensures Doubtful(s.(remote := r)) ==> Doubtful(s)
  {
    var s' := s.(remote := r);
    if d :| d in s'.due && InDoubt(s', d) {
      assert InDoubt(s, d);
    }
  }

  /** The flag says nothing about the peers. */
  lemma ClearFrame(s: State)
    requires Enabled(s, Clear)
    ensures Reached(Apply(s, Clear)) <==> Reached(s)
  {
    var s' := Apply(s, Clear);
    assert forall d :: StillToTell(s', d) <==> StillToTell(s, d);
    assert forall k :: s'.Last(k) == s.Last(k) && s'.Remote(k) == s.Remote(k);
  }

  /** A check that is followed at once by its clear is safe, unless some failure
      is marked and not queued yet. */
  lemma UninterruptedClearIsSafe(s: State)
    requires Enabled(s, Check)
    requires forall b :: b in s.broadcasts ==> s.broadcasts[b].marked == None
    ensures Enabled(Apply(s, Check), Clear) && !Doubtful(Apply(s, Check))
  {
    var s' := Apply(s, Check);
    forall d
      ensures !Failing(s', d)
    {
      assert forall b :: b in s'.broadcasts ==> !IsMarked(s'.broadcasts[b], d);
    }
  }

  // ------------------------------------------------------------------- restart

  /** A restart forgets the queue, the flags and the broadcasts. */
  ghost predicate LosesOnRestart(s: State, d: Item) {
    d == s.Last(d.key) && d !in s.acked && (Failing(s, d) || StillToTell(s, d))
  }

  ghost predicate Unsettled(s: State) {
    exists d :: d in s.due && LosesOnRestart(s, d)
  }

  lemma WithoutLoss(s: State)
    requires Tracked(s) && Recorded(s) && !Unsettled(s)
    ensures forall d :: d in s.due ==> d.epoch <= s.Remote(d.key)
  {
    forall d | d in s.due
      ensures d.epoch <= s.Remote(d.key)
    {
      LastIsDue(s, d);
      var last := s.Last(d.key);
      assert Covered(s, last) && !LosesOnRestart(s, last);
      if b :| b in s.broadcasts && InBroadcast(s.broadcasts[b], last) {
        assert InTodo(s.broadcasts[b], last) || IsMarked(s.broadcasts[b], last);
      }
    }
  }

  lemma RestartKeepsInv(s: State)
    requires Tracked(s) && Recorded(s) && !Unsettled(s)
    ensures Inv(Apply(s, Restart))
  {
    WithoutLoss(s);
    var s' := Apply(s, Restart);
    assert forall k :: s'.Remote(k) == s.Remote(k);
  }

  lemma LossUnreached(s: State, d: Item) returns (r: map<Key, nat>)
    requires Recorded(s) && d in s.due && LosesOnRestart(s, d)
    ensures Tracked(s.(remote := r)) && !Sound(Apply(s.(remote := r), Restart))
  {
    r := OneShort(s, d);
    RestartUnreached(s.(remote := r), d);
  }

  lemma RestartUnreached(s: State, d: Item)
    requires d in s.due && s.Remote(d.key) < d.epoch
    ensures !Sound(Apply(s, Restart))
  {
    var s' := Apply(s, Restart);
    assert d in s'.due && s'.Remote(d.key) == s.Remote(d.key);
  }

  /** A restart comes up ready. That is sound for every state of the peers that
      agrees with what the node kept, exactly when it kept nothing about a last
      epoch that was not acknowledged. */
  lemma RestartIsSafeExactly(s: State)
    requires Recorded(s)
    ensures
      (forall r: map<Key, nat> :: Tracked(s.(remote := r)) ==> Sound(Apply(s.(remote := r), Restart)))
      <==> !Unsettled(s)
  {
    if !Unsettled(s) {
      forall r: map<Key, nat> | Tracked(s.(remote := r))
        ensures Sound(Apply(s.(remote := r), Restart))
      {
        SameLoss(s, r);
        RestartKeepsInv(s.(remote := r));
      }
    } else {
      var d :| d in s.due && LosesOnRestart(s, d);
      var r := LossUnreached(s, d);
    }
  }

  lemma SameLoss(s: State, r: map<Key, nat>)
    ensures Recorded(s) ==> Recorded(s.(remote := r))
    ensures Unsettled(s.(remote := r)) ==> Unsettled(s)
  {
    var s' := s.(remote := r);
    if d :| d in s'.due && LosesOnRestart(s', d) {
      assert LosesOnRestart(s, d);
    }
  }

  // ----------------------------------------------------------------- every step

  /** The steps that make a node ready happen when it may be. */
  ghost predicate Careful(s: State, a: Action) {
    (a == Clear ==> !Doubtful(s)) && (a == Restart ==> !Unsettled(s))
  }

  lemma StepKeepsInv(s: State, a: Action)
    requires Inv(s) && Enabled(s, a) && Careful(s, a)
    ensures Inv(Apply(s, a))
  {
    if a == Restart {
      RestartKeepsInv(s);
    } else {
      StepTracked(s, a);
      StepRecorded(s, a);
      StepSound(s, a);
    }
  }

  lemma StepSound(s: State, a: Action)
    requires Inv(s) && Enabled(s, a) && Careful(s, a) && a != Restart
    ensures Sound(Apply(s, a))
  {
    if a == Clear {
      CarefulClear(s);
    } else if Apply(s, a).Ready() {
      StepStaysDegraded(s, a);
      StepReached(s, a);
    }
  }

  lemma CarefulClear(s: State)
    requires Inv(s) && Enabled(s, Clear) && !Doubtful(s)
    ensures Sound(Apply(s, Clear))
  {
    WithoutDoubt(s);
    ClearFrame(s);
  }

  lemma StepStaysDegraded(s: State, a: Action)
    requires Enabled(s, a) && a != Clear && a != Restart
    ensures Apply(s, a).Ready() ==> s.Ready() && !a.SendFailed?
  {
  }

  // ---------------------------------------------------------------------- runs

  predicate Init(s: State) {
    && s.limit == RETRY_LIMIT
    && s.broadcasts == map[] && s.pending == map[] && !s.untracked && s.degraded == None
    && s.snapshot == {} && s.acked == {} && !s.checked && s.sent == map[] && s.due == {}
  }

  ghost predicate IsRun(states: seq<State>, actions: seq<Action>) {
    && |states| == |actions| + 1
    && Init(states[0])
    && forall i {:trigger actions[i]} :: 0 <= i < |actions| ==>
         Enabled(states[i], actions[i]) && states[i + 1] == Apply(states[i], actions[i])
  }

  /** No clear falls into a moment of doubt, and no restart loses anything. */
  ghost predicate IsCareful(states: seq<State>, actions: seq<Action>)
    requires |states| == |actions| + 1
  {
    forall i {:trigger actions[i]} :: 0 <= i < |actions| ==> Careful(states[i], actions[i])
  }

  lemma {:induction false} RunKeepsInv(states: seq<State>, actions: seq<Action>, i: nat)
    requires IsRun(states, actions) && IsCareful(states, actions)
    requires i < |states|
    ensures Inv(states[i])
  {
    if i > 0 {
      RunKeepsInv(states, actions, i - 1);
      StepKeepsInv(states[i - 1], actions[i - 1]);
    }
  }

  /** Readiness is sound: in every careful run with lost requests, lost answers,
      retries in any order and generations that move without a broadcast, a ready
      node has every peer at or above every epoch it ever broadcast, or is about to
      send that peer the last one. */
  lemma ReadinessIsSound(states: seq<State>, actions: seq<Action>, i: nat)
    requires IsRun(states, actions) && IsCareful(states, actions)
    requires i < |states|
    ensures Sound(states[i])
    ensures states[i].Ready() && states[i].broadcasts == map[] ==>
      forall d :: d in states[i].due ==> d.epoch <= states[i].Remote(d.key)
  {
    RunKeepsInv(states, actions, i);
  }

  /** Whether or not clears race, nothing owed to a peer is forgotten until the
      process ends: it is applied, queued, covered by the sticky flag or being
      sent. */
  lemma {:induction false} NothingIsForgotten(states: seq<State>, actions: seq<Action>, i: nat)
    requires IsRun(states, actions)
    requires forall j {:trigger actions[j]} :: 0 <= j < |actions| && actions[j] == Restart ==> !Unsettled(states[j])
    requires i < |states|
    ensures Tracked(states[i])
  {
    if i > 0 {
      NothingIsForgotten(states, actions, i - 1);
      if actions[i - 1] == Restart {
        RunRecords(states, actions, i - 1);
        RestartKeepsInv(states[i - 1]);
      } else {
        StepTracked(states[i - 1], actions[i - 1]);
      }
    }
  }

  lemma {:induction false} RunRecords(states: seq<State>, actions: seq<Action>, i: nat)
    requires IsRun(states, actions)
    requires i < |states|
    ensures Recorded(states[i])
  {
    if i > 0 {
      RunRecords(states, actions, i - 1);
      StepRecorded(states[i - 1], actions[i - 1]);
    }
  }

  /** The same for every state of every run. */
  lemma ClearInRunIsSafeExactly(states: seq<State>, actions: seq<Action>, i: nat)
    requires IsRun(states, actions)
    requires i < |states|
    requires
      var s := states[i];
      Enabled(s, Clear) && s.degraded == Some(PeerInvalidationFailed)
    ensures
      var s := states[i];
      (forall r: map<Key, nat> :: Tracked(s.(remote := r)) ==> Sound(Apply(s.(remote := r), Clear))) <==> !Doubtful(s)
  {
    RunRecords(states, actions, i);
    ClearIsSafeExactly(states[i]);
  }

  lemma Extend(states: seq<State>, actions: seq<Action>, a: Action, s: State)
        returns (states': seq<State>, actions': seq<Action>)
    requires IsRun(states, actions)
    requires Enabled(states[|actions|], a) && s == Apply(states[|actions|], a)
    ensures IsRun(states', actions') && states'[|actions'|] == s
  {
    states', actions' := states + [s], actions + [a];
  }

  /** The only peer's send of a new broadcast fails. */
  lemma FailedSend(s: State, o: ObjectId)
    requires s.peers == {"p"} && s.broadcasts == map[] && s.Sent(o) <= s.Epoch(o)
    ensures
      var e := s.Epoch(o) + 1;
      var s1 := Apply(s, LocalInvalidate(0, o));
      && Enabled(s1, SendFailed(0, "p", false))
      && Apply(s1, SendFailed(0, "p", false)) == s.(epochs := s.epochs[o := e],
           broadcasts := map[0 := Broadcast(o, e, {}, Some("p"))],
           degraded := Mark(s.degraded, PeerInvalidationFailed),
           sent := s.sent[o := e], due := s.due + {Item(Key("p", o), e)})
  {
    var e := s.Epoch(o) + 1;
    assert Owed(s, o, e) == {Item(Key("p", o), e)};
    assert {"p"} - {"p"} == {};
  }

  /** Then it is queued, and the broadcast ends. */
  lemma FailedEnd(s: State, o: ObjectId, e: nat)
    requires s.broadcasts == map[0 := Broadcast(o, e, {}, Some("p"))] && s.pending == map[] && s.limit > 0
    ensures
      var s3 := Apply(s, Enqueue(0));
      && Enabled(s3, BroadcastEnd(0))
      && Apply(s3, BroadcastEnd(0)) == s.(broadcasts := map[], pending := map[Key("p", o) := e])
  {
    var s3 := Apply(s, Enqueue(0));
    assert s3.broadcasts == map[0 := Broadcast(o, e, {}, None)];
    assert s3.broadcasts - {0} == map[];
  }

  /** One broadcast at epoch `e` that fails before it reaches the peer. */
  lemma FailedBroadcast(s: State, o: ObjectId, states: seq<State>, actions: seq<Action>)
    returns (states': seq<State>, actions': seq<Action>)
    requires IsRun(states, actions) && states[|actions|] == s
    requires s.peers == {"p"} && s.broadcasts == map[] && s.pending == map[] && s.limit > 0
    requires s.Sent(o) <= s.Epoch(o)
    ensures IsRun(states', actions')
    ensures
      var e := s.Epoch(o) + 1;
      states'[|actions'|] == s.(epochs := s.epochs[o := e], pending := map[Key("p", o) := e],
        degraded := Mark(s.degraded, PeerInvalidationFailed),
        sent := s.sent[o := e], due := s.due + {Item(Key("p", o), e)})
  {
    FailedSend(s, o);
    var s1 := Apply(s, LocalInvalidate(0, o));
    states', actions' := Extend(states, actions, LocalInvalidate(0, o), s1);
    var s2 := Apply(s1, SendFailed(0, "p", false));
    states', actions' := Extend(states', actions', SendFailed(0, "p", false), s2);
    FailedEnd(s2, o, s.Epoch(o) + 1);
    var s3 := Apply(s2, Enqueue(0));
    states', actions' := Extend(states', actions', Enqueue(0), s3);
    states', actions' := Extend(states', actions', BroadcastEnd(0), Apply(s3, BroadcastEnd(0)));
  }

  /** The retry of a queued invalidation that succeeds. */
  lemma SuccessfulRetry(s: State, k: Key, states: seq<State>, actions: seq<Action>)
    returns (states': seq<State>, actions': seq<Action>)
    requires IsRun(states, actions) && states[|actions|] == s
    requires s.pending == map[k := 1] && s.remote == map[] && s.snapshot == {} && s.acked == {}
    ensures IsRun(states', actions')
    ensures states'[|actions'|] == s.(pending := map[], remote := map[k := 1])
  {
    var item := Item(k, 1);
    SnapshotOfOne(s, k);
    var s1 := Apply(s, TakeSnapshot);
    states', actions' := Extend(states, actions, TakeSnapshot, s1);
    var s2 := Apply(s1, RetryAcked(item));
    states', actions' := Extend(states', actions', RetryAcked(item), s2);
    RemoveOne(s2, k);
    states', actions' := Extend(states', actions', RemoveAcked(item), Apply(s2, RemoveAcked(item)));
  }

  lemma SnapshotOfOne(s: State, k: Key)
    requires s.pending == map[k := 1]
    ensures Apply(s, TakeSnapshot) == s.(snapshot := {Item(k, 1)})
  {
    assert k in s.pending;
    assert (set x | x in s.pending :: Item(x, s.pending[x])) == {Item(k, 1)};
  }

  lemma RemoveOne(s: State, k: Key)
    requires s.pending == map[k := 1] && s.acked == {Item(k, 1)}
    ensures Apply(s, RemoveAcked(Item(k, 1))) == s.(pending := map[], acked := {})
  {
    assert s.pending - {k} == map[] && s.acked - {Item(k, 1)} == {};
  }

  /** A check of an empty queue, and then a second broadcast that fails and is
      queued. */
  lemma RacingFailure(o: ObjectId) returns (states: seq<State>, actions: seq<Action>)
    ensures IsRun(states, actions)
    ensures
      var s, k := states[|actions|], Key("p", o);
      && s.checked && s.degraded == Some(PeerInvalidationFailed) && s.broadcasts == map[]
      && s.pending == map[k := 2] && s.Epoch(o) == 2 && s.Sent(o) == 2
      && Item(k, 2) in s.due && s.Remote(k) == 1 && s.acked == {} && !s.untracked
  {
    var s0 := State({"p"}, RETRY_LIMIT, map[], map[], map[], map[], false, None, {}, {}, false, map[], {});
    states, actions := FailedBroadcast(s0, o, [s0], []);
    states, actions := SuccessfulRetry(states[|actions|], Key("p", o), states, actions);
    states, actions := Extend(states, actions, Check, Apply(states[|actions|], Check));
    states, actions := FailedBroadcast(states[|actions|], o, states, actions);
  }

  lemma UnsoundAfterClear(s: State, o: ObjectId)
    requires Enabled(s, Clear) && s.degraded == Some(PeerInvalidationFailed) && s.broadcasts == map[]
    requires Item(Key("p", o), 2) in s.due && s.Remote(Key("p", o)) == 1
    ensures !Sound(Apply(s, Clear))
  {
    var s' := Apply(s, Clear);
    assert s'.Remote(Key("p", o)) == 1;
  }

  /** If the flag is cleared now, the node is ready although the peer never saw the
      second invalidation. */
  lemma RacingClearIsUnsound(o: ObjectId) returns (states: seq<State>, actions: seq<Action>)
    ensures IsRun(states, actions)
    ensures !Sound(states[|actions|])
  {
    states, actions := RacingFailure(o);
    UnsoundAfterClear(states[|actions|], o);
    states, actions := Extend(states, actions, Clear, Apply(states[|actions|], Clear));
  }

  /** A generation that moves on without a broadcast does not help: every queued
      epoch is then older than the generation, and the clear is unsound all the
      same. */
  lemma UnsentEpochIsNoExcuse(o: ObjectId) returns (states: seq<State>, actions: seq<Action>)
    ensures IsRun(states, actions) && |actions| > 0 && actions[|actions| - 1] == Clear
    ensures
      var s := states[|actions| - 1];
      && Doubtful(s) && forall k :: k in s.pending ==> s.pending[k] < s.Epoch(k.obj)
    ensures !Sound(states[|actions|])
  {
    states, actions := RacingFailure(o);
    var s := Apply(states[|actions|], GenerationMoves(o, 3));
    states, actions := Extend(states, actions, GenerationMoves(o, 3), s);
    var d := Item(Key("p", o), 2);
    assert d in s.due && InDoubt(s, d);
    UnsoundAfterClear(s, o);
    states, actions := states + [Apply(s, Clear)], actions + [Clear];
  }

  /** A restart with an epoch in the queue comes up ready, and the peer has missed
      it. */
  lemma RestartForgets(o: ObjectId) returns (states: seq<State>, actions: seq<Action>)
    ensures IsRun(states, actions)
    ensures !Sound(states[|actions|])
  {
    states, actions := RacingFailure(o);
    var s := Apply(states[|actions|], Restart);
    assert Item(Key("p", o), 2) in s.due && s.Remote(Key("p", o)) == 1;
    states, actions := Extend(states, actions, Restart, s);
  }
}
