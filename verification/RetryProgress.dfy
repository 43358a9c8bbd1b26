/** That the retry queue takes what it has room for, and that a node recovers. */
module RetryProgress {
  import opened Results
  import opened PeerReadiness
  import RetryQueue

  // ------------------------------------------------------------------ queueing

  /** The item that a step queues. */
  function ItemOf(s: State, b: nat): Item
    requires Enabled(s, Enqueue(b))
  {
    Item(Key(s.broadcasts[b].marked.value, s.broadcasts[b].obj), s.broadcasts[b].epoch)
  }

  /** The retry of `item` is given up only if its key is new and the queue full;
      otherwise the queue keeps the larger epoch, and every other entry. */
  ghost predicate TakesIn(pending: map<Key, nat>, limit: nat, untracked: bool, item: Item,
        pending': map<Key, nat>, untracked': bool)
  {
    if item.key !in pending && |pending| == limit then untracked' && pending' == pending
    else
      && untracked' == untracked
      && pending'.Keys == pending.Keys + {item.key}
      && pending'[item.key] == (if item.key in pending && pending[item.key] > item.epoch then pending[item.key]
          else item.epoch)
      && (forall k :: k in pending && k != item.key ==> pending'[k] == pending[k])
  }

  lemma QueueTakesIn(pending: map<Key, nat>, limit: nat, untracked: bool, item: Item)
    requires |pending| <= limit
    ensures TakesIn(pending, limit, untracked, item, Queued(pending, limit, item),
        untracked || Overflows(pending, limit, item))
    ensures |Queued(pending, limit, item)| <= limit
  {
    RetryQueue.PutGrows(pending, item.key, item.epoch);
  }

  lemma EnqueueExactly(s: State, b: nat)
    requires Enabled(s, Enqueue(b)) && |s.pending| <= s.limit
    ensures
      var s' := Apply(s, Enqueue(b));
      TakesIn(s.pending, s.limit, s.untracked, ItemOf(s, b), s'.pending, s'.untracked) && |s'.pending| <= s.limit
  {
    QueueTakesIn(s.pending, s.limit, s.untracked, ItemOf(s, b));
  }

  /** Keys for which a retry was ever queued, or given up. */
  function KeysQueued(states: seq<State>, actions: seq<Action>, n: nat): set<Key>
    requires n <= |actions| < |states|
  {
    if n == 0 then {}
    else KeysQueued(states, actions, n - 1) + KeysOf(states[n - 1], actions[n - 1])
  }

  function KeysOf(s: State, a: Action): set<Key> {
    if a.Enqueue? && Enabled(s, a) then {ItemOf(s, a.b).key} else {}
  }

  lemma SubsetIsSmaller<T>(a: set<T>, b: set<T>)
    requires a <= b
    ensures |a| <= |b|
  {
    assert b == a + (b - a);
  }

  /** Nothing is queued that was not enqueued, and nothing is given up before
      there is one key too many. */
  ghost predicate Roomy(s: State, keys: set<Key>) {
    && s.pending.Keys <= keys && |s.pending| <= s.limit
    && (s.untracked ==> |keys| > s.limit)
  }

  lemma EnqueueRoomy(s: State, b: nat, keys: set<Key>)
    requires Enabled(s, Enqueue(b)) && Roomy(s, keys)
    ensures Roomy(Apply(s, Enqueue(b)), keys + {ItemOf(s, b).key})
  {
    var item := ItemOf(s, b);
    var more := keys + {item.key};
    EnqueueExactly(s, b);
    SubsetIsSmaller(keys, more);
    if item.key !in s.pending {
      SubsetIsSmaller(s.pending.Keys + {item.key}, more);
    }
  }

  lemma StepRoomy(s: State, a: Action, keys: set<Key>)
    requires Enabled(s, a) && Roomy(s, keys)
    ensures Roomy(Apply(s, a), keys + KeysOf(s, a)) && Apply(s, a).limit == s.limit
  {
    if a.Enqueue? {
      EnqueueRoomy(s, a.b, keys);
    } else {
      assert keys + KeysOf(s, a) == keys;
      if a.RemoveAcked? {
        SubsetIsSmaller(Apply(s, a).pending.Keys, s.pending.Keys);
      }
    }
  }

  lemma StepInRun(states: seq<State>, actions: seq<Action>, n: nat)
    requires IsRun(states, actions) && n < |actions|
    ensures Enabled(states[n], actions[n]) && states[n + 1] == Apply(states[n], actions[n])
  {
  }

  lemma InitIsRoomy(s: State)
    requires Init(s)
    ensures Roomy(s, {})
  {
    assert s.pending.Keys == {};
  }

  lemma NextIsRoomy(states: seq<State>, actions: seq<Action>, n: nat)
    requires IsRun(states, actions) && n < |actions|
    requires Roomy(states[n], KeysQueued(states, actions, n))
    ensures Roomy(states[n + 1], KeysQueued(states, actions, n + 1)) && states[n + 1].limit == states[n].limit
  {
    StepInRun(states, actions, n);
    StepRoomy(states[n], actions[n], KeysQueued(states, actions, n));
  }

  lemma {:induction false} RunIsRoomy(states: seq<State>, actions: seq<Action>, n: nat)
    requires IsRun(states, actions) && n < |states|
    ensures Roomy(states[n], KeysQueued(states, actions, n)) && states[n].limit == RETRY_LIMIT
  {
    if n == 0 {
      InitIsRoomy(states[0]);
    } else {
      RunIsRoomy(states, actions, n - 1);
      NextIsRoomy(states, actions, n - 1);
    }
  }

  /** As long as no more keys were ever queued than there is room for, no failed
      invalidation is given up. */
  lemma NothingIsGivenUp(states: seq<State>, actions: seq<Action>, n: nat)
    requires IsRun(states, actions) && n < |states|
    requires |KeysQueued(states, actions, n)| <= RETRY_LIMIT
    ensures !states[n].untracked
  {
    RunIsRoomy(states, actions, n);
  }

  // ------------------------------------------------------------------ recovery

  /** A round of the worker, from the snapshot to the last acknowledgement. */
  predicate IsRetry(a: Action) {
    a.TakeSnapshot? || a.RetryAcked? || a.RemoveAcked?
  }

  /** The run goes on with acknowledged retries only. */
  ghost predicate Continues(actions: seq<Action>, actions': seq<Action>) {
    && actions <= actions'
    && forall i :: |actions| <= i < |actions'| ==> IsRetry(actions'[i])
  }

  lemma ContinuesOn(a: seq<Action>, b: seq<Action>, c: seq<Action>)
    requires Continues(a, b) && Continues(b, c)
    ensures Continues(a, c)
  {
  }

  /** One entry is retried, acknowledged and removed. */
  lemma RetryOne(s: State, k: Key) returns (s1: State, s2: State, s': State, item: Item)
    requires k in s.pending
    ensures s1 == Apply(s, TakeSnapshot)
    ensures Enabled(s1, RetryAcked(item)) && s2 == Apply(s1, RetryAcked(item))
    ensures Enabled(s2, RemoveAcked(item)) && s' == Apply(s2, RemoveAcked(item))
    ensures s'.pending == s.pending - {k} && s'.untracked == s.untracked && s'.degraded == s.degraded
    ensures s.pending[k] <= s'.Remote(k)
  {
    item := Item(k, s.pending[k]);
    s1 := Apply(s, TakeSnapshot);
    s2 := Apply(s1, RetryAcked(item));
    s' := Apply(s2, RemoveAcked(item));
    AppliedGrows(s.remote, k, item.epoch, k);
  }

  lemma RetryOneInRun(states: seq<State>, actions: seq<Action>, k: Key)
      returns (states': seq<State>, actions': seq<Action>)
    requires IsRun(states, actions) && k in states[|actions|].pending
    ensures IsRun(states', actions') && Continues(actions, actions')
    ensures
      var s, s' := states[|actions|], states'[|actions'|];
      && s'.pending == s.pending - {k} && s'.untracked == s.untracked && s'.degraded == s.degraded
      && s.pending[k] <= s'.Remote(k)
      && forall j :: s.Remote(j) <= s'.Remote(j)
  {
    var s := states[|actions|];
    var s1, s2, s', item := RetryOne(s, k);
    states', actions' := states + [s1, s2, s'], actions + [TakeSnapshot, RetryAcked(item), RemoveAcked(item)];
    RemoteGrowsOn(s, s1, s2, s', item);
    ThreeMore(states, actions, states', actions');
  }

  lemma RemoteGrowsOn(s: State, s1: State, s2: State, s': State, item: Item)
    requires s1 == Apply(s, TakeSnapshot)
    requires Enabled(s1, RetryAcked(item)) && s2 == Apply(s1, RetryAcked(item))
    requires Enabled(s2, RemoveAcked(item)) && s' == Apply(s2, RemoveAcked(item))
    ensures forall j :: s.Remote(j) <= s'.Remote(j)
  {
    forall j
      ensures s.Remote(j) <= s'.Remote(j)
    {
      AppliedGrows(s.remote, item.key, item.epoch, j);
    }
  }

  lemma ThreeMore(states: seq<State>, actions: seq<Action>, states': seq<State>, actions': seq<Action>)
    requires IsRun(states, actions)
    requires |states'| == |states| + 3 && states <= states' && |actions'| == |actions| + 3 && actions <= actions'
    requires forall i {:trigger actions'[i]} :: |actions| <= i < |actions'| ==>
      Enabled(states'[i], actions'[i]) && states'[i + 1] == Apply(states'[i], actions'[i])
    ensures IsRun(states', actions')
  {
    forall i | 0 <= i < |actions'|
      ensures Enabled(states'[i], actions'[i]) && states'[i + 1] == Apply(states'[i], actions'[i])
    {
      if i < |actions| {
        assert actions'[i] == actions[i] && states'[i] == states[i] && states'[i + 1] == states[i + 1];
      }
    }
  }

  /** Acknowledged retries empty the queue, and then every peer has what was
      queued for it. */
  lemma {:induction false} RetriesEmptyTheQueue(states: seq<State>, actions: seq<Action>)
      returns (states': seq<State>, actions': seq<Action>)
    requires IsRun(states, actions)
    ensures IsRun(states', actions') && Continues(actions, actions')
    ensures
      var s, s' := states[|actions|], states'[|actions'|];
      && s'.pending == map[] && s'.untracked == s.untracked && s'.degraded == s.degraded
      && (forall k :: k in s.pending ==> s.pending[k] <= s'.Remote(k))
      && (forall j :: s.Remote(j) <= s'.Remote(j))
    decreases |states[|actions|].pending|
  {
    var s := states[|actions|];
    if s.pending == map[] {
      states', actions' := states, actions;
    } else {
      var k :| k in s.pending;
      var states1, actions1 := RetryOneInRun(states, actions, k);
      assert states1[|actions1|].pending.Keys == s.pending.Keys - {k};
      states', actions' := RetriesEmptyTheQueue(states1, actions1);
      ContinuesOn(actions, actions1, actions');
    }
  }

  lemma CheckThenClear(s: State)
    requires s.pending == map[] && !s.untracked
    ensures Enabled(s, Check) && Enabled(Apply(s, Check), Clear)
    ensures s.degraded != Some(OtherReason) ==> Apply(Apply(s, Check), Clear).Ready()
  {
    assert s.degraded.Some? ==> s.degraded.value == PeerInvalidationFailed || s.degraded.value == OtherReason;
  }

  /** A node that never had more keys queued than there is room for can recover
      from every state: once the retries are acknowledged the check succeeds, and
      a clear then makes it ready, unless it is degraded for another reason. */
  lemma NodeRecovers(states: seq<State>, actions: seq<Action>)
      returns (states': seq<State>, actions': seq<Action>)
    requires IsRun(states, actions)
    requires |KeysQueued(states, actions, |actions|)| <= RETRY_LIMIT
    ensures IsRun(states', actions') && Continues(actions, actions')
    ensures
      var s, s' := states[|actions|], states'[|actions'|];
      && Enabled(s', Check) && Enabled(Apply(s', Check), Clear)
      && (s.degraded != Some(OtherReason) ==> Apply(Apply(s', Check), Clear).Ready())
      && (forall k :: k in s.pending ==> s.pending[k] <= s'.Remote(k))
  {
    NothingIsGivenUp(states, actions, |actions|);
    states', actions' := RetriesEmptyTheQueue(states, actions);
    CheckThenClear(states'[|actions'|]);
  }
}
