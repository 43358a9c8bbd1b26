/** The retry queue and the degraded flag as the object that the retry worker and
    the broadcasts share. Each method is what the code does under one lock, except
    RetryPending, which is one round of the worker with nothing in between. */
module RetryQueue {
  import opened Results
  import opened PeerReadiness

  predicate Lists(pending: map<Key, nat>, item: Item) {
    item.key in pending && pending[item.key] == item.epoch
  }

  /** What a round leaves: the entries that were not acknowledged. */
  function Unacknowledged(pending: map<Key, nat>, acks: set<Item>): map<Key, nat> {
    map k | k in pending && Item(k, pending[k]) !in acks :: pending[k]
  }

  lemma NoneAcknowledged(all: map<Key, nat>)
    ensures Unacknowledged(all, {}) == all
  {
  }

  lemma UnqueueStep(all: map<Key, nat>, done: set<Item>, item: Item)
    requires Lists(all, item)
    ensures Unqueued(Unacknowledged(all, done), item) == Unacknowledged(all, done + {item})
  {
    var before := Unacknowledged(all, done);
    var after := Unacknowledged(all, done + {item});
    assert all[item.key] == item.epoch;
    assert forall k :: k in after <==> k in before && k != item.key;
    assert Unqueued(before, item) == before - {item.key};
    assert after == before - {item.key};
  }

  lemma AllAcknowledged(all: map<Key, nat>, acks: set<Item>)
    ensures Unacknowledged(all, acks) == map[] <==> forall k :: k in all ==> Item(k, all[k]) in acks
  {
    if Unacknowledged(all, acks) == map[] {
      assert forall k :: k in all ==> k !in Unacknowledged(all, acks);
    }
  }

  /** The acknowledged among the first `n` items. */
  function Acknowledged(items: seq<Item>, n: nat, acks: set<Item>): set<Item>
    requires n <= |items|
  {
    if n == 0 then {}
    else Acknowledged(items, n - 1, acks) + (if items[n - 1] in acks then {items[n - 1]} else {})
  }

  lemma {:induction false} AcknowledgedIs(items: seq<Item>, n: nat, acks: set<Item>, x: Item)
    requires n <= |items|
    ensures x in Acknowledged(items, n, acks) <==> x in acks && x in items[..n]
  {
    if n > 0 {
      AcknowledgedIs(items, n - 1, acks, x);
      assert items[..n] == items[..n - 1] + [items[n - 1]];
    }
  }

  lemma RoundIsComplete(all: map<Key, nat>, items: seq<Item>, acks: set<Item>)
    requires forall k :: k in all ==> Item(k, all[k]) in items
    ensures Unacknowledged(all, Acknowledged(items, |items|, acks)) == Unacknowledged(all, acks)
  {
    forall k | k in all
      ensures Item(k, all[k]) in Acknowledged(items, |items|, acks) <==> Item(k, all[k]) in acks
    {
      AcknowledgedIs(items, |items|, acks, Item(k, all[k]));
      assert items[..|items|] == items;
    }
  }

  lemma PutGrows(pending: map<Key, nat>, key: Key, epoch: nat)
    ensures
      var more := pending[key := epoch];
      more.Keys == pending.Keys + {key} && |more| == if key in pending then |pending| else |pending| + 1
  {
    var more := pending[key := epoch];
    assert more.Keys == pending.Keys + {key};
    assert key in pending ==> pending.Keys + {key} == pending.Keys;
  }

  class PeerRetry {
    const limit: nat
    var pending: map<Key, nat>
    var untracked: bool
    var started: bool
    var degraded: Option<Reason>

    /** Bounded, and never without a worker while something is pending. */
    ghost predicate Valid()
      reads this
    {
      |pending| <= limit && (pending != map[] ==> started)
    }

    constructor (limit: nat)
      ensures Valid() && this.limit == limit
      ensures pending == map[] && !untracked && !started && degraded == None
    {
      this.limit := limit;
      pending, untracked, started, degraded := map[], false, false, None;
    }

    /** `start` says that the caller must start a worker. */
    method Enqueue(item: Item) returns (start: bool)
      requires Valid()
      modifies this`pending, this`untracked, this`started
      ensures Valid()
      ensures pending == Queued(old(pending), limit, item)
      ensures untracked == (old(untracked) || Overflows(old(pending), limit, item))
      ensures untracked && !old(untracked) ==> item.key !in old(pending) && |old(pending)| == limit
      ensures item.key in old(pending) || |old(pending)| < limit ==>
        && untracked == old(untracked)
        && pending.Keys == old(pending).Keys + {item.key}
        && pending[item.key] == (if item.key in old(pending) && old(pending)[item.key] > item.epoch
            then old(pending)[item.key] else item.epoch)
        && forall k :: k in old(pending) && k != item.key ==> pending[k] == old(pending)[k]
      ensures start <==> started && !old(started)
      ensures untracked || (item.key in pending && pending[item.key] >= item.epoch)
    {
      start := false;
      if item.key in pending && pending[item.key] >= item.epoch {
        return;
      }
      if item.key !in pending && |pending| >= limit {
        untracked := true;
        return;
      }
      PutGrows(pending, item.key, item.epoch);
      pending := pending[item.key := item.epoch];
      if !started {
        started, start := true, true;
      }
    }

    method Remove(done: Item)
      requires Valid()
      modifies this`pending
      ensures Valid() && pending == Unqueued(old(pending), done)
      ensures forall k :: k in pending <==> k in old(pending) && (k == done.key ==> old(pending)[k] > done.epoch)
      ensures forall k :: k in pending ==> pending[k] == old(pending)[k]
    {
      if done.key !in pending || pending[done.key] > done.epoch {
        return;
      }
      pending := pending - {done.key};
    }

    method Snapshot() returns (items: seq<Item>)
      ensures |items| == |pending|
      ensures forall i :: 0 <= i < |items| ==> Lists(pending, items[i])
      ensures forall k :: k in pending ==> Item(k, pending[k]) in items
    {
      items := [];
      var todo := pending.Keys;
      while todo != {}
        invariant todo <= pending.Keys && |items| + |todo| == |pending|
        invariant forall i :: 0 <= i < |items| ==> Lists(pending, items[i]) && items[i].key !in todo
        invariant forall k :: k in pending && k !in todo ==> Item(k, pending[k]) in items
      {
        var k :| k in todo;
        todo, items := todo - {k}, items + [Item(k, pending[k])];
      }
    }

    /** Mark degraded; another reason replaces a failed invalidation, not the
        other way round. */
    method MarkDegraded(reason: Reason)
      modifies this`degraded
      ensures degraded == Mark(old(degraded), reason) && degraded.Some?
      ensures degraded == Some(PeerInvalidationFailed) <==>
        reason == PeerInvalidationFailed && (old(degraded) == None || old(degraded) == Some(PeerInvalidationFailed))
    {
      if degraded == None || (degraded.value == PeerInvalidationFailed && reason != PeerInvalidationFailed) {
        degraded := Some(reason);
      }
    }

    /** The check, under the lock of the queue. */
    method HasRecovered() returns (recovered: bool)
      ensures recovered <==> pending == map[] && !untracked
    {
      recovered := pending == map[] && !untracked;
    }

    /** The clear, under the lock of the flag. */
    method ClearIfCode(code: Reason)
      modifies this`degraded
      ensures degraded == if old(degraded) == Some(code) then None else old(degraded)
    {
      if degraded == Some(code) {
        degraded := None;
      }
    }

    /** One round: send every pending invalidation, where `acks` are the sends
        that succeed. It leaves exactly the others, and the node recovers exactly
        when there are none and none was ever dropped. */
    method RetryPending(acks: set<Item>)
      requires Valid()
      modifies this`pending, this`degraded
      ensures Valid() && pending == Unacknowledged(old(pending), acks)
      ensures old(degraded) == Some(PeerInvalidationFailed) ==>
        (degraded == None <==> !untracked && forall k :: k in old(pending) ==> Item(k, old(pending)[k]) in acks)
    {
      var items := Snapshot();
      ghost var all := pending;
      SendAll(items, acks);
      RoundIsComplete(all, items, acks);
      AllAcknowledged(all, acks);
      var recovered := HasRecovered();
      if recovered {
        ClearIfCode(PeerInvalidationFailed);
      }
    }

    /** Remove an item of a snapshot if it is acknowledged. */
    method Settle(item: Item, acked: bool, ghost all: map<Key, nat>, ghost done: set<Item>)
      requires Valid() && Lists(all, item) && pending == Unacknowledged(all, done)
      modifies this`pending
      ensures Valid() && pending == Unacknowledged(all, if acked then done + {item} else done)
    {
      if acked {
        UnqueueStep(all, done, item);
        Remove(item);
      }
    }

    /** Send the items of a snapshot, and remove those that are acknowledged. */
    method SendAll(items: seq<Item>, acks: set<Item>)
      requires Valid() && forall i :: 0 <= i < |items| ==> Lists(pending, items[i])
      modifies this`pending
      ensures Valid() && pending == Unacknowledged(old(pending), Acknowledged(items, |items|, acks))
    {
      ghost var all := pending;
      NoneAcknowledged(all);
      assert Acknowledged(items, 0, acks) == {};
      for i := 0 to |items|
        invariant Valid() && pending == Unacknowledged(all, Acknowledged(items, i, acks))
      {
        Settle(items[i], items[i] in acks, all, Acknowledged(items, i, acks));
      }
    }

    /** The worker stops only when nothing is pending. */
    method FinishIfIdle() returns (finished: bool)
      requires Valid()
      modifies this`started
      ensures Valid() && (finished <==> pending == map[])
      ensures started == (old(started) && !finished)
    {
      finished := pending == map[];
      if finished {
        started := false;
      }
    }
  }
}
