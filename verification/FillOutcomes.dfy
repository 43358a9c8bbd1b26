/** What a shared fill comes to, for the request that fills and for those that wait. */
module FillOutcomes {
  import opened FillCoalescing

  /** In this step the fill of call `c`, which was admitted, is fetched. */
  predicate Fetches(s: State, a: Action, c: Call) {
    a.Advance? && a.fetched && IsOwning(s, a.t) && s.tasks[a.t].call == c && s.tasks[a.t].stage == Filling
  }

  function FetchedBy(s: State, a: Action): set<Call> {
    if a.Advance? && IsOwning(s, a.t) && Fetches(s, a, s.tasks[a.t].call) then {s.tasks[a.t].call} else {}
  }

  /** The calls whose fills were fetched in the first `n` steps. */
  function FetchedCalls(states: seq<State>, actions: seq<Action>, n: nat): set<Call>
    requires n <= |actions| < |states|
  {
    if n == 0 then {} else FetchedCalls(states, actions, n - 1) + FetchedBy(states[n - 1], actions[n - 1])
  }

  // ----------------------------------------------------------------- the owners

  /** What an owner's phase says of its fill. */
  predicate Tells(p: Phase, fetched: bool) {
    && p.Owning?
    && match p.stage
       case Registered => !fetched
       case HasGlobal => !fetched
       case Refused => !fetched && !p.ok
       case Filling => !fetched
       case _ => p.ok == fetched
  }

  ghost predicate OwnersTell(s: State, good: set<Call>) {
    forall t :: t in s.tasks && s.tasks[t].Owning? ==> Tells(s.tasks[t], s.tasks[t].call in good)
  }

  /** A closed call is a success exactly if its fill was fetched. */
  ghost predicate CallsTell(s: State, good: set<Call>) {
    && good <= s.calls.Keys
    && forall c :: c in s.calls && s.calls[c].closed ==> s.calls[c].ok == (c in good)
  }

  /** What an owner's next operation makes of its phase. */
  ghost predicate TellsOn(p: Phase, q: Phase, fetched: bool) {
    && p.Owning?
    && if p.stage.Unregistered? then q == Finished(fetched) else Tells(q, fetched) && q.call == p.call
  }

  lemma EarlyTells(limits: Limits, s: State, t: Task, fetched: bool)
    requires CanAdvance(s, t) && Tells(s.tasks[t], false)
    requires s.tasks[t].stage.Registered? || s.tasks[t].stage.HasGlobal? || s.tasks[t].stage.Refused?
    ensures
      var s' := AfterAdvance(limits, s, t, fetched);
      t in s'.tasks && TellsOn(s.tasks[t], s'.tasks[t], false)
  {
  }

  lemma LateTells(limits: Limits, s: State, t: Task, fetched: bool, was: bool)
    requires CanAdvance(s, t) && Tells(s.tasks[t], was)
    requires !s.tasks[t].stage.Registered? && !s.tasks[t].stage.HasGlobal? && !s.tasks[t].stage.Refused?
    ensures
      var s' := AfterAdvance(limits, s, t, fetched);
      && t in s'.tasks
      && TellsOn(s.tasks[t], s'.tasks[t], was || (s.tasks[t].stage.Filling? && fetched))
  {
  }

  lemma AdvanceTells(limits: Limits, s: State, t: Task, fetched: bool, good: set<Call>)
    requires CanAdvance(s, t) && Tells(s.tasks[t], s.tasks[t].call in good)
    ensures
      var s' := AfterAdvance(limits, s, t, fetched);
      && t in s'.tasks
      && TellsOn(s.tasks[t], s'.tasks[t], s.tasks[t].call in good + FetchedBy(s, Advance(t, fetched)))
  {
    if s.tasks[t].stage.Registered? || s.tasks[t].stage.HasGlobal? || s.tasks[t].stage.Refused? {
      EarlyTells(limits, s, t, fetched);
    } else {
      LateTells(limits, s, t, fetched, s.tasks[t].call in good);
    }
  }

  lemma OwnersKeepTelling(limits: Limits, s: State, a: Action, s': State, good: set<Call>)
    requires Inv(limits, s) && Step(limits, s, a, s') && OwnersTell(s, good) && good <= s.calls.Keys
    ensures OwnersTell(s', good + FetchedBy(s, a))
  {
    if a.Advance? {
      AdvanceTells(limits, s, a.t, a.fetched, good);
      AdvanceProgress(limits, s, a.t, a.fetched);
    }
  }

  /** Closing is the only step that settles a call. */
  lemma AdvanceCalls(limits: Limits, s: State, t: Task, fetched: bool)
    requires CanAdvance(s, t)
    ensures
      var s' := AfterAdvance(limits, s, t, fetched);
      s'.calls == if s.tasks[t].stage.Unregistered? then s.calls[s.tasks[t].call := CallState(t, true, s.tasks[t].ok)]
        else s.calls
  {
  }

  lemma CallsKeepTelling(limits: Limits, s: State, a: Action, s': State, good: set<Call>)
    requires Inv(limits, s) && Step(limits, s, a, s') && OwnersTell(s, good) && CallsTell(s, good)
    ensures CallsTell(s', good + FetchedBy(s, a))
  {
    if a.Advance? {
      AdvanceCalls(limits, s, a.t, a.fetched);
      assert FetchedBy(s, a) != {} ==> s.tasks[a.t].call in s.calls && !s.calls[s.tasks[a.t].call].closed;
    } else {
      assert good + FetchedBy(s, a) == good;
    }
  }

  lemma {:induction false} RunTells(limits: Limits, states: seq<State>, actions: seq<Action>, n: nat)
    requires IsRun(limits, states, actions) && n < |states|
    ensures OwnersTell(states[n], FetchedCalls(states, actions, n))
    ensures CallsTell(states[n], FetchedCalls(states, actions, n))
  {
    if n > 0 {
      RunTells(limits, states, actions, n - 1);
      RunKeepsInv(limits, states, actions, n - 1);
      var good := FetchedCalls(states, actions, n - 1);
      OwnersKeepTelling(limits, states[n - 1], actions[n - 1], states[n], good);
      CallsKeepTelling(limits, states[n - 1], actions[n - 1], states[n], good);
    }
  }

  /** A closed call is a success exactly when, in some earlier step, its fill had
      been admitted and was fetched. */
  lemma ClosedCallsTell(limits: Limits, states: seq<State>, actions: seq<Action>, n: nat, c: Call)
    requires IsRun(limits, states, actions) && n < |states|
    requires c in states[n].calls && states[n].calls[c].closed
    ensures states[n].calls[c].ok <==> exists i :: 0 <= i < n && Fetches(states[i], actions[i], c)
  {
    RunTells(limits, states, actions, n);
    FetchedExactly(states, actions, n, c);
  }

  lemma {:induction false} FetchedExactly(states: seq<State>, actions: seq<Action>, n: nat, c: Call)
    requires n <= |actions| < |states|
    ensures c in FetchedCalls(states, actions, n) <==> exists i :: 0 <= i < n && Fetches(states[i], actions[i], c)
  {
    if n > 0 {
      FetchedExactly(states, actions, n - 1, c);
      assert c in FetchedBy(states[n - 1], actions[n - 1]) <==> Fetches(states[n - 1], actions[n - 1], c);
    }
  }

  // ------------------------------------------------------------------ the waiters

  /** A waiter succeeds exactly if the fill it waited for was fetched and it then
      finds the page; it starts over if the page is gone again, and otherwise
      fails. */
  lemma WaiterGets(limits: Limits, states: seq<State>, actions: seq<Action>, n: nat, t: Task, found: Opened)
    requires IsRun(limits, states, actions) && n < |actions|
    requires actions[n] == Wake(t, found)
    ensures t in states[n].tasks && states[n].tasks[t].Waiting?
    ensures
      var fetched := states[n].tasks[t].call in FetchedCalls(states, actions, n);
      var after := states[n + 1].tasks;
      && (t !in after <==> fetched && found == Miss)
      && (t in after ==> after[t] == Finished(fetched && found == Hit))
  {
    assert Step(limits, states[n], actions[n], states[n + 1]);
    RunTells(limits, states, actions, n);
  }

  // ---------------------------------------------------------------- the admission

  predicate HasRoom(limits: Limits, sem: Semaphore, holders: nat) {
    limits.Of(sem).Some? ==> holders < limits.Of(sem).value
  }

  /** A fill is refused exactly when the tokens that other requests hold are all
      there are: first over the whole cache, then for its object. */
  lemma AdmissionIsExact(limits: Limits, states: seq<State>, actions: seq<Action>, n: nat, t: Task, fetched: bool)
    requires IsRun(limits, states, actions) && n < |actions|
    requires actions[n] == Advance(t, fetched)
    ensures IsOwning(states[n], t) && t in states[n + 1].tasks
    ensures
      var s, p := states[n], states[n].tasks[t];
      var q := states[n + 1].tasks[t];
      && (p.stage == Registered ==>
            q == if HasRoom(limits, Global, |Holders(s.tasks, Global)|) then p.(stage := HasGlobal)
              else p.(stage := Settled, ok := false))
      && (p.stage == HasGlobal ==>
            q == if HasRoom(limits, PerObject(p.key.id), |Holders(s.tasks, PerObject(p.key.id))|)
              then p.(stage := Filling) else p.(stage := Refused, ok := false))
  {
    assert Step(limits, states[n], actions[n], states[n + 1]);
    RunKeepsInv(limits, states, actions, n);
  }
}
