/** Concurrent requests for one missing page share a single fill. Each request is
    a task here; a step is one critical section or one channel operation of it. */
module FillCoalescing {
  import opened Results
  import opened CacheIndex

  type Task = nat
  type Call = nat

  /** The stages of the request that registered a fill, in program order. `Refused`
      holds the global token but was denied the object's. */
  datatype Stage = Registered | HasGlobal | Refused | Filling | Fetched | ObjectReleased | Settled | Unregistered

  /** `ok` is the outcome so far of the fill. */
  datatype Phase =
    | Owning(key: PagePath, call: Call, stage: Stage, ok: bool)
    | Waiting(key: PagePath, call: Call)
    | Finished(ok: bool)

  /** A shared call: who fills, whether `done` is closed, and its outcome. */
  datatype CallState = CallState(owner: Task, closed: bool, ok: bool)

  datatype Semaphore = Global | PerObject(id: ObjectId)

  /** Capacities; `None` is no semaphore at all. */
  datatype Limits = Limits(global: Option<nat>, perObject: Option<nat>) {
    function Of(sem: Semaphore): Option<nat> {
      if sem == Global then global else perObject
    }
  }

  datatype State = State(
    fills: map<PagePath, Call>,
    calls: map<Call, CallState>,
    held: map<Semaphore, nat>,
    tasks: map<Task, Phase>)
  {
    function Held(sem: Semaphore): nat {
      if sem in held then held[sem] else 0
    }

    predicate Full(limits: Limits, sem: Semaphore) {
      limits.Of(sem).Some? && Held(sem) >= limits.Of(sem).value
    }

    function Acquire(sem: Semaphore): State {
      this.(held := held[sem := Held(sem) + 1])
    }

    /** Receiving from an empty semaphore would block for ever. */
    function Release(sem: Semaphore): State
      requires Held(sem) > 0
    {
      this.(held := held[sem := Held(sem) - 1])
    }

    function Set(t: Task, p: Phase): State {
      this.(tasks := tasks[t := p])
    }
  }

  predicate HasGlobalToken(stage: Stage) {
    stage.HasGlobal? || stage.Refused? || stage.Filling? || stage.Fetched? || stage.ObjectReleased?
  }

  predicate HasObjectToken(stage: Stage) {
    stage.Filling? || stage.Fetched?
  }

  predicate Holds(p: Phase, sem: Semaphore) {
    && p.Owning?
    && if sem.Global? then HasGlobalToken(p.stage) else sem.id == p.key.id && HasObjectToken(p.stage)
  }

  // ---------------------------------------------------------------- the steps

  predicate CanLookup(s: State, t: Task, key: PagePath, call: Call) {
    t !in s.tasks && (key !in s.fills ==> call !in s.calls)
  }

  /** Under the lock: join the registered call, or register a new one. */
  function AfterLookup(s: State, t: Task, key: PagePath, call: Call): State {
    if key in s.fills then s.Set(t, Waiting(key, s.fills[key]))
    else
      s.(fills := s.fills[key := call], calls := s.calls[call := CallState(t, false, false)])
       .Set(t, Owning(key, call, Registered, true))
  }

  datatype Opened = Hit | Miss | Failed

  predicate CanWake(s: State, t: Task) {
    && t in s.tasks && s.tasks[t].Waiting?
    && s.tasks[t].call in s.calls && s.calls[s.tasks[t].call].closed
  }

  /** After the call is done: fail with it, use the stored page, or start over. */
  function AfterWake(s: State, t: Task, found: Opened): State
    requires CanWake(s, t)
  {
    if !s.calls[s.tasks[t].call].ok then s.Set(t, Finished(false))
    else if found == Miss then s.(tasks := s.tasks - {t})
    else s.Set(t, Finished(found == Hit))
  }

  predicate CanCancel(s: State, t: Task) {
    t in s.tasks && s.tasks[t].Waiting?
  }

  predicate IsOwning(s: State, t: Task) {
    t in s.tasks && s.tasks[t].Owning?
  }

  /** What the owner's next operation needs in order not to block or panic. */
  predicate CanAdvance(s: State, t: Task) {
    && IsOwning(s, t)
    && var p := s.tasks[t];
       match p.stage
       case Refused => s.Held(Global) > 0
       case Fetched => s.Held(PerObject(p.key.id)) > 0
       case ObjectReleased => s.Held(Global) > 0
       case Unregistered => p.call in s.calls && !s.calls[p.call].closed
       case _ => true
  }

  /** The owner's next operation; `fetched` is the outcome of the fill itself. */
  function AfterAdvance(limits: Limits, s: State, t: Task, fetched: bool): State
    requires CanAdvance(s, t)
  {
    var p := s.tasks[t];
    match p.stage
    case Registered =>
      if s.Full(limits, Global) then s.Set(t, p.(stage := Settled, ok := false))
      else s.Acquire(Global).Set(t, p.(stage := HasGlobal))
    case HasGlobal =>
      if s.Full(limits, PerObject(p.key.id)) then s.Set(t, p.(stage := Refused, ok := false))
      else s.Acquire(PerObject(p.key.id)).Set(t, p.(stage := Filling))
    case Refused => s.Release(Global).Set(t, p.(stage := Settled))
    case Filling => s.Set(t, p.(stage := Fetched, ok := fetched))
    case Fetched => s.Release(PerObject(p.key.id)).Set(t, p.(stage := ObjectReleased))
    case ObjectReleased => s.Release(Global).Set(t, p.(stage := Settled))
    case Settled => s.(fills := s.fills - {p.key}).Set(t, p.(stage := Unregistered))
    case Unregistered =>
      s.(calls := s.calls[p.call := CallState(t, true, p.ok)]).Set(t, Finished(p.ok))
  }

  datatype Action =
    | Lookup(t: Task, key: PagePath, call: Call)
    | Wake(t: Task, found: Opened)
    | Cancel(t: Task)
    | Advance(t: Task, fetched: bool)

  ghost predicate Step(limits: Limits, s: State, a: Action, s': State) {
    match a
    case Lookup(t, key, call) => CanLookup(s, t, key, call) && s' == AfterLookup(s, t, key, call)
    case Wake(t, o) => CanWake(s, t) && s' == AfterWake(s, t, o)
    case Cancel(t) => CanCancel(s, t) && s' == s.Set(t, Finished(false))
    case Advance(t, fetched) => CanAdvance(s, t) && s' == AfterAdvance(limits, s, t, fetched)
  }

  // ------------------------------------------------------------ the invariant

  /** Every owner's call is its own and still open; until it unregisters, the
      table maps its key to that call. */
  ghost predicate OwnersRegistered(s: State) {
    forall t :: t in s.tasks && s.tasks[t].Owning? ==>
      var p := s.tasks[t];
      && p.call in s.calls && s.calls[p.call].owner == t && !s.calls[p.call].closed
      && (p.stage != Unregistered ==> p.key in s.fills && s.fills[p.key] == p.call)
  }

  /** Every call in the table is being worked on by its owner. */
  ghost predicate FillsOwned(s: State) {
    forall key :: key in s.fills ==>
      && s.fills[key] in s.calls
      && var t := s.calls[s.fills[key]].owner;
         IsOwning(s, t) && s.tasks[t].call == s.fills[key] && s.tasks[t].key == key && s.tasks[t].stage != Unregistered
  }

  /** An open call has an owner at work. */
  ghost predicate CallsOwned(s: State) {
    forall c :: c in s.calls && !s.calls[c].closed ==>
      IsOwning(s, s.calls[c].owner) && s.tasks[s.calls[c].owner].call == c
  }

  ghost predicate WaitersKnown(s: State) {
    forall t :: t in s.tasks && s.tasks[t].Waiting? ==> s.tasks[t].call in s.calls
  }

  ghost predicate TableInv(s: State) {
    OwnersRegistered(s) && FillsOwned(s) && CallsOwned(s) && WaitersKnown(s)
  }

  function Holders(tasks: map<Task, Phase>, sem: Semaphore): set<Task> {
    set t | t in tasks && Holds(tasks[t], sem)
  }

  /** A semaphore holds one token for each task that holds it. */
  ghost predicate TokensExact(s: State) {
    forall sem :: s.Held(sem) == |Holders(s.tasks, sem)|
  }

  ghost predicate WithinLimits(limits: Limits, s: State) {
    forall sem :: limits.Of(sem).Some? ==> s.Held(sem) <= limits.Of(sem).value
  }

  ghost predicate Inv(limits: Limits, s: State) {
    TableInv(s) && TokensExact(s) && WithinLimits(limits, s)
  }

  // ------------------------------------------------------------- preservation

  lemma HoldersAfterSet(tasks: map<Task, Phase>, t: Task, p: Phase, sem: Semaphore)
    ensures
      var before := Holders(tasks, sem);
      Holders(tasks[t := p], sem) == if Holds(p, sem) then before + {t} else before - {t}
  {
  }

  lemma HoldersAfterRemove(tasks: map<Task, Phase>, t: Task, sem: Semaphore)
    requires t in tasks ==> !Holds(tasks[t], sem)
    ensures Holders(tasks - {t}, sem) == Holders(tasks, sem)
  {
  }

  /** A phase change that moves the tokens along keeps the count. */
  lemma SetKeepsTokens(s: State, t: Task, p: Phase, s': State)
    requires TokensExact(s)
    requires s'.tasks == s.tasks[t := p]
    requires forall sem ::
      s'.Held(sem) ==
      s.Held(sem) + (if Holds(p, sem) then 1 else 0) - (if t in s.tasks && Holds(s.tasks[t], sem) then 1 else 0)
    ensures TokensExact(s')
  {
    forall sem
      ensures s'.Held(sem) == |Holders(s'.tasks, sem)|
    {
      HoldersAfterSet(s.tasks, t, p, sem);
    }
  }

  /** Tasks that own no call may come, change and go. */
  lemma BystanderKeepsTable(s: State, t: Task, s': State)
    requires TableInv(s) && !IsOwning(s, t) && !IsOwning(s', t)
    requires s'.fills == s.fills && s'.calls == s.calls && s'.tasks - {t} == s.tasks - {t}
    requires t in s'.tasks && s'.tasks[t].Waiting? ==> s'.tasks[t].call in s.calls
    ensures TableInv(s')
  {
    forall u | u != t
      ensures u in s'.tasks <==> u in s.tasks
      ensures u in s.tasks ==> s'.tasks[u] == s.tasks[u]
    {
      assert u in s'.tasks - {t} <==> u in s.tasks - {t};
    }
  }

  lemma RegisterKeepsTable(s: State, t: Task, key: PagePath, call: Call, s': State)
    requires TableInv(s) && t !in s.tasks && key !in s.fills && call !in s.calls
    requires s'.fills == s.fills[key := call] && s'.calls == s.calls[call := CallState(t, false, false)]
    requires s'.tasks == s.tasks[t := Owning(key, call, Registered, true)]
    ensures TableInv(s')
  {
  }

  lemma LookupKeepsInv(limits: Limits, s: State, t: Task, key: PagePath, call: Call, s': State)
    requires Inv(limits, s) && CanLookup(s, t, key, call) && s' == AfterLookup(s, t, key, call)
    ensures Inv(limits, s')
  {
    if key in s.fills {
      BystanderKeepsTable(s, t, s');
    } else {
      RegisterKeepsTable(s, t, key, call, s');
    }
    SetKeepsTokens(s, t, s'.tasks[t], s');
  }

  lemma WakeKeepsInv(limits: Limits, s: State, t: Task, o: Opened, s': State)
    requires Inv(limits, s) && CanWake(s, t) && s' == AfterWake(s, t, o)
    ensures Inv(limits, s')
  {
    BystanderKeepsTable(s, t, s');
    if t in s'.tasks {
      SetKeepsTokens(s, t, s'.tasks[t], s');
    } else {
      forall sem
        ensures s'.Held(sem) == |Holders(s'.tasks, sem)|
      {
        HoldersAfterRemove(s.tasks, t, sem);
      }
    }
  }

  lemma CancelKeepsInv(limits: Limits, s: State, t: Task, s': State)
    requires Inv(limits, s) && CanCancel(s, t) && s' == s.Set(t, Finished(false))
    ensures Inv(limits, s')
  {
    BystanderKeepsTable(s, t, s');
    SetKeepsTokens(s, t, Finished(false), s');
  }

  /** How many steps an owner has left. */
  function Remaining(p: Phase): nat {
    if !p.Owning? then 0
    else
      match p.stage
      case Registered => 7
      case HasGlobal => 6
      case Filling => 5
      case Fetched => 4
      case ObjectReleased => 3
      case Refused => 3
      case Settled => 2
      case Unregistered => 1
  }

  lemma AdvanceProgress(limits: Limits, s: State, t: Task, fetched: bool)
    requires CanAdvance(s, t)
    ensures
      var s' := AfterAdvance(limits, s, t, fetched);
      && t in s'.tasks && s'.tasks == s.tasks[t := s'.tasks[t]]
      && Remaining(s'.tasks[t]) < Remaining(s.tasks[t])
      && (Remaining(s'.tasks[t]) == 0 ==> s.tasks[t].call in s'.calls && s'.calls[s.tasks[t].call].closed)
  {
  }

  /** The tokens move with the stage, and none is taken from a full semaphore. */
  ghost predicate TokensMove(limits: Limits, s: State, t: Task, s': State, sem: Semaphore) {
    && t in s.tasks && t in s'.tasks
    && s'.Held(sem) ==
         s.Held(sem) + (if Holds(s'.tasks[t], sem) then 1 else 0) - (if Holds(s.tasks[t], sem) then 1 else 0)
    && (s'.Held(sem) <= s.Held(sem) || !s.Full(limits, sem))
  }

  lemma AcquireMovesTokens(limits: Limits, s: State, t: Task, fetched: bool, sem: Semaphore)
    requires CanAdvance(s, t) && (s.tasks[t].stage.Registered? || s.tasks[t].stage.HasGlobal?)
    ensures TokensMove(limits, s, t, AfterAdvance(limits, s, t, fetched), sem)
  {
  }

  lemma ReleaseMovesTokens(limits: Limits, s: State, t: Task, fetched: bool, sem: Semaphore)
    requires CanAdvance(s, t)
    requires s.tasks[t].stage.Refused? || s.tasks[t].stage.Fetched? || s.tasks[t].stage.ObjectReleased?
    ensures TokensMove(limits, s, t, AfterAdvance(limits, s, t, fetched), sem)
  {
  }

  lemma AdvanceMovesTokens(limits: Limits, s: State, t: Task, fetched: bool, sem: Semaphore)
    requires CanAdvance(s, t)
    ensures TokensMove(limits, s, t, AfterAdvance(limits, s, t, fetched), sem)
  {
    if s.tasks[t].stage.Registered? || s.tasks[t].stage.HasGlobal? {
      AcquireMovesTokens(limits, s, t, fetched, sem);
    } else if s.tasks[t].stage.Refused? || s.tasks[t].stage.Fetched? || s.tasks[t].stage.ObjectReleased? {
      ReleaseMovesTokens(limits, s, t, fetched, sem);
    }
  }

  lemma AdvanceKeepsTokens(limits: Limits, s: State, t: Task, fetched: bool, s': State)
    requires TokensExact(s) && WithinLimits(limits, s)
    requires CanAdvance(s, t) && s' == AfterAdvance(limits, s, t, fetched)
    ensures TokensExact(s') && WithinLimits(limits, s')
  {
    AdvanceProgress(limits, s, t, fetched);
    forall sem
      ensures s'.Held(sem) == |Holders(s'.tasks, sem)|
      ensures limits.Of(sem).Some? ==> s'.Held(sem) <= limits.Of(sem).value
    {
      AdvanceMovesTokens(limits, s, t, fetched, sem);
      HoldersAfterSet(s.tasks, t, s'.tasks[t], sem);
    }
  }

  lemma MoveKeepsTable(s: State, t: Task, stage: Stage, ok: bool, s': State)
    requires TableInv(s) && IsOwning(s, t) && s.tasks[t].stage != Unregistered && stage != Unregistered
    requires s'.fills == s.fills && s'.calls == s.calls
        && s'.tasks == s.tasks[t := s.tasks[t].(stage := stage, ok := ok)]
    ensures TableInv(s')
  {
  }

  lemma UnregisterKeepsTable(s: State, t: Task, s': State)
    requires TableInv(s) && IsOwning(s, t) && s.tasks[t].stage != Unregistered
    requires s'.fills == s.fills - {s.tasks[t].key} && s'.calls == s.calls
    requires s'.tasks == s.tasks[t := s.tasks[t].(stage := Unregistered)]
    ensures TableInv(s')
  {
  }

  lemma CloseKeepsTable(s: State, t: Task, s': State)
    requires TableInv(s) && IsOwning(s, t) && s.tasks[t].stage == Unregistered
    requires s'.fills == s.fills && s'.calls == s.calls[s.tasks[t].call := CallState(t, true, s.tasks[t].ok)]
    requires s'.tasks == s.tasks[t := Finished(s.tasks[t].ok)]
    ensures TableInv(s')
  {
  }

  /** Before its last two operations an owner changes only its own stage. */
  lemma AdvanceShape(limits: Limits, s: State, t: Task, fetched: bool, s': State)
    requires CanAdvance(s, t) && !s.tasks[t].stage.Settled? && !s.tasks[t].stage.Unregistered?
    requires s' == AfterAdvance(limits, s, t, fetched)
    ensures s'.fills == s.fills && s'.calls == s.calls
    ensures
      && t in s'.tasks && s'.tasks[t].Owning? && s'.tasks[t].stage != Unregistered
      && s'.tasks == s.tasks[t := s.tasks[t].(stage := s'.tasks[t].stage, ok := s'.tasks[t].ok)]
  {
  }

  lemma AdvanceKeepsTable(limits: Limits, s: State, t: Task, fetched: bool, s': State)
    requires TableInv(s) && CanAdvance(s, t) && s' == AfterAdvance(limits, s, t, fetched)
    ensures TableInv(s')
  {
    if s.tasks[t].stage == Settled {
      UnregisterKeepsTable(s, t, s');
    } else if s.tasks[t].stage == Unregistered {
      CloseKeepsTable(s, t, s');
    } else {
      AdvanceShape(limits, s, t, fetched, s');
      MoveKeepsTable(s, t, s'.tasks[t].stage, s'.tasks[t].ok, s');
    }
  }

  lemma StepKeepsInv(limits: Limits, s: State, a: Action, s': State)
    requires Inv(limits, s) && Step(limits, s, a, s')
    ensures Inv(limits, s')
  {
    if a.Lookup? {
      LookupKeepsInv(limits, s, a.t, a.key, a.call, s');
    } else if a.Wake? {
      WakeKeepsInv(limits, s, a.t, a.found, s');
    } else if a.Cancel? {
      CancelKeepsInv(limits, s, a.t, s');
    } else {
      AdvanceKeepsTokens(limits, s, a.t, a.fetched, s');
      AdvanceKeepsTable(limits, s, a.t, a.fetched, s');
    }
  }

  // ---------------------------------------------------------------------- runs

  ghost predicate IsRun(limits: Limits, states: seq<State>, actions: seq<Action>) {
    && |states| == |actions| + 1
    && states[0] == State(map[], map[], map[], map[])
    && forall i {:trigger actions[i]} :: 0 <= i < |actions| ==> Step(limits, states[i], actions[i], states[i + 1])
  }

  lemma {:induction false} RunKeepsInv(limits: Limits, states: seq<State>, actions: seq<Action>, k: nat)
    requires IsRun(limits, states, actions)
    requires k < |states|
    ensures Inv(limits, states[k])
  {
    if k == 0 {
      forall sem
        ensures states[0].Held(sem) == |Holders(states[0].tasks, sem)|
      {
        assert Holders(states[0].tasks, sem) == {};
      }
    } else {
      RunKeepsInv(limits, states, actions, k - 1);
      StepKeepsInv(limits, states[k - 1], actions[k - 1], states[k]);
    }
  }

  // ------------------------------------------------------------- consequences

  /** Two tasks never fill the same page of the same version at once. */
  lemma OneFillPerPage(limits: Limits, states: seq<State>, actions: seq<Action>, k: nat, t: Task, u: Task)
    requires IsRun(limits, states, actions) && k < |states|
    requires
      var s := states[k];
      && IsOwning(s, t) && IsOwning(s, u) && s.tasks[t].key == s.tasks[u].key
      && s.tasks[t].stage != Unregistered && s.tasks[u].stage != Unregistered
    ensures t == u
  {
    RunKeepsInv(limits, states, actions, k);
  }

  /** At every moment each semaphore holds exactly the tokens of the requests that
      hold it, and no more than its capacity. */
  lemma TokensAreConserved(limits: Limits, states: seq<State>, actions: seq<Action>, k: nat, sem: Semaphore)
    requires IsRun(limits, states, actions) && k < |states|
    ensures states[k].Held(sem) == |Holders(states[k].tasks, sem)|
    ensures limits.Of(sem).Some? ==> states[k].Held(sem) <= limits.Of(sem).value
  {
    RunKeepsInv(limits, states, actions, k);
  }

  lemma HolderIsCounted(s: State, t: Task, sem: Semaphore)
    requires TokensExact(s) && t in s.tasks && Holds(s.tasks[t], sem)
    ensures s.Held(sem) > 0
  {
    assert t in Holders(s.tasks, sem);
  }

  /** An owner is never stuck: no release blocks, and no call is closed twice. */
  lemma OwnersNeverBlock(limits: Limits, states: seq<State>, actions: seq<Action>, k: nat, t: Task)
    requires IsRun(limits, states, actions) && k < |states|
    requires IsOwning(states[k], t)
    ensures CanAdvance(states[k], t)
    ensures states[k].tasks[t].stage == Settled ==>
      var p := states[k].tasks[t]; p.key in states[k].fills && states[k].fills[p.key] == p.call
  {
    RunKeepsInv(limits, states, actions, k);
    var s := states[k];
    if Holds(s.tasks[t], Global) {
      HolderIsCounted(s, t, Global);
    }
    if Holds(s.tasks[t], PerObject(s.tasks[t].key.id)) {
      HolderIsCounted(s, t, PerObject(s.tasks[t].key.id));
    }
  }

  /** A waiter is never stranded: either its call is done, or the owner of its
      call is at work and can take its next step. */
  lemma NoWaiterIsStranded(limits: Limits, states: seq<State>, actions: seq<Action>, k: nat, t: Task)
    requires IsRun(limits, states, actions) && k < |states|
    requires CanCancel(states[k], t)
    ensures
      var s := states[k];
      var c := s.tasks[t].call;
      && c in s.calls
      && (CanWake(s, t) || (CanAdvance(s, s.calls[c].owner) && s.tasks[s.calls[c].owner].call == c))
  {
    RunKeepsInv(limits, states, actions, k);
    var s := states[k];
    if !CanWake(s, t) {
      OwnersNeverBlock(limits, states, actions, k, s.calls[s.tasks[t].call].owner);
    }
  }

  /** Each step of an owner brings it nearer to closing its call, and no step of
      another task touches it; so a call is closed after at most seven steps of
      its owner. */
  lemma OwnerProgress(limits: Limits, s: State, a: Action, s': State, t: Task)
    requires Step(limits, s, a, s')
    requires IsOwning(s, t)
    ensures t in s'.tasks && Remaining(s.tasks[t]) <= 7
    ensures a.t == t ==> Remaining(s'.tasks[t]) < Remaining(s.tasks[t])
    ensures a.t != t ==> s'.tasks[t] == s.tasks[t]
    ensures Remaining(s'.tasks[t]) == 0 ==> s.tasks[t].call in s'.calls && s'.calls[s.tasks[t].call].closed
  {
    if a.Advance? {
      AdvanceProgress(limits, s, a.t, a.fetched);
    }
  }

  lemma OwnerKeepsCall(limits: Limits, s: State, a: Action, s': State, t: Task)
    requires Step(limits, s, a, s')
    requires IsOwning(s, t) && IsOwning(s', t)
    ensures s'.tasks[t].call == s.tasks[t].call
  {
    OwnerProgress(limits, s, a, s', t);
    if a.Advance? && a.t == t && !s.tasks[t].stage.Settled? && !s.tasks[t].stage.Unregistered? {
      AdvanceShape(limits, s, t, a.fetched, s');
    }
  }

  /** A closed call stays closed, with its outcome. */
  lemma ClosedCallsStay(limits: Limits, s: State, a: Action, s': State, c: Call)
    requires Inv(limits, s) && Step(limits, s, a, s')
    requires c in s.calls && s.calls[c].closed
    ensures c in s'.calls && s'.calls[c] == s.calls[c]
  {
    if a.Advance? && !s.tasks[a.t].stage.Settled? && !s.tasks[a.t].stage.Unregistered? {
      AdvanceShape(limits, s, a.t, a.fetched, s');
    }
  }

  function StepsOf(actions: seq<Action>, t: Task, i: nat, j: nat): nat
    requires i <= j <= |actions|
    decreases j - i
  {
    if i == j then 0 else (if actions[i].t == t then 1 else 0) + StepsOf(actions, t, i + 1, j)
  }

  lemma {:induction false} ClosedCallsStayInRun(limits: Limits, states: seq<State>, actions: seq<Action>,
        i: nat, j: nat, c: Call)
    requires IsRun(limits, states, actions) && i <= j < |states|
    requires c in states[i].calls && states[i].calls[c].closed
    ensures c in states[j].calls && states[j].calls[c] == states[i].calls[c]
    decreases j - i
  {
    if i < j {
      RunKeepsInv(limits, states, actions, i);
      ClosedCallsStay(limits, states[i], actions[i], states[i + 1], c);
      ClosedCallsStayInRun(limits, states, actions, i + 1, j, c);
    }
  }

  /** However the other tasks are scheduled, once an owner has taken the steps it
      had left, its call is closed: every waiter can wake. */
  lemma {:induction false} OwnerFinishes(limits: Limits, states: seq<State>, actions: seq<Action>, i: nat,
        j: nat, t: Task)
    requires IsRun(limits, states, actions) && i <= j < |states|
    requires IsOwning(states[i], t)
    requires Remaining(states[i].tasks[t]) <= StepsOf(actions, t, i, j)
    ensures
      var c := states[i].tasks[t].call;
      c in states[j].calls && states[j].calls[c].closed
    decreases j - i
  {
    var c := states[i].tasks[t].call;
    OwnerProgress(limits, states[i], actions[i], states[i + 1], t);
    if Remaining(states[i + 1].tasks[t]) == 0 {
      ClosedCallsStayInRun(limits, states, actions, i + 1, j, c);
    } else {
      OwnerKeepsCall(limits, states[i], actions[i], states[i + 1], t);
      OwnerFinishes(limits, states, actions, i + 1, j, t);
    }
  }

  /** A denied object token gives the global token back: an attempt that is
      refused leaves both semaphores as it found them. */
  lemma RefusedAttemptLeavesNoTokens(limits: Limits, s: State, t: Task)
    requires Inv(limits, s) && IsOwning(s, t) && s.tasks[t].stage == HasGlobal
    requires s.Full(limits, PerObject(s.tasks[t].key.id))
    ensures
      var refused := AfterAdvance(limits, s, t, false);
      && CanAdvance(refused, t)
      && var settled := AfterAdvance(limits, refused, t, false);
         && settled.Held(Global) == s.Held(Global) - 1
         && (forall sem :: sem != Global ==> settled.Held(sem) == s.Held(sem))
         && (forall sem :: !Holds(settled.tasks[t], sem))
         && !settled.tasks[t].ok
  {
    HolderIsCounted(s, t, Global);
  }

  /** When no fill is in progress nothing is left behind: the table is empty,
      every semaphore is free and every call has been closed. */
  lemma NothingIsLeftBehind(limits: Limits, states: seq<State>, actions: seq<Action>, k: nat)
    requires IsRun(limits, states, actions) && k < |states|
    requires forall t :: t in states[k].tasks ==> !states[k].tasks[t].Owning?
    ensures states[k].fills == map[]
    ensures forall sem :: states[k].Held(sem) == 0
    ensures forall c :: c in states[k].calls ==> states[k].calls[c].closed
  {
    RunKeepsInv(limits, states, actions, k);
    var s := states[k];
    assert forall key :: key !in s.fills;
    forall sem
      ensures s.Held(sem) == 0
    {
      assert Holders(s.tasks, sem) == {};
    }
  }
}
