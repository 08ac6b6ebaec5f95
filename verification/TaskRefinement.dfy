/** run_radar_collection_task as a run of the lease protocol: its acquire and its
    release are steps of it, and between them the other workers take steps of
    their own. So the collection itself is exclusive while no lease is overstayed. */
module TaskRefinement {
  import opened Options
  import opened Redis
  import opened LeaseProtocol
  import opened LeaseRefinement
  import opened RadarTask

  /** The step is taken by the worker itself. */
  predicate TakenBy(a: Action, w: nat) {
    match a
    case Begin(v, _, _, _) => v == w
    case Resend(v) => v == w
    case FailAcquire(v) => v == w
    case Return(v) => v == w
    case Finish(v) => v == w
    case EndRelease(v) => v == w
    case Crash(v) => v == w
    case _ => false
  }

  /** Steps that can happen while worker w runs the section: of the clock, the wire,
      the server and the other workers. */
  predicate Meanwhile(s: State, others: seq<Action>, w: nat) {
    Extend(s, others).Some? && forall a :: a in others ==> !TakenBy(a, w)
  }

  /** Nothing is asked of the clock, the wire, the server and the other workers. */
  lemma OthersAreFree(v: nat, w: nat, key: string, ttl: nat, token: Token, m: Message, elapsed: nat)
    requires v != w
    ensures !TakenBy(Tick(elapsed), w) && !TakenBy(Lose(m), w) && !TakenBy(ServeSet(token), w) && !TakenBy(ServeRelease(token), w)
    ensures !TakenBy(Begin(v, key, ttl, token), w) && !TakenBy(Resend(v), w) && !TakenBy(FailAcquire(v), w) && !TakenBy(Return(v), w)
    ensures !TakenBy(Finish(v), w) && !TakenBy(EndRelease(v), w) && !TakenBy(Crash(v), w)
  {
  }

  lemma OtherLeavesInside(s: State, a: Action, w: nat, key: string)
    requires Enabled(s, a) && !TakenBy(a, w) && InSection(s, w, key)
    ensures InSection(Step(s, a), w, key) && Step(s, a).workers[w] == s.workers[w]
    ensures Step(s, a).now >= s.now
  {
    ClaimsAfter(s, a);
    StoreAfter(s, a);
  }

  lemma {:induction false} OthersLeaveInside(s: State, others: seq<Action>, w: nat, key: string)
    requires Meanwhile(s, others, w) && Inv(s) && InSection(s, w, key)
    ensures var s' := Extend(s, others).value;
      InSection(s', w, key) && s'.workers[w] == s.workers[w] && s'.now >= s.now && Inv(s')
    decreases |others|
  {
    if others != [] {
      assert others[0] in others;
      OtherLeavesInside(s, others[0], w, key);
      StepKeepsInv(s, others[0]);
      OthersLeaveInside(Step(s, others[0]), others[1..], w, key);
    }
  }

  lemma {:induction false} ExtendPrefix(s: State, a: seq<Action>, b: seq<Action>)
    requires Extend(s, a + b).Some?
    ensures Extend(s, a).Some?
    decreases |a|
  {
    if a != [] {
      FirstOfBoth(a, b);
      ExtendPrefix(Step(s, a[0]), a[1..], b);
    }
  }

  lemma FirstOfBoth(a: seq<Action>, b: seq<Action>)
    requires a != []
    ensures (a + b)[0] == a[0] && (a + b)[1..] == a[1..] + b
  {
  }

  lemma PrefixHappens(s: State, others: seq<Action>, w: nat, n: nat)
    requires Meanwhile(s, others, w) && n <= |others|
    ensures Meanwhile(s, others[..n], w)
  {
    assert others == others[..n] + others[n..];
    ExtendPrefix(s, others[..n], others[n..]);
    forall a | a in others[..n]
      ensures !TakenBy(a, w)
    {
      assert a in others;
    }
  }

  /** Worker w is in the section, and whoever is there as well, one of the two has overstayed. */
  ghost predicate Exclusive(s: State, w: nat, key: string) {
    && InSection(s, w, key)
    && forall v :: v != w && InSection(s, v, key) ==> Overstays(s, v) || Overstays(s, w)
  }

  lemma InvIsExclusive(s: State, w: nat, key: string)
    requires Inv(s) && InSection(s, w, key)
    ensures Exclusive(s, w, key)
  {
    forall v: nat | v != w && InSection(s, v, key)
      ensures Overstays(s, v) || Overstays(s, w)
    {
      assert HolderIsStored(s, v) && HolderIsStored(s, w);
    }
  }

  ghost predicate ExclusiveAfter(s: State, steps: seq<Action>, w: nat, key: string) {
    Extend(s, steps).Some? && Exclusive(Extend(s, steps).value, w, key)
  }

  /** At every moment of the collection the worker is in the section, and alone there
      as long as nobody overstays. */
  lemma CollectionIsExclusive(s: State, others: seq<Action>, w: nat, key: string)
    requires Inv(s) && Meanwhile(s, others, w) && InSection(s, w, key)
    ensures forall n :: 0 <= n <= |others| ==> ExclusiveAfter(s, others[..n], w, key)
  {
    forall n | 0 <= n <= |others|
      ensures ExclusiveAfter(s, others[..n], w, key)
    {
      PrefixHappens(s, others, w, n);
      OthersLeaveInside(s, others[..n], w, key);
      InvIsExclusive(Extend(s, others[..n]).value, w, key);
    }
  }

  /** The state in which the collection begins: acquire_lock has returned the token. */
  function Entered(s: State, w: nat, ttl: nat, token: Token): Option<State> {
    Extend(s, AcquireSteps(w, LOCK_KEY, ttl, token, Healthy))
  }

  predicate Granting(s: State, ttlSeconds: int, atAcquire: Fault) {
    ttlSeconds > 0 && atAcquire == Healthy && !Live(s.store, s.now, LOCK_KEY)
  }

  /** What the others may do while the collection runs, if it runs. */
  predicate OthersCan(s: State, w: nat, ttlSeconds: int, token: Token, atAcquire: Fault, others: seq<Action>) {
    Granting(s, ttlSeconds, atAcquire) ==> Entered(s, w, ttlSeconds, token).Some? && Meanwhile(Entered(s, w, ttlSeconds, token).value, others, w)
  }

  /** The task, run by an idle worker of the protocol with a token never used, whatever
      the others do while it collects: the server moves by steps of the protocol, the
      worker ends idle, and at every moment of the collection it is in the section,
      shared only when a lease is overstayed. */
  method RunTask(worker: Worker, ttlSeconds: int, mode: string, token: string, outcome: Outcome,
                 atAcquire: Fault, atRelease: Fault, s: State, w: nat, others: seq<Action>)
    returns (r: TaskResult, ghost steps: seq<Action>, ghost s': State)
    requires Shows(worker.cache.server, s) && Inv(s)
    requires w < |s.workers| && s.workers[w].Idle? && token != "" && token !in s.claims
    requires OthersCan(s, w, ttlSeconds, token, atAcquire, others)
    modifies worker`calls, worker.cache.server
    ensures Extend(s, steps) == Some(s') && Shows(worker.cache.server, s') && Inv(s')
    ensures w < |s'.workers| && s'.workers[w].Idle?
    ensures r.Collected? <==> ttlSeconds > 0 && atAcquire == Healthy && !Live(s.store, s.now, "radar-cvm:collection")
    ensures r.Collected? ==>
      var entered := Entered(s, w, ttlSeconds, token);
      entered.Some? && forall n :: 0 <= n <= |others| ==> ExclusiveAfter(entered.value, others[..n], w, "radar-cvm:collection")
  {
    var meanwhile, elapsed := s.store, 0;
    if Granting(s, ttlSeconds, atAcquire) {
      ghost var entered := EnteredIsInside(s, w, ttlSeconds, token);
      OthersLeaveInside(entered, others, w, LOCK_KEY);
      var before := Entered(s, w, ttlSeconds, token).value;
      var after := Extend(before, others).value;
      meanwhile, elapsed := after.store, after.now - before.now;
      steps, s' := TaskSteps(s, entered, after, w, ttlSeconds, token, others, atRelease);
      CollectionIsExclusive(entered, others, w, LOCK_KEY);
    } else {
      steps, s' := RefusedSteps(s, w, ttlSeconds, token, atAcquire);
    }
    r := worker.RunTask(ttlSeconds, mode, token, outcome, meanwhile, elapsed, atAcquire, atRelease);
  }

  lemma EnteredIsInside(s: State, w: nat, ttl: nat, token: Token) returns (before: State)
    requires Inv(s) && CanBegin(s, w, ttl, token) && !Live(s.store, s.now, LOCK_KEY)
    ensures Entered(s, w, ttl, token) == Some(before) && Inv(before)
    ensures InSection(before, w, LOCK_KEY) && before.workers[w].token == token && before.now == s.now
  {
    before := AcquireIsProtocol(s, w, LOCK_KEY, ttl, token, Healthy);
    ExtendKeepsInv(s, AcquireSteps(w, LOCK_KEY, ttl, token, Healthy));
  }

  /** A whole task with its collection. */
  lemma TaskSteps(s: State, before: State, after: State, w: nat, ttl: nat, token: Token, others: seq<Action>, atRelease: Fault)
    returns (steps: seq<Action>, s': State)
    requires Entered(s, w, ttl, token) == Some(before) && Extend(before, others) == Some(after)
    requires Inv(after) && InSection(after, w, LOCK_KEY) && after.workers[w].token == token
    ensures Extend(s, steps) == Some(s') && Inv(s')
    ensures s'.now == after.now && s'.workers == after.workers[w := Idle]
    ensures s'.store == if atRelease == RequestLost then after.store
                        else CompareAndDelete(after.store, after.now, LOCK_KEY, token)
  {
    var first, last := AcquireSteps(w, LOCK_KEY, ttl, token, Healthy), ReleaseSteps(w, token, atRelease);
    s' := ReleaseIsProtocol(after, w, atRelease);
    ExtendKeepsInv(after, last);
    ExtendAppend(before, others, last);
    ExtendAppend(s, first, others + last);
    steps := first + (others + last);
  }

  /** A task that was not given a token. */
  lemma RefusedSteps(s: State, w: nat, ttlSeconds: int, token: Token, atAcquire: Fault)
    returns (steps: seq<Action>, s': State)
    requires Inv(s) && w < |s.workers| && s.workers[w].Idle? && token != "" && token !in s.claims
    requires !Granting(s, ttlSeconds, atAcquire)
    ensures Extend(s, steps) == Some(s') && Inv(s') && s'.now == s.now && s'.workers == s.workers
    ensures s'.store == if ttlSeconds <= 0 || atAcquire == RequestLost then s.store
                        else SetNx(s.store, s.now, LOCK_KEY, token, ttlSeconds).0
  {
    if ttlSeconds > 0 {
      steps := AcquireSteps(w, LOCK_KEY, ttlSeconds, token, atAcquire);
      s' := AcquireIsProtocol(s, w, LOCK_KEY, ttlSeconds, token, atAcquire);
      ExtendKeepsInv(s, steps);
    } else {
      steps, s' := [], s;
    }
  }
}
