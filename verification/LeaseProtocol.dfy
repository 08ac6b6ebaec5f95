/** The distributed protocol made of RedisCache.acquire_lock, the guarded section
    of run_radar_collection_task and RedisCache.release_lock.

    Any number of workers share one server. Requests travel on a wire that may
    delay, lose or (through client retries) duplicate them, so a SET or a release
    may take effect long after its sender gave up on it or crashed. Time passes
    between any two steps. Every `Begin` mints a token never used before. */
module LeaseProtocol {
  import opened Options
  import opened Redis

  type Token = string

  /** What a token was minted for. */
  datatype Claim = Claim(worker: nat, key: string, ttl: nat)

  datatype Phase =
    | Idle
    | Calling(token: Token)
    // the SET was served while the caller was still waiting; `got` is the expiry of the lease it was granted
    | Answered(token: Token, got: Option<int>)
    | Inside(token: Token, until: int)
    | Releasing(token: Token)

  datatype Message = SetNX(token: Token) | Release(token: Token)

  datatype State = State(
    now: int,
    store: Store,
    workers: seq<Phase>,
    wire: multiset<Message>,
    claims: map<Token, Claim>)

  datatype Action =
    | Tick(elapsed: nat)
    | Begin(worker: nat, key: string, ttl: nat, token: Token)
    | Resend(worker: nat)                // the client library sends the same request again
    | Lose(message: Message)
    | ServeSet(token: Token)
    | ServeRelease(token: Token)
    | FailAcquire(worker: nat)           // acquire_lock returns None
    | Return(worker: nat)                // acquire_lock returns the token, or "" and the worker is done
    | Finish(worker: nat)                // the section ends, normally or by an exception; the release is sent
    | EndRelease(worker: nat)            // release_lock returns, whatever became of the request
    | Crash(worker: nat)

  predicate Enabled(s: State, a: Action) {
    match a
    case Tick(_) => true
    case Begin(w, _, ttl, token) => w < |s.workers| && s.workers[w].Idle? && token != "" && token !in s.claims && ttl > 0
    case Resend(w) => w < |s.workers| && (s.workers[w].Calling? || s.workers[w].Answered? || s.workers[w].Releasing?)
    case Lose(m) => m in s.wire
    case ServeSet(token) => SetNX(token) in s.wire && token in s.claims
    case ServeRelease(token) => Release(token) in s.wire && token in s.claims
    case FailAcquire(w) => w < |s.workers| && (s.workers[w].Calling? || s.workers[w].Answered?)
    case Return(w) => w < |s.workers| && s.workers[w].Answered?
    case Finish(w) => w < |s.workers| && s.workers[w].Inside?
    case EndRelease(w) => w < |s.workers| && s.workers[w].Releasing?
    case Crash(w) => w < |s.workers|
  }

  /** The phase of the worker that waits for the reply to its SET, once it is served. */
  function Hear(p: Phase, token: Token, got: Option<int>): Phase {
    if p == Calling(token) then Answered(token, got) else p
  }

  function Step(s: State, a: Action): (r: State)
    requires Enabled(s, a)
    ensures |r.workers| == |s.workers|
  {
    match a
    case Tick(elapsed) => s.(now := s.now + elapsed)
    case Begin(w, key, ttl, token) =>
      s.(workers := s.workers[w := Calling(token)],
         wire := s.wire + multiset{SetNX(token)},
         claims := s.claims[token := Claim(w, key, ttl)])
    case Resend(w) =>
      (match s.workers[w]
       case Releasing(token) => s.(wire := s.wire + multiset{Release(token)})
       case p => s.(workers := s.workers[w := Calling(p.token)], wire := s.wire + multiset{SetNX(p.token)}))
    case Lose(m) => s.(wire := s.wire - multiset{m})
    case ServeSet(token) =>
      var claim := s.claims[token];
      var (store, acquired) := SetNx(s.store, s.now, claim.key, token, claim.ttl);
      var got := if acquired then Some(s.now + claim.ttl) else None;
      s.(store := store,
         wire := s.wire - multiset{SetNX(token)},
         workers := if claim.worker < |s.workers|
                    then s.workers[claim.worker := Hear(s.workers[claim.worker], token, got)]
                    else s.workers)
    case ServeRelease(token) =>
      s.(store := CompareAndDelete(s.store, s.now, s.claims[token].key, token),
         wire := s.wire - multiset{Release(token)})
    case FailAcquire(w) => s.(workers := s.workers[w := Idle])
    case Return(w) =>
      var p := s.workers[w];
      s.(workers := s.workers[w := if p.got.Some? then Inside(p.token, p.got.value) else Idle])
    case Finish(w) =>
      var token := s.workers[w].token;
      s.(workers := s.workers[w := Releasing(token)], wire := s.wire + multiset{Release(token)})
    case EndRelease(w) => s.(workers := s.workers[w := Idle])
    case Crash(w) => s.(workers := s.workers[w := Idle])
  }

  /** At any time a worker may crash, leaving its lease and its messages behind, a
      message may be lost, a waiting worker's request sent again, and time pass. */
  lemma AnythingCanHappen(s: State, w: nat, m: Message, elapsed: nat)
    requires w < |s.workers|
    ensures Enabled(s, Crash(w)) && Step(s, Crash(w)) == s.(workers := s.workers[w := Idle])
    ensures m in s.wire ==> Enabled(s, Lose(m)) && Step(s, Lose(m)) == s.(wire := s.wire - multiset{m})
    ensures Enabled(s, Tick(elapsed)) && Step(s, Tick(elapsed)) == s.(now := s.now + elapsed)
    ensures s.workers[w].Calling? ==> Enabled(s, Resend(w)) && Step(s, Resend(w)) == s.(wire := s.wire + multiset{SetNX(s.workers[w].token)})
    ensures s.workers[w].Releasing? ==> Enabled(s, Resend(w)) && Step(s, Resend(w)) == s.(wire := s.wire + multiset{Release(s.workers[w].token)})
  {
    if s.workers[w].Calling? {
      assert s.workers[w := Calling(s.workers[w].token)] == s.workers;
    }
  }

  ghost predicate Init(s: State) {
    && s.store == map[]
    && s.wire == multiset{}
    && s.claims == map[]
    && forall w :: 0 <= w < |s.workers| ==> s.workers[w].Idle?
  }

  /** The protocol starts at any time, with any number of idle workers. */
  lemma AnyStart(s: State)
    requires s.store == map[] && s.wire == multiset{} && s.claims == map[]
    requires forall w :: 0 <= w < |s.workers| ==> s.workers[w] == Idle
    ensures Init(s) && Run([s], []) && Inv(s)
  {
  }

  /** states[i+1] follows states[i] by actions[i]. */
  ghost predicate StepAt(states: seq<State>, actions: seq<Action>, i: nat)
    requires i < |actions| && |states| == |actions| + 1
  {
    Enabled(states[i], actions[i]) && states[i + 1] == Step(states[i], actions[i])
  }

  /** A run: a step at every index, from an initial state. */
  ghost predicate Run(states: seq<State>, actions: seq<Action>) {
    && |states| == |actions| + 1
    && Init(states[0])
    && forall i :: 0 <= i < |actions| ==> StepAt(states, actions, i)
  }

  /** The expiry of the lease the server granted to a worker that has not left yet. */
  function Granted(p: Phase): Option<int> {
    match p
    case Answered(_, got) => got
    case Inside(_, until) => Some(until)
    case _ => None
  }

  /** The worker has not begun to release this token. */
  predicate Unreleased(p: Phase, token: Token) {
    p == Calling(token) || (p.Answered? && p.token == token) || (p.Inside? && p.token == token)
  }

  predicate WorkersOwnTheirTokens(s: State) {
    forall w :: 0 <= w < |s.workers| && !s.workers[w].Idle? ==>
      s.workers[w].token in s.claims && s.claims[s.workers[w].token].worker == w
  }

  predicate ClaimsAreProper(s: State) {
    "" !in s.claims && forall t :: t in s.claims ==> s.claims[t].ttl > 0
  }

  ghost predicate WireIsClaimed(s: State) {
    forall m :: m in s.wire ==> m.token in s.claims
  }

  /** A release is on the wire only after its sender has left the section for good. */
  ghost predicate ReleasesAreSpent(s: State) {
    forall w, m :: 0 <= w < |s.workers| && m in s.wire && m.Release? ==> !Unreleased(s.workers[w], m.token)
  }

  predicate StoreIsClaimed(s: State) {
    forall k :: k in s.store ==>
      && s.store[k].value in s.claims
      && s.claims[s.store[k].value].key == k
      && s.store[k].expiry <= s.now + s.claims[s.store[k].value].ttl
  }

  /** A granted lease that has not expired is in the store, under the worker's token. */
  predicate HolderIsStored(s: State, w: nat)
    requires w < |s.workers|
  {
    var p := s.workers[w];
    Granted(p).Some? && s.now < Granted(p).value ==>
      p.token in s.claims &&
      var key := s.claims[p.token].key;
      key in s.store && s.store[key] == Entry(p.token, Granted(p).value)
  }

  predicate HoldersAreStored(s: State) {
    forall w :: 0 <= w < |s.workers| ==> HolderIsStored(s, w)
  }

  ghost predicate Inv(s: State) {
    && WorkersOwnTheirTokens(s)
    && WireIsClaimed(s)
    && ReleasesAreSpent(s)
    && StoreIsClaimed(s)
    && HoldersAreStored(s)
    && ClaimsAreProper(s)
  }

  lemma BeginAddsClaim(s: State, a: Action)
    requires Enabled(s, a) && a.Begin?
    ensures Step(s, a).claims == s.claims[a.token := Claim(a.worker, a.key, a.ttl)]
  {
  }

  lemma WorkersKeepClaims(s: State, a: Action)
    requires Enabled(s, a) && !a.Begin? && !a.ServeSet? && !a.Resend?
    ensures Step(s, a).claims == s.claims
  {
  }

  lemma RequestsKeepClaims(s: State, a: Action)
    requires Enabled(s, a) && (a.ServeSet? || a.Resend?)
    ensures Step(s, a).claims == s.claims
  {
  }

  /** A token keeps its claim, and only Begin mints one. */
  lemma ClaimsAfter(s: State, a: Action)
    requires Enabled(s, a)
    ensures forall t :: t in s.claims ==> t in Step(s, a).claims && Step(s, a).claims[t] == s.claims[t]
    ensures a.Begin? ==> Step(s, a).claims == s.claims[a.token := Claim(a.worker, a.key, a.ttl)]
    ensures !a.Begin? ==> Step(s, a).claims == s.claims
  {
    if a.Begin? {
      BeginAddsClaim(s, a);
      assert a.token !in s.claims;
    } else if a.ServeSet? || a.Resend? {
      RequestsKeepClaims(s, a);
    } else {
      WorkersKeepClaims(s, a);
    }
  }

  /** The phase of a worker after a step carries the token it carried before,
      unless the worker is idle or its token was just minted. */
  lemma TokenAfter(s: State, a: Action, w: nat)
    requires Enabled(s, a) && w < |s.workers|
    ensures var p := Step(s, a).workers[w];
      p.Idle? || (a.Begin? && a.worker == w && p == Calling(a.token)) || (!s.workers[w].Idle? && p.token == s.workers[w].token)
  {
  }

  lemma StepKeepsOwnership(s: State, a: Action)
    requires Inv(s) && Enabled(s, a)
    ensures WorkersOwnTheirTokens(Step(s, a))
  {
    ClaimsAfter(s, a);
    forall w | 0 <= w < |s.workers| && !Step(s, a).workers[w].Idle?
      ensures var t := Step(s, a).workers[w].token; t in Step(s, a).claims && Step(s, a).claims[t].worker == w
    {
      TokenAfter(s, a, w);
    }
  }

  /** A message is new on the wire only because a worker sent it, under its own token. */
  lemma WireAfter(s: State, a: Action, m: Message)
    requires Enabled(s, a) && m in Step(s, a).wire && m !in s.wire
    ensures a.Begin? || a.Resend? || a.Finish?
    ensures a.Begin? ==> m == SetNX(a.token)
    ensures !a.Begin? ==> !s.workers[a.worker].Idle? && m.token == s.workers[a.worker].token
  {
  }

  lemma StepKeepsWireClaimed(s: State, a: Action)
    requires Inv(s) && Enabled(s, a)
    ensures WireIsClaimed(Step(s, a))
  {
    ClaimsAfter(s, a);
    forall m | m in Step(s, a).wire
      ensures m.token in Step(s, a).claims
    {
      if m !in s.wire {
        WireAfter(s, a, m);
      }
    }
  }

  lemma StepKeepsClaims(s: State, a: Action)
    requires Inv(s) && Enabled(s, a)
    ensures ClaimsAreProper(Step(s, a))
  {
  }

  /** A worker that has not begun to release its token had not before the step
      either, unless the token was minted in it. */
  lemma UnreleasedBefore(s: State, a: Action, w: nat, token: Token)
    requires Inv(s) && Enabled(s, a) && w < |s.workers|
    requires Unreleased(Step(s, a).workers[w], token)
    ensures token !in s.claims || Unreleased(s.workers[w], token)
  {
    if Step(s, a).workers[w] != s.workers[w] {
      ChangedWorker(s, a, w);
    }
  }

  /** Only the actor of a step changes its phase, and how. */
  lemma ChangedWorker(s: State, a: Action, w: nat)
    requires Enabled(s, a) && w < |s.workers| && Step(s, a).workers[w] != s.workers[w]
    ensures var p, p' := s.workers[w], Step(s, a).workers[w];
      match a
      case Begin(_, _, _, token) => p' == Calling(token)
      case Resend(_) => p.Answered? && p' == Calling(p.token)
      case ServeSet(token) => p == Calling(token) && p'.Answered? && p'.token == token
      case Return(_) => p.Answered? && (p' == Idle || (p'.Inside? && p'.token == p.token && p.got == Some(p'.until)))
      case Finish(_) => p.Inside? && p' == Releasing(p.token)
      case _ => p' == Idle
  {
  }

  /** A release not seen on the wire before comes from a worker that is releasing. */
  lemma NewReleaseHasSender(s: State, a: Action, m: Message)
    requires Enabled(s, a) && m.Release? && m in Step(s, a).wire && m !in s.wire
    ensures a.Finish? || a.Resend?
    ensures s.workers[a.worker] == Releasing(m.token) || (s.workers[a.worker].Inside? && s.workers[a.worker].token == m.token)
    ensures Step(s, a).workers == s.workers[a.worker := Releasing(m.token)]
  {
  }

  lemma ReleaseStaysSpent(s: State, a: Action, w: nat, m: Message)
    requires Inv(s) && Enabled(s, a) && w < |s.workers|
    requires m in Step(s, a).wire && m.Release?
    ensures !Unreleased(Step(s, a).workers[w], m.token)
  {
    if m !in s.wire {
      NewReleaseHasSender(s, a, m);
    } else if Unreleased(Step(s, a).workers[w], m.token) {
      UnreleasedBefore(s, a, w, m.token);
    }
  }

  lemma StepKeepsReleases(s: State, a: Action)
    requires Inv(s) && Enabled(s, a)
    ensures ReleasesAreSpent(Step(s, a))
  {
    var s' := Step(s, a);
    assert |s'.workers| == |s.workers|;
    forall w, m | 0 <= w < |s'.workers| && m in s'.wire && m.Release?
      ensures !Unreleased(s'.workers[w], m.token)
    {
      ReleaseStaysSpent(s, a, w, m);
    }
  }

  /** Only served requests change the store. */
  lemma StoreAfter(s: State, a: Action)
    requires Enabled(s, a)
    ensures a.ServeSet? ==> Step(s, a).store == SetNx(s.store, s.now, s.claims[a.token].key, a.token, s.claims[a.token].ttl).0
    ensures a.ServeRelease? ==> Step(s, a).store == CompareAndDelete(s.store, s.now, s.claims[a.token].key, a.token)
    ensures !a.ServeSet? && !a.ServeRelease? ==> Step(s, a).store == s.store
    ensures Step(s, a).now >= s.now && (!a.Tick? ==> Step(s, a).now == s.now)
  {
    if a.ServeSet? {
      ServeSetStores(s, a.token);
    } else if a.ServeRelease? {
      assert Step(s, a).now == s.now;
    } else {
      OthersLeaveStore(s, a);
    }
  }

  lemma ServeSetStores(s: State, token: Token)
    requires Enabled(s, ServeSet(token))
    ensures Step(s, ServeSet(token)).now == s.now
    ensures Step(s, ServeSet(token)).store == SetNx(s.store, s.now, s.claims[token].key, token, s.claims[token].ttl).0
  {
  }

  lemma OthersLeaveStore(s: State, a: Action)
    requires Enabled(s, a) && !a.ServeSet? && !a.ServeRelease?
    ensures Step(s, a).store == s.store && Step(s, a).now >= s.now && (!a.Tick? ==> Step(s, a).now == s.now)
  {
  }

  lemma StepKeepsStore(s: State, a: Action)
    requires Inv(s) && Enabled(s, a)
    ensures StoreIsClaimed(Step(s, a))
  {
    var s' := Step(s, a);
    StoreAfter(s, a);
    ClaimsAfter(s, a);
    forall k | k in s'.store
      ensures s'.store[k].value in s'.claims && s'.claims[s'.store[k].value].key == k
      ensures s'.store[k].expiry <= s'.now + s'.claims[s'.store[k].value].ttl
    {
      assert (k in s.store && s'.store[k] == s.store[k]) || (a.ServeSet? && k == s.claims[a.token].key);
    }
  }

  /** Another worker's SET cannot displace a live lease, and a release deletes
      only the lease of a token whose owner has left. */
  lemma ServedRequestsSpareHolder(s: State, a: Action, w: nat)
    requires Inv(s) && Enabled(s, a) && (a.ServeSet? || a.ServeRelease?)
    requires w < |s.workers|
    ensures HolderIsStored(Step(s, a), w)
  {
    assert HolderIsStored(s, w);
    if a.ServeRelease? {
      assert !Unreleased(s.workers[w], Release(a.token).token);
    }
  }

  lemma OtherActionsSpareHolder(s: State, a: Action, w: nat)
    requires Inv(s) && Enabled(s, a) && !a.ServeSet? && !a.ServeRelease?
    requires w < |s.workers|
    ensures HolderIsStored(Step(s, a), w)
  {
    assert HolderIsStored(s, w);
    StoreAfter(s, a);
    ClaimsAfter(s, a);
    var p, p' := s.workers[w], Step(s, a).workers[w];
    if p' != p {
      ChangedWorker(s, a, w);
    }
    assert Granted(p').Some? ==> Granted(p) == Granted(p') && p.token == p'.token;
  }

  lemma StepKeepsHolders(s: State, a: Action)
    requires Inv(s) && Enabled(s, a)
    ensures HoldersAreStored(Step(s, a))
  {
    forall w | 0 <= w < |Step(s, a).workers|
      ensures HolderIsStored(Step(s, a), w)
    {
      if a.ServeSet? || a.ServeRelease? {
        ServedRequestsSpareHolder(s, a, w);
      } else {
        OtherActionsSpareHolder(s, a, w);
      }
    }
  }

  lemma StepKeepsInv(s: State, a: Action)
    requires Inv(s) && Enabled(s, a)
    ensures Inv(Step(s, a))
  {
    StepKeepsOwnership(s, a);
    StepKeepsWireClaimed(s, a);
    StepKeepsClaims(s, a);
    StepKeepsReleases(s, a);
    StepKeepsStore(s, a);
    StepKeepsHolders(s, a);
  }

  lemma {:induction false} InvHolds(states: seq<State>, actions: seq<Action>, i: nat)
    requires Run(states, actions) && i < |states|
    ensures Inv(states[i])
  {
    if i > 0 {
      InvHolds(states, actions, i - 1);
      assert StepAt(states, actions, i - 1);
      StepKeepsInv(states[i - 1], actions[i - 1]);
    }
  }

  lemma {:induction false} TimeAdvances(states: seq<State>, actions: seq<Action>, i: nat, j: nat)
    requires Run(states, actions) && i <= j < |states|
    ensures states[i].now <= states[j].now
    ensures |states[i].workers| == |states[j].workers|
    ensures forall t :: t in states[i].claims ==> t in states[j].claims && states[j].claims[t] == states[i].claims[t]
  {
    if i < j {
      TimeAdvances(states, actions, i, j - 1);
      assert StepAt(states, actions, j - 1);
      ClaimsAfter(states[j - 1], actions[j - 1]);
    }
  }

  // ----- Mutual exclusion -----

  /** The worker runs the section guarded by the key. */
  predicate InSection(s: State, w: nat, key: string) {
    w < |s.workers| && s.workers[w].Inside? && s.workers[w].token in s.claims && s.claims[s.workers[w].token].key == key
  }

  predicate BothInside(s: State, v: nat, w: nat, key: string) {
    InSection(s, v, key) && InSection(s, w, key)
  }

  predicate Overstays(s: State, w: nat) {
    w < |s.workers| && s.workers[w].Inside? && s.workers[w].until <= s.now
  }

  /** Of all the workers in one section, at most one has a lease that still runs:
      whenever two are inside, at least one of them has overstayed its lease. */
  lemma AtMostOneUnexpired(states: seq<State>, actions: seq<Action>, i: nat, v: nat, w: nat, key: string)
    requires Run(states, actions) && i < |states|
    requires BothInside(states[i], v, w, key) && v != w
    ensures Overstays(states[i], v) || Overstays(states[i], w)
  {
    InvHolds(states, actions, i);
    assert HolderIsStored(states[i], v) && HolderIsStored(states[i], w);
  }

  /** In every interleaving, with requests lost, delayed or duplicated, if no run
      stays in the section past the expiry of its lease then the section is
      never shared. */
  lemma MutualExclusion(states: seq<State>, actions: seq<Action>)
    requires Run(states, actions)
    requires forall i, w :: 0 <= i < |states| && 0 <= w < |states[i].workers| ==> !Overstays(states[i], w)
    ensures forall i, v: nat, w: nat, key :: 0 <= i < |states| && BothInside(states[i], v, w, key) ==> v == w
  {
    forall i, v: nat, w: nat, key | 0 <= i < |states| && BothInside(states[i], v, w, key)
      ensures v == w
    {
      if v != w {
        AtMostOneUnexpired(states, actions, i, v, w, key);
      }
    }
  }

  function Extend(s: State, actions: seq<Action>): Option<State>
    decreases |actions|
  {
    if actions == [] then Some(s)
    else if Enabled(s, actions[0]) then Extend(Step(s, actions[0]), actions[1..])
    else None
  }

  lemma AcquireFreeKey(s: State, w: nat, token: Token)
    requires w < |s.workers| && s.workers[w] == Calling(token) && SetNX(token) in s.wire
    requires token in s.claims && s.claims[token].worker == w && s.claims[token].ttl > 0
    requires !Live(s.store, s.now, s.claims[token].key)
    ensures var until := s.now + s.claims[token].ttl;
      Extend(s, [ServeSet(token), Return(w)]) ==
        Some(s.(store := s.store[s.claims[token].key := Entry(token, until)],
                wire := s.wire - multiset{SetNX(token)},
                workers := s.workers[w := Inside(token, until)]))
  {
    var s1 := Step(s, ServeSet(token));
    var s2 := Step(s1, Return(w));
    assert s2.workers == s.workers[w := Inside(token, s.now + s.claims[token].ttl)];
    assert [ServeSet(token), Return(w)][1..] == [Return(w)] && [Return(w)][1..] == [];
    assert Extend(s1, [Return(w)]) == Some(s2);
  }

  /** An idle worker joins one that has overstayed, in three steps. */
  lemma JoinOverstayed(s: State, v: nat, w: nat, key: string, token: Token, ttl: nat) returns (next: seq<Action>, s': State)
    requires Inv(s) && InSection(s, v, key) && Overstays(s, v) && !Live(s.store, s.now, key)
    requires w < |s.workers| && s.workers[w].Idle?
    requires token != "" && token !in s.claims && ttl > 0
    ensures v != w && |next| == 3 && Extend(s, next) == Some(s') && BothInside(s', v, w, key)
  {
    var s1 := Step(s, Begin(w, key, ttl, token));
    AcquireFreeKey(s1, w, token);
    var rest := [ServeSet(token), Return(w)];
    next := [Begin(w, key, ttl, token)] + rest;
    assert next[1..] == rest;
    s' := Extend(s1, rest).value;
    assert Extend(s, next) == Extend(s1, rest);
  }

  /** The premise is needed: from any reachable state in which a worker has
      overstayed and the key is free, an idle worker can join it in three steps. */
  lemma OverstayAdmitsAnother(states: seq<State>, actions: seq<Action>, i: nat, v: nat, w: nat, key: string, token: Token, ttl: nat)
    requires Run(states, actions) && i < |states|
    requires InSection(states[i], v, key) && Overstays(states[i], v) && !Live(states[i].store, states[i].now, key)
    requires w < |states[i].workers| && states[i].workers[w].Idle?
    requires token != "" && token !in states[i].claims && ttl > 0
    ensures v != w
    ensures exists next, s' :: Extend(states[i], next) == Some(s') && BothInside(s', v, w, key)
  {
    InvHolds(states, actions, i);
    var next, s' := JoinOverstayed(states[i], v, w, key, token, ttl);
  }

  lemma ExtendCons(s: State, a: Action, rest: seq<Action>)
    ensures Extend(s, [a] + rest) == if Enabled(s, a) then Extend(Step(s, a), rest) else None
  {
    assert ([a] + rest)[1..] == rest;
  }

  lemma {:induction false} ExtendAppend(s: State, a: seq<Action>, b: seq<Action>)
    requires Extend(s, a).Some?
    ensures Extend(s, a + b) == Extend(Extend(s, a).value, b)
    decreases |a|
  {
    if a == [] {
      assert a + b == b;
    } else {
      assert a + b == [a[0]] + (a[1..] + b);
      ExtendCons(s, a[0], a[1..] + b);
      ExtendAppend(Step(s, a[0]), a[1..], b);
    }
  }

  lemma {:induction false} ExtendKeepsInv(s: State, steps: seq<Action>)
    requires Inv(s) && Extend(s, steps).Some?
    ensures Inv(Extend(s, steps).value)
    decreases |steps|
  {
    if steps != [] {
      StepKeepsInv(s, steps[0]);
      ExtendKeepsInv(Step(s, steps[0]), steps[1..]);
    }
  }

  lemma FirstThenRest(actions: seq<Action>, next: seq<Action>)
    requires next != []
    ensures (actions + [next[0]]) + next[1..] == actions + next
  {
  }

  lemma {:induction false} ExtendRun(states: seq<State>, actions: seq<Action>, next: seq<Action>) returns (states': seq<State>)
    requires Run(states, actions) && Extend(states[|actions|], next).Some?
    ensures Run(states', actions + next) && states <= states'
    ensures states'[|states'| - 1] == Extend(states[|actions|], next).value
    decreases |next|
  {
    if next == [] {
      assert actions + next == actions;
      states' := states;
    } else {
      ExtendRunByOne(states, actions, next[0]);
      var longer := states + [Step(states[|actions|], next[0])];
      states' := ExtendRun(longer, actions + [next[0]], next[1..]);
      FirstThenRest(actions, next);
    }
  }

  lemma ExtendRunByOne(states: seq<State>, actions: seq<Action>, a: Action)
    requires Run(states, actions) && Enabled(states[|actions|], a)
    ensures Run(states + [Step(states[|actions|], a)], actions + [a])
  {
    var states', actions' := states + [Step(states[|actions|], a)], actions + [a];
    forall i | 0 <= i < |actions'|
      ensures StepAt(states', actions', i)
    {
      if i < |actions| {
        assert StepAt(states, actions, i);
      }
    }
  }

  /** From any start, for any two workers, key, time to live and two tokens: a state
      with a worker that has overstayed its lease is reachable, and from it one in
      which both workers are in the section. */
  lemma SectionCanBeShared(s0: State, v: nat, w: nat, key: string, ttl: nat, token: Token, token': Token)
    returns (states: seq<State>, actions: seq<Action>, i: nat)
    requires Init(s0) && v < |s0.workers| && w < |s0.workers| && v != w
    requires ttl > 0 && token != "" && token' != "" && token != token'
    ensures Run(states, actions) && i < |states| && states[0] == s0
    ensures InSection(states[i], v, key) && Overstays(states[i], v) && !Live(states[i].store, states[i].now, key)
    ensures BothInside(states[|states| - 1], v, w, key)
  {
    var first := Overstay(s0, v, w, key, ttl, token);
    states := RunFrom(s0, first);
    i := |states| - 1;
    var more, shared := JoinOverstayed(states[i], v, w, key, token', ttl);
    states := ExtendRun(states, first, more);
    actions := first + more;
  }

  lemma RunFrom(s0: State, steps: seq<Action>) returns (states: seq<State>)
    requires Init(s0) && Extend(s0, steps).Some?
    ensures Run(states, steps) && states[0] == s0 && states[|states| - 1] == Extend(s0, steps).value
  {
    assert Run([s0], []);
    states := ExtendRun([s0], [], steps);
    assert [] + steps == steps;
  }

  /** One worker acquires and stays while its lease runs out. */
  lemma Overstay(s0: State, v: nat, w: nat, key: string, ttl: nat, token: Token) returns (steps: seq<Action>)
    requires Init(s0) && v < |s0.workers| && w < |s0.workers| && v != w && ttl > 0 && token != ""
    ensures Extend(s0, steps).Some?
    ensures var s := Extend(s0, steps).value;
      && InSection(s, v, key) && Overstays(s, v) && !Live(s.store, s.now, key)
      && |s.workers| == |s0.workers| && s.workers[w].Idle? && s.claims.Keys == {token} && Inv(s)
  {
    var begin := Begin(v, key, ttl, token);
    var acquire := [ServeSet(token), Return(v)];
    var s1 := Step(s0, begin);
    AcquireFreeKey(s1, v, token);
    var s2 := Extend(s1, acquire).value;
    ExtendAppend(s1, acquire, [Tick(ttl)]);
    ExtendCons(s2, Tick(ttl), []);
    steps := [begin] + (acquire + [Tick(ttl)]);
    ExtendCons(s0, begin, acquire + [Tick(ttl)]);
    OverstayedState(s0, s1, s2, v, w, key, ttl, token);
    ExtendKeepsInv(s0, steps);
  }

  lemma OverstayedState(s0: State, s1: State, s2: State, v: nat, w: nat, key: string, ttl: nat, token: Token)
    requires Init(s0) && v < |s0.workers| && w < |s0.workers| && v != w && ttl > 0 && token != ""
    requires s1 == Step(s0, Begin(v, key, ttl, token))
    requires s2.store == s1.store[key := Entry(token, s0.now + ttl)] && s2.workers == s1.workers[v := Inside(token, s0.now + ttl)]
    requires s2.now == s0.now && s2.claims == s1.claims
    ensures Inv(s0) && Enabled(s2, Tick(ttl))
    ensures var s := Step(s2, Tick(ttl));
      && InSection(s, v, key) && Overstays(s, v) && !Live(s.store, s.now, key)
      && |s.workers| == |s0.workers| && s.workers[w].Idle? && s.claims.Keys == {token}
  {
  }

  // ----- A release spares the leases of others -----

  /** Whatever entry a served release takes away was stored under the very token
      it names, and its owner had already left the section; every other key, and
      any lease stored meanwhile under another token, stays. */
  lemma ReleaseRemovesOnlyItsOwnLease(states: seq<State>, actions: seq<Action>, i: nat, token: Token, k: string)
    requires Run(states, actions) && i < |actions| && actions[i] == ServeRelease(token)
    requires k in states[i].store
    ensures token in states[i].claims
    ensures k !in states[i + 1].store ==>
      && states[i].store[k].value == token
      && states[i].claims[token].key == k
      && forall w :: 0 <= w < |states[i].workers| ==> !Unreleased(states[i].workers[w], token)
    ensures k in states[i + 1].store ==> states[i + 1].store[k] == states[i].store[k]
  {
    InvHolds(states, actions, i);
    assert StepAt(states, actions, i);
    forall w | 0 <= w < |states[i].workers|
      ensures !Unreleased(states[i].workers[w], token)
    {
      assert !Unreleased(states[i].workers[w], Release(token).token);
    }
  }

  lemma StepKeepsLease(s: State, a: Action, key: string, lease: Entry)
    requires Inv(s) && Enabled(s, a) && a != ServeRelease(lease.value)
    requires key in s.store && s.store[key] == lease && s.now < lease.expiry
    ensures key in Step(s, a).store && Step(s, a).store[key] == lease
  {
  }

  /** A stored lease stays as it is, in every run, until it expires or a release
      naming its own token is served. */
  lemma {:induction false} LeaseLasts(states: seq<State>, actions: seq<Action>, i: nat, j: nat, key: string, lease: Entry)
    requires Run(states, actions) && i <= j < |states|
    requires key in states[i].store && states[i].store[key] == lease
    requires states[j].now < lease.expiry
    requires forall n :: i <= n < j ==> actions[n] != ServeRelease(lease.value)
    ensures key in states[j].store && states[j].store[key] == lease
  {
    if i < j {
      TimeAdvances(states, actions, j - 1, j);
      LeaseLasts(states, actions, i, j - 1, key, lease);
      InvHolds(states, actions, j - 1);
      assert StepAt(states, actions, j - 1);
      StepKeepsLease(states[j - 1], actions[j - 1], key, lease);
    }
  }

  // ----- No permanent lock -----

  ghost predicate ServesSetOn(s: State, a: Action, key: string) {
    a.ServeSet? && a.token in s.claims && s.claims[a.token].key == key
  }

  /** The step serves a SET on the key and NX does not refuse it. */
  ghost predicate GrantsOn(s: State, a: Action, key: string) {
    ServesSetOn(s, a, key) && !Live(s.store, s.now, key)
  }

  /** The lease such a step stores. */
  ghost function LeaseOf(s: State, a: Action, key: string): Entry
    requires GrantsOn(s, a, key)
  {
    Entry(a.token, s.now + s.claims[a.token].ttl)
  }

  /** Every lease in the store expires within the time to live it was asked with. */
  lemma LeaseIsBounded(states: seq<State>, actions: seq<Action>, i: nat, key: string)
    requires Run(states, actions) && i < |states| && key in states[i].store
    ensures states[i].store[key].value in states[i].claims
    ensures states[i].store[key].expiry <= states[i].now + states[i].claims[states[i].store[key].value].ttl
  {
    InvHolds(states, actions, i);
  }

  /** What a step may leave under the key: what was there, or the lease it grants. */
  lemma EntryAfter(s: State, a: Action, key: string)
    requires Enabled(s, a) && key in Step(s, a).store
    ensures GrantsOn(s, a, key) ==> Step(s, a).store[key] == LeaseOf(s, a, key)
    ensures !GrantsOn(s, a, key) ==> key in s.store && Step(s, a).store[key] == s.store[key]
  {
    StoreAfter(s, a);
  }

  lemma {:induction false} OnlyGrantsStore(states: seq<State>, actions: seq<Action>, i: nat, j: nat, key: string)
    requires Run(states, actions) && i <= j < |states|
    requires forall n :: i <= n < j ==> !GrantsOn(states[n], actions[n], key)
    ensures key in states[j].store ==> key in states[i].store && states[j].store[key] == states[i].store[key]
  {
    if i < j {
      OnlyGrantsStore(states, actions, i, j - 1, key);
      assert StepAt(states, actions, j - 1);
      assert !GrantsOn(states[j - 1], actions[j - 1], key);
      if key in states[j].store {
        EntryAfter(states[j - 1], actions[j - 1], key);
      }
    }
  }

  ghost predicate GrantedBetween(states: seq<State>, actions: seq<Action>, i: nat, j: nat, key: string)
    requires i <= j <= |actions| <= |states|
  {
    exists n :: i <= n < j && GrantsOn(states[n], actions[n], key)
  }

  /** No lock is permanent. Whoever left a lease behind (a crashed worker, a release
      that was swallowed, a SET served after its caller had given up), it is gone
      once its time to live has passed, however often others have asked for the
      key meanwhile: a key that is still taken was granted anew. */
  lemma OrphanExpires(states: seq<State>, actions: seq<Action>, i: nat, j: nat, key: string, ttl: nat)
    requires Run(states, actions) && i <= j < |states|
    requires key in states[i].store && states[i].store[key].value in states[i].claims ==> states[i].claims[states[i].store[key].value].ttl <= ttl
    requires states[j].now >= states[i].now + ttl
    ensures Live(states[j].store, states[j].now, key) ==> GrantedBetween(states, actions, i, j, key)
  {
    if !GrantedBetween(states, actions, i, j, key) {
      OnlyGrantsStore(states, actions, i, j, key);
      if key in states[i].store {
        LeaseIsBounded(states, actions, i, key);
      }
    }
  }

  /** So an acquire that reaches the server by then returns its token and enters the
      section, unless somebody else was let in meanwhile. */
  lemma AcquiredAfterExpiry(states: seq<State>, actions: seq<Action>, i: nat, j: nat, key: string, ttl: nat, w: nat, token: Token)
    requires Run(states, actions) && i <= j < |states|
    requires key in states[i].store && states[i].store[key].value in states[i].claims ==> states[i].claims[states[i].store[key].value].ttl <= ttl
    requires states[j].now >= states[i].now + ttl
    requires w < |states[j].workers| && states[j].workers[w] == Calling(token) && SetNX(token) in states[j].wire
    requires token in states[j].claims && states[j].claims[token].key == key
    ensures
      || GrantedBetween(states, actions, i, j, key)
      || (var r := Extend(states[j], [ServeSet(token), Return(w)]);
          r.Some? && InSection(r.value, w, key) && !Overstays(r.value, w))
  {
    OrphanExpires(states, actions, i, j, key, ttl);
    if !GrantedBetween(states, actions, i, j, key) {
      FreeKeyIsAcquired(states, actions, j, w, token);
    }
  }

  /** Whenever the key is taken, and so whenever an acquire is answered "already
      running", the lease in the way was granted less than its time to live ago. */
  lemma {:induction false} RefusalIsRecent(states: seq<State>, actions: seq<Action>, j: nat, key: string) returns (n: nat)
    requires Run(states, actions) && j < |states| && Live(states[j].store, states[j].now, key)
    ensures n < j && GrantsOn(states[n], actions[n], key)
    ensures states[j].store[key] == LeaseOf(states[n], actions[n], key)
    ensures states[j].now < states[n].now + states[n].claims[actions[n].token].ttl
  {
    if j > 0 {
      var s, a := states[j - 1], actions[j - 1];
      assert StepAt(states, actions, j - 1);
      EntryAfter(s, a, key);
      if GrantsOn(s, a, key) {
        n := j - 1;
      } else {
        TimeAdvances(states, actions, j - 1, j);
        n := RefusalIsRecent(states, actions, j - 1, key);
      }
    }
  }

  /** On a free key the next acquire that reaches the server returns its token. */
  lemma FreeKeyIsAcquired(states: seq<State>, actions: seq<Action>, i: nat, w: nat, token: Token)
    requires Run(states, actions) && i < |states|
    requires w < |states[i].workers| && states[i].workers[w] == Calling(token)
    requires SetNX(token) in states[i].wire
    requires token in states[i].claims && !Live(states[i].store, states[i].now, states[i].claims[token].key)
    ensures var r := Extend(states[i], [ServeSet(token), Return(w)]);
      r.Some? && InSection(r.value, w, states[i].claims[token].key) && !Overstays(r.value, w)
  {
    InvHolds(states, actions, i);
    AcquireFreeKey(states[i], w, token);
  }
}
