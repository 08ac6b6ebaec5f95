/** The calls of RedisCache are steps of the lease protocol: whatever fault strikes,
    the effect of acquire_lock and of release_lock on the server is the effect of
    some steps of the protocol, so its invariants hold for the client code. */
module LeaseRefinement {
  import opened Options
  import opened Redis
  import opened LeaseProtocol

  lemma ExtendByThree(s: State, a: Action, b: Action, c: Action) returns (s': State)
    requires Enabled(s, a) && Enabled(Step(s, a), b) && Enabled(Step(Step(s, a), b), c)
    ensures Extend(s, [a, b, c]) == Some(s') && s' == Step(Step(Step(s, a), b), c)
  {
    s' := Step(Step(Step(s, a), b), c);
    assert [a, b, c][1..] == [b, c] && [b, c][1..] == [c] && [c][1..] == [];
    assert Extend(Step(Step(s, a), b), [c]) == Some(s');
    assert Extend(Step(s, a), [b, c]) == Some(s');
  }

  /** What the protocol does while acquire_lock runs. */
  function AcquireSteps(w: nat, key: string, ttl: nat, token: Token, fault: Fault): seq<Action> {
    match fault
    case Healthy => [Begin(w, key, ttl, token), ServeSet(token), Return(w)]
    case RequestLost => [Begin(w, key, ttl, token), Lose(SetNX(token)), FailAcquire(w)]
    case ReplyLost => [Begin(w, key, ttl, token), ServeSet(token), FailAcquire(w)]
  }

  function ReleaseSteps(w: nat, token: Token, fault: Fault): seq<Action> {
    [Finish(w), if fault == RequestLost then Lose(Release(token)) else ServeRelease(token), EndRelease(w)]
  }

  lemma SendThenTake(wire: multiset<Message>, m: Message)
    ensures wire + multiset{m} - multiset{m} == wire
  {
  }

  predicate CanBegin(s: State, w: nat, ttl: nat, token: Token) {
    w < |s.workers| && s.workers[w].Idle? && token != "" && token !in s.claims && ttl > 0
  }

  lemma ServedAcquire(s: State, w: nat, key: string, ttl: nat, token: Token, fault: Fault) returns (s': State)
    requires CanBegin(s, w, ttl, token) && fault != RequestLost
    ensures Extend(s, AcquireSteps(w, key, ttl, token, fault)) == Some(s')
    ensures s'.store == SetNx(s.store, s.now, key, token, ttl).0
    ensures s'.workers == s.workers[w := if fault == Healthy && !Live(s.store, s.now, key) then Inside(token, s.now + ttl) else Idle]
    ensures s'.now == s.now && s'.wire == s.wire && s'.claims == s.claims[token := Claim(w, key, ttl)]
  {
    SendThenTake(s.wire, SetNX(token));
    var served := ServedSet(s, w, key, ttl, token);
    s' := ExtendByThree(s, Begin(w, key, ttl, token), ServeSet(token), if fault == Healthy then Return(w) else FailAcquire(w));
  }

  lemma ServedSet(s: State, w: nat, key: string, ttl: nat, token: Token) returns (s': State)
    requires CanBegin(s, w, ttl, token)
    ensures Enabled(s, Begin(w, key, ttl, token)) && Enabled(Step(s, Begin(w, key, ttl, token)), ServeSet(token))
    ensures s' == Step(Step(s, Begin(w, key, ttl, token)), ServeSet(token))
    ensures s'.store == SetNx(s.store, s.now, key, token, ttl).0
    ensures s'.now == s.now && s'.wire == s.wire && s'.claims == s.claims[token := Claim(w, key, ttl)]
  {
    SendThenTake(s.wire, SetNX(token));
    s' := Step(Step(s, Begin(w, key, ttl, token)), ServeSet(token));
  }

  lemma LostAcquire(s: State, w: nat, key: string, ttl: nat, token: Token) returns (s': State)
    requires CanBegin(s, w, ttl, token)
    ensures Extend(s, AcquireSteps(w, key, ttl, token, RequestLost)) == Some(s')
    ensures s'.store == s.store && s'.workers == s.workers[w := Idle]
    ensures s'.now == s.now && s'.wire == s.wire && s'.claims == s.claims[token := Claim(w, key, ttl)]
  {
    SendThenTake(s.wire, SetNX(token));
    s' := ExtendByThree(s, Begin(w, key, ttl, token), Lose(SetNX(token)), FailAcquire(w));
  }

  /** acquire_lock leaves the store as its contract says, and the worker inside
      with its lease exactly when it was answered its token. */
  lemma AcquireIsProtocol(s: State, w: nat, key: string, ttl: nat, token: Token, fault: Fault) returns (s': State)
    requires CanBegin(s, w, ttl, token)
    ensures Extend(s, AcquireSteps(w, key, ttl, token, fault)) == Some(s')
    ensures s'.store == if fault == RequestLost then s.store else SetNx(s.store, s.now, key, token, ttl).0
    ensures s'.workers == s.workers[w := if fault == Healthy && !Live(s.store, s.now, key) then Inside(token, s.now + ttl) else Idle]
    ensures s'.now == s.now && s'.wire == s.wire && s'.claims == s.claims[token := Claim(w, key, ttl)]
  {
    if fault == RequestLost {
      s' := LostAcquire(s, w, key, ttl, token);
    } else {
      s' := ServedAcquire(s, w, key, ttl, token, fault);
    }
  }

  /** release_lock at the end of the section, likewise. */
  lemma ReleaseIsProtocol(s: State, w: nat, fault: Fault) returns (s': State)
    requires w < |s.workers| && s.workers[w].Inside? && s.workers[w].token in s.claims
    ensures var token := s.workers[w].token;
      && Extend(s, ReleaseSteps(w, token, fault)) == Some(s')
      && s'.store == if fault == RequestLost then s.store else CompareAndDelete(s.store, s.now, s.claims[token].key, token)
    ensures s'.workers == s.workers[w := Idle]
    ensures s'.now == s.now && s'.wire == s.wire && s'.claims == s.claims
  {
    var token := s.workers[w].token;
    SendThenTake(s.wire, Release(token));
    s' := ExtendByThree(s, Finish(w), if fault == RequestLost then Lose(Release(token)) else ServeRelease(token), EndRelease(w));
  }

  // ----- Runs of the client -----

  /** The server is in a state of the protocol. */
  predicate Shows(server: Server, s: State)
    reads server
  {
    server.store == s.store && server.now == s.now
  }

  /** acquire_lock called by an idle worker, whatever fault strikes: the server moves
      by steps of the protocol, and the worker is inside exactly when the call
      returned its token. A lease time that is not positive is refused and sends
      nothing. */
  method AcquireLease(cache: RedisCache, key: string, ttlSeconds: int, token: string, fault: Fault, ghost s: State, ghost w: nat)
    returns (r: Option<string>, ghost steps: seq<Action>, ghost s': State)
    requires Shows(cache.server, s) && Inv(s)
    requires w < |s.workers| && s.workers[w].Idle? && token != "" && token !in s.claims
    modifies cache.server
    ensures Extend(s, steps) == Some(s') && Shows(cache.server, s') && Inv(s')
    ensures s'.workers == s.workers[w := if r == Some(token) then Inside(token, s.now + ttlSeconds) else Idle]
    ensures r == Some(token) ==> InSection(s', w, key) && !Overstays(s', w)
    ensures r == Some(token) <==> ttlSeconds > 0 && fault == Healthy && !Live(s.store, s.now, key)
    ensures s'.store == if ttlSeconds <= 0 || fault == RequestLost then s.store else SetNx(s.store, s.now, key, token, ttlSeconds).0
    ensures r == Some("") ==> s'.store == s.store
  {
    r := cache.AcquireLock(key, ttlSeconds, token, fault);
    if ttlSeconds > 0 {
      steps := AcquireSteps(w, key, ttlSeconds, token, fault);
      s' := AcquireIsProtocol(s, w, key, ttlSeconds, token, fault);
      ExtendKeepsInv(s, steps);
    } else {
      steps, s' := [], s;
    }
  }

  /** release_lock called by a worker at the end of its section, likewise. */
  method ReleaseLease(cache: RedisCache, key: string, token: string, fault: Fault, ghost s: State, ghost w: nat)
    returns (ghost steps: seq<Action>, ghost s': State)
    requires Shows(cache.server, s) && Inv(s)
    requires InSection(s, w, key) && s.workers[w].token == token
    modifies cache.server
    ensures Extend(s, steps) == Some(s') && Shows(cache.server, s') && Inv(s')
    ensures s'.workers == s.workers[w := Idle]
  {
    assert token in s.claims && "" !in s.claims;
    cache.ReleaseLock(key, token, fault);
    steps := ReleaseSteps(w, token, fault);
    s' := ReleaseIsProtocol(s, w, fault);
    ExtendKeepsInv(s, steps);
  }
}
