/** The part of a Redis server the application relies on, and the client wrapper
    of app/core/cache.py.

    An entry whose expiry has been reached is absent for every command, whether
    or not the server has already reclaimed it. */
module Redis {
  import opened Options

  datatype Entry = Entry(value: string, expiry: int)

  type Store = map<string, Entry>

  predicate Live(store: Store, now: int, key: string) {
    key in store && now < store[key].expiry
  }

  /** GET. */
  function Read(store: Store, now: int, key: string): (r: Option<string>)
    ensures r.Some? <==> Live(store, now, key)
  {
    if Live(store, now, key) then Some(store[key].value) else None
  }

  /** SET key token EX ttl NX: the new store and whether the key was set. */
  function SetNx(store: Store, now: int, key: string, token: string, ttl: int): (r: (Store, bool))
    ensures r.1 <==> !Live(store, now, key)
    ensures forall k :: k != key ==> (k in r.0 <==> k in store) && (k in store ==> r.0[k] == store[k])
  {
    if Live(store, now, key) then (store, false)
    else (store[key := Entry(token, now + ttl)], true)
  }

  /** The Lua script of release_lock: delete the key when it still holds the token. */
  function CompareAndDelete(store: Store, now: int, key: string, token: string): (r: Store)
    ensures Read(store, now, key) != Some(token) ==> r == store
    ensures Read(store, now, key) == Some(token) ==> !Live(r, now, key)
    ensures forall k :: k != key ==> (k in r <==> k in store) && (k in store ==> r[k] == store[k])
  {
    if Read(store, now, key) == Some(token) then store - {key} else store
  }

  /** A lease that is released while it is held leaves every key as it was for
      every reader, now and later: SET NX followed by the compare-and-delete
      script under the same token is invisible. */
  lemma AcquireThenReleaseIsInvisible(store: Store, now: int, later: int, key: string, token: string, ttl: int, k: string)
    requires !Live(store, now, key)
    requires now <= later < now + ttl
    ensures Read(CompareAndDelete(SetNx(store, now, key, token, ttl).0, later, key, token), later, k)
         == Read(store, later, k)
  {
  }

  /** What the network does to one request: it is served, it never reaches the
      server, or it is served and the reply is lost. */
  datatype Fault = Healthy | RequestLost | ReplyLost

  /** A SET NX on a free key is seen by every reader until its lease is over, and by
      none from then on; on a taken key it changes nothing. */
  lemma ReadAfterSetNx(store: Store, now: int, key: string, token: string, ttl: int, later: int, k: string)
    requires now <= later
    ensures var after := SetNx(store, now, key, token, ttl).0;
      Read(after, later, k) ==
        if k == key && Read(store, now, key) == None then (if later < now + ttl then Some(token) else None)
        else Read(store, later, k)
  {
  }

  /** The script takes the key away when it shows the token, and nothing else. */
  lemma ReadAfterCompareAndDelete(store: Store, now: int, key: string, token: string, later: int, k: string)
    requires now <= later
    ensures Read(CompareAndDelete(store, now, key, token), later, k) ==
      if k == key && Read(store, now, key) == Some(token) then None else Read(store, later, k)
  {
  }

  /** A server shared by every client, with its clock. */
  class Server {
    var store: Store
    var now: int

    constructor ()
      ensures store == map[] && now == 0
    {
      store := map[];
      now := 0;
    }

    /** Time passes and other clients act: nothing is known of the store afterwards. */
    method Interfere(atLeast: nat)
      modifies this
      ensures now >= old(now) + atLeast
    {
      var elapsed :| elapsed >= 0;
      now := now + atLeast + elapsed;
      store := *;
    }
  }

  /** A call of `Get`: what was asked, when, of which store, what became of the
      request, and what was answered. */
  datatype Poll = Poll(key: string, at: int, store: Store, fault: Fault, answer: Option<string>)

  /** app/core/cache.py, RedisCache. Every exception of the client library is
      swallowed; `fault` says which one strikes. `polls` records the calls of
      `Get`, in order. */
  class RedisCache {
    const server: Server
    var polls: seq<Poll>

    constructor (server: Server)
      ensures this.server == server && polls == []
    {
      this.server := server;
      polls := [];
    }

    method Get(key: string, fault: Fault) returns (r: Option<string>)
      modifies this`polls
      ensures r == if fault == Healthy then Read(server.store, server.now, key) else None
      ensures polls == old(polls) + [Poll(key, server.now, server.store, fault, r)]
    {
      r := if fault == Healthy then Read(server.store, server.now, key) else None;
      polls := polls + [Poll(key, server.now, server.store, fault, r)];
    }

    /** The server refuses an expiry that is not positive; the client library reports
        that like any other failure. */
    method Set(key: string, value: string, ttlSeconds: int, fault: Fault) returns (ok: bool)
      modifies server
      ensures server.now == old(server.now)
      ensures ok <==> ttlSeconds > 0 && fault == Healthy
      ensures ok ==> Read(server.store, server.now, key) == Some(value)
      ensures server.store == if ttlSeconds <= 0 || fault == RequestLost then old(server.store)
                              else old(server.store)[key := Entry(value, server.now + ttlSeconds)]
    {
      if ttlSeconds > 0 && fault != RequestLost {
        server.store := server.store[key := Entry(value, server.now + ttlSeconds)];
      }
      ok := ttlSeconds > 0 && fault == Healthy;
    }

    /** None: the call failed, and the lease may have been taken all the same.
        Some(""): somebody else holds the lease. Some(token): it is ours. */
    method AcquireLock(key: string, ttlSeconds: int, token: string, fault: Fault) returns (r: Option<string>)
      requires token != ""
      modifies server
      ensures server.now == old(server.now)
      ensures r.None? <==> ttlSeconds <= 0 || fault != Healthy
      ensures ttlSeconds > 0 && fault == Healthy ==> r == Some(if Live(old(server.store), server.now, key) then "" else token)
      ensures server.store == if ttlSeconds <= 0 || fault == RequestLost then old(server.store)
                              else SetNx(old(server.store), server.now, key, token, ttlSeconds).0
      ensures r == Some(token) ==> Read(server.store, server.now, key) == Some(token)
    {
      var acquired := false;
      if ttlSeconds > 0 && fault != RequestLost {
        var reply := SetNx(server.store, server.now, key, token, ttlSeconds);
        server.store := reply.0;
        acquired := reply.1;
      }
      if ttlSeconds <= 0 || fault != Healthy {
        return None;
      }
      r := Some(if acquired then token else "");
    }

    method ReleaseLock(key: string, token: string, fault: Fault)
      modifies server
      ensures server.now == old(server.now)
      ensures server.store == if token == "" || fault == RequestLost then old(server.store)
                              else CompareAndDelete(old(server.store), server.now, key, token)
      ensures Read(old(server.store), server.now, key) != Some(token) ==> server.store == old(server.store)
    {
      if token == "" {
        return;
      }
      if fault != RequestLost {
        server.store := CompareAndDelete(server.store, server.now, key, token);
      }
    }

    /** Polls until a value is seen or the deadline has passed, then once more. */
    method WaitFor(key: string, timeout: int, interval: nat) returns (r: Option<string>)
      requires interval > 0
      modifies this`polls, server
      ensures old(polls) <= polls
      ensures Waited(polls[|old(polls)|..], key, old(server.now), timeout, interval, r)
    {
      var deadline := server.now + timeout;
      ghost var start := server.now;
      ghost var made: seq<Poll> := [];
      server.Interfere(0);
      while server.now < deadline
        invariant polls == old(polls) + made
        invariant Quiet(made, key, start, deadline, interval, server.now)
        decreases deadline - server.now
      {
        var fault: Fault := *;
        var value := Get(key, fault);
        ghost var poll := Poll(key, server.now, server.store, fault, value);
        assert polls == old(polls) + (made + [poll]);
        if value.Some? {
          QuietThenLast(made, key, start, timeout, interval, poll);
          return value;
        }
        QuietThenQuiet(made, key, start, deadline, interval, poll);
        made := made + [poll];
        server.Interfere(interval);
      }
      var last: Fault := *;
      r := Get(key, last);
      ghost var final := Poll(key, server.now, server.store, last, r);
      assert polls == old(polls) + (made + [final]);
      QuietThenLast(made, key, start, timeout, interval, final);
    }
  }

  /** A poll asks for the key and is answered its live value, or None when the
      request fails. */
  predicate Truthful(p: Poll, key: string) {
    p.key == key && p.answer == if p.fault == Healthy && key in p.store && p.at < p.store[key].expiry then Some(p.store[key].value) else None
  }

  /** What the polls of one wait look like: each is for the key and truthful; all but
      the last saw nothing, before the deadline; each comes at least an interval
      after the one before it; the last is the answer, and an answer of None was
      read at the deadline or later. So there are no more of them than the time
      allows. */
  ghost predicate Waited(made: seq<Poll>, key: string, start: int, timeout: int, interval: nat, r: Option<string>) {
    && made != [] && r == made[|made| - 1].answer
    && (forall p :: p in made ==> Truthful(p, key))
    && (forall i :: 0 <= i < |made| - 1 ==> made[i].answer.None? && made[i].at < start + timeout && made[i].at + interval <= made[i + 1].at)
    && (r.None? ==> made[|made| - 1].at >= start + timeout)
    && (|made| > 1 ==> (|made| - 2) * interval < timeout)
  }

  /** The polls while nothing was seen, when it is `now`. */
  ghost predicate Quiet(made: seq<Poll>, key: string, start: int, deadline: int, interval: nat, now: int) {
    && start <= now
    && (forall p :: p in made ==> Truthful(p, key))
    && (forall i :: 0 <= i < |made| ==> made[i].answer.None? && start <= made[i].at < deadline)
    && (forall i :: 0 <= i < |made| - 1 ==> made[i].at + interval <= made[i + 1].at)
    && (made != [] ==> made[|made| - 1].at + interval <= now)
  }

  lemma QuietThenQuiet(made: seq<Poll>, key: string, start: int, deadline: int, interval: nat, poll: Poll)
    requires Quiet(made, key, start, deadline, interval, poll.at) && poll.at < deadline && poll.answer.None? && Truthful(poll, key)
    ensures forall now :: now >= poll.at + interval ==> Quiet(made + [poll], key, start, deadline, interval, now)
  {
  }

  lemma QuietThenLast(made: seq<Poll>, key: string, start: int, timeout: int, interval: nat, poll: Poll)
    requires Quiet(made, key, start, start + timeout, interval, poll.at) && Truthful(poll, key)
    requires poll.answer.None? ==> poll.at >= start + timeout
    ensures Waited(made + [poll], key, start, timeout, interval, poll.answer)
  {
    if made != [] {
      PollsAreApart(made, start, interval, |made| - 1);
    }
  }

  lemma {:induction false} PollsAreApart(made: seq<Poll>, start: int, interval: nat, k: nat)
    requires k < |made| && made[0].at >= start
    requires forall i :: 0 <= i < |made| - 1 ==> made[i].at + interval <= made[i + 1].at
    ensures made[k].at >= start + k * interval
    decreases k
  {
    if k > 0 {
      PollsAreApart(made, start, interval, k - 1);
      assert k * interval == (k - 1) * interval + interval;
    }
  }
}
