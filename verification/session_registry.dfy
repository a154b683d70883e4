/**
 The registry of engine sessions with its cache of configuration calls for each client
 (server/session_registry.cc).  The cache is refined to the history of calls: what it holds for a client
 is what the client stored since it last expired.
 */
module SessionRegistries {
  import opened Wrappers

  /** A cached call that configures a session; what it does to the engine is not modelled. */
  type Config = nat

  /** A use of the registry by a client, with the time it happened at. */
  datatype Call =
    | Get(client: string, now: int)
    | Store(client: string, now: int, name: string, config: Config)

  // The history

  /** A client whose last use was at `t` is too old at `now`. */
  predicate TooOld(t: int, now: int, timeout: int) {
    t < now - timeout
  }

  predicate IsForgotten(last: Option<int>, now: int, timeout: int) {
    last.Some? && TooOld(last.value, now, timeout)
  }

  /** The time of the last use, None once the client has been forgotten. */
  function LastUse(h: seq<Call>, client: string, timeout: int): Option<int> {
    if h == [] then None
    else
      var e := h[|h| - 1];
      var last := if e.client == client then Some(e.now) else LastUse(h[..|h| - 1], client, timeout);
      if IsForgotten(last, e.now, timeout) then None else last
  }

  /** What is cached for a client. */
  function Cached(h: seq<Call>, client: string, timeout: int): map<string, Config> {
    if h == [] then map[]
    else
      var e, p := h[|h| - 1], h[..|h| - 1];
      var last := if e.client == client then Some(e.now) else LastUse(p, client, timeout);
      if IsForgotten(last, e.now, timeout) then map[]
      else if e.client == client && e.Store? then Cached(p, client, timeout)[e.name := e.config]
      else Cached(p, client, timeout)
  }

  /** Call `j` is the last one of the client up to call `k`. */
  predicate IsLastCall(h: seq<Call>, client: string, j: nat, k: nat)
    requires j <= k < |h|
  {
    h[j].client == client && forall m :: j < m <= k ==> h[m].client != client
  }

  /** Call `j` is the last one of the client so far. */
  predicate IsLatest(h: seq<Call>, client: string, j: nat)
    requires j < |h|
  {
    IsLastCall(h, client, j, |h| - 1)
  }

  /** At call `k` the client is found too old. */
  ghost predicate ExpiresAt(h: seq<Call>, client: string, timeout: int, k: nat)
    requires k < |h|
  {
    exists j: nat {:trigger IsLastCall(h, client, j, k)} ::
      j <= k && IsLastCall(h, client, j, k) && TooOld(h[j].now, h[k].now, timeout)
  }

  ghost predicate ExpiresBetween(h: seq<Call>, client: string, timeout: int, from: nat, to: nat)
    requires to <= |h|
  {
    exists k :: from <= k < to && ExpiresAt(h, client, timeout, k)
  }

  predicate StoresAt(h: seq<Call>, client: string, name: string, i: nat)
    requires i < |h|
  {
    h[i].Store? && h[i].client == client && h[i].name == name
  }

  /** The client stored `name` at call `i`, and has neither stored it again nor expired since. */
  ghost predicate IsLive(h: seq<Call>, client: string, timeout: int, name: string, i: nat)
    requires i < |h|
  {
    && StoresAt(h, client, name, i)
    && (forall m :: i < m < |h| ==> !StoresAt(h, client, name, m))
    && !ExpiresBetween(h, client, timeout, i, |h|)
  }

  lemma ExpiresAtPrefix(h: seq<Call>, client: string, timeout: int, k: nat)
    requires h != [] && k < |h| - 1
    ensures ExpiresAt(h, client, timeout, k) <==> ExpiresAt(h[..|h| - 1], client, timeout, k)
  {
    var p := h[..|h| - 1];
    forall j | 0 <= j <= k ensures IsLastCall(h, client, j, k) <==> IsLastCall(p, client, j, k) {
      assert forall m :: j <= m <= k ==> h[m] == p[m];
    }
    if ExpiresAt(p, client, timeout, k) {
      var j :| 0 <= j <= k && IsLastCall(p, client, j, k) && TooOld(p[j].now, p[k].now, timeout);
      assert IsLastCall(h, client, j, k);
    }
  }

  /** The remembered last use is the time of the last call, unless the client has expired since. */
  lemma {:induction false} LastUseIsLastCall(h: seq<Call>, client: string, timeout: int)
    ensures LastUse(h, client, timeout).Some? <==>
            exists j :: 0 <= j < |h| && IsLatest(h, client, j) && !ExpiresBetween(h, client, timeout, j, |h|)
    ensures forall j :: 0 <= j < |h| && IsLatest(h, client, j) && LastUse(h, client, timeout).Some? ==>
                          LastUse(h, client, timeout) == Some(h[j].now)
  {
    if h != [] {
      var n := |h| - 1;
      var p, e := h[..n], h[n];
      LastUseIsLastCall(p, client, timeout);
      if e.client == client {
        OwnCall(h, client, timeout);
      } else {
        forall j | 0 <= j < n
          ensures IsLatest(h, client, j) <==> IsLatest(p, client, j)
          ensures IsLatest(h, client, j) ==>
                    (ExpiresBetween(h, client, timeout, j, |h|) <==>
                     ExpiresBetween(p, client, timeout, j, n) || TooOld(h[j].now, e.now, timeout))
        {
          OthersCall(h, client, timeout, j);
        }
      }
    }
  }

  lemma OwnCall(h: seq<Call>, client: string, timeout: int)
    requires h != [] && h[|h| - 1].client == client
    ensures forall j :: 0 <= j < |h| ==> (IsLatest(h, client, j) <==> j == |h| - 1)
    ensures ExpiresBetween(h, client, timeout, |h| - 1, |h|) <==> TooOld(h[|h| - 1].now, h[|h| - 1].now, timeout)
  {
    var n := |h| - 1;
    assert IsLastCall(h, client, n, n);
    if TooOld(h[n].now, h[n].now, timeout) {
      assert ExpiresAt(h, client, timeout, n);
    }
  }

  /** A call of another client: the last call stays the same, and it decides whether the client expires. */
  lemma OthersCall(h: seq<Call>, client: string, timeout: int, j: nat)
    requires h != [] && h[|h| - 1].client != client && j < |h| - 1
    ensures var p := h[..|h| - 1];
            && (IsLatest(h, client, j) <==> IsLatest(p, client, j))
            && (IsLatest(h, client, j) ==>
                 (ExpiresBetween(h, client, timeout, j, |h|) <==>
                  ExpiresBetween(p, client, timeout, j, |p|) || TooOld(h[j].now, h[|h| - 1].now, timeout)))
  {
    var n := |h| - 1;
    var p := h[..n];
    assert forall m :: 0 <= m < n ==> h[m] == p[m];
    if IsLatest(h, client, j) {
      assert ExpiresAt(h, client, timeout, n) <==> TooOld(h[j].now, h[n].now, timeout) by {
        if ExpiresAt(h, client, timeout, n) {
          var i :| 0 <= i <= n && IsLastCall(h, client, i, n) && TooOld(h[i].now, h[n].now, timeout);
          assert i == j;
        }
      }
      ExpiresBetweenStep(h, client, timeout, j);
    }
  }

  lemma ExpiresBetweenStep(h: seq<Call>, client: string, timeout: int, from: nat)
    requires h != [] && from < |h|
    ensures ExpiresBetween(h, client, timeout, from, |h|) <==>
            ExpiresAt(h, client, timeout, |h| - 1) || ExpiresBetween(h[..|h| - 1], client, timeout, from, |h| - 1)
  {
    if ExpiresBetween(h, client, timeout, from, |h|) && !ExpiresAt(h, client, timeout, |h| - 1) {
      ExpiresBefore(h, client, timeout, from);
    }
    if ExpiresBetween(h[..|h| - 1], client, timeout, from, |h| - 1) {
      ExpiresStill(h, client, timeout, from);
    }
  }

  lemma ExpiresBefore(h: seq<Call>, client: string, timeout: int, from: nat)
    requires h != [] && ExpiresBetween(h, client, timeout, from, |h|) && !ExpiresAt(h, client, timeout, |h| - 1)
    ensures ExpiresBetween(h[..|h| - 1], client, timeout, from, |h| - 1)
  {
    var k: nat :| from <= k < |h| && ExpiresAt(h, client, timeout, k);
    ExpiresAtPrefix(h, client, timeout, k);
  }

  lemma ExpiresStill(h: seq<Call>, client: string, timeout: int, from: nat)
    requires h != [] && ExpiresBetween(h[..|h| - 1], client, timeout, from, |h| - 1)
    ensures ExpiresBetween(h, client, timeout, from, |h|)
  {
    var k: nat :| from <= k < |h| - 1 && ExpiresAt(h[..|h| - 1], client, timeout, k);
    ExpiresAtPrefix(h, client, timeout, k);
  }

  /** Everything expires that is found too old, so after an expiry nothing from before is live. */
  lemma ExpiryEmpties(h: seq<Call>, client: string, timeout: int)
    requires h != []
    ensures var e := h[|h| - 1];
            var last := if e.client == client then Some(e.now) else LastUse(h[..|h| - 1], client, timeout);
            IsForgotten(last, e.now, timeout) ==> ExpiresAt(h, client, timeout, |h| - 1)
  {
    var n := |h| - 1;
    var e, p := h[n], h[..n];
    if e.client == client {
      assert IsLastCall(h, client, n, n);
    } else {
      LastUseIsLastCall(p, client, timeout);
      if LastUse(p, client, timeout).Some? {
        var j :| 0 <= j < |p| && IsLatest(p, client, j) && !ExpiresBetween(p, client, timeout, j, |p|);
        assert IsLastCall(h, client, j, n) by {
          assert forall m :: 0 <= m < n ==> h[m] == p[m];
        }
      }
    }
  }

  /** If the client expires at the last call, its cache is empty afterwards. */
  lemma {:induction false} ExpiredIsEmpty(h: seq<Call>, client: string, timeout: int)
    requires h != [] && ExpiresAt(h, client, timeout, |h| - 1)
    ensures Cached(h, client, timeout) == map[]
  {
    var n := |h| - 1;
    var p := h[..n];
    var j :| 0 <= j <= n && IsLastCall(h, client, j, n) && TooOld(h[j].now, h[n].now, timeout);
    if j < n {
      assert forall m :: 0 <= m < n ==> h[m] == p[m];
      assert IsLatest(p, client, j);
      LastUseIsLastCall(p, client, timeout);
      if LastUse(p, client, timeout).None? {
        assert ExpiresBetween(p, client, timeout, j, n);
        ForgottenIsEmpty(p, client, timeout);
      }
    }
  }

  /** A client that is not remembered has nothing cached. */
  lemma {:induction false} ForgottenIsEmpty(h: seq<Call>, client: string, timeout: int)
    requires LastUse(h, client, timeout).None?
    ensures Cached(h, client, timeout) == map[]
  {
    if h != [] {
      var e := h[|h| - 1];
      if e.client != client && LastUse(h[..|h| - 1], client, timeout).None? {
        ForgottenIsEmpty(h[..|h| - 1], client, timeout);
      }
    }
  }

  /** The cache of a client holds exactly what it stored last under each name since it last expired. */
  lemma {:induction false} CachedIsLive(h: seq<Call>, client: string, timeout: int, name: string)
    ensures name in Cached(h, client, timeout) <==> exists i :: 0 <= i < |h| && IsLive(h, client, timeout, name, i)
    ensures forall i :: 0 <= i < |h| && IsLive(h, client, timeout, name, i) && name in Cached(h, client, timeout) ==>
                          Cached(h, client, timeout)[name] == h[i].config
  {
    if h != [] {
      var n := |h| - 1;
      var p, e := h[..n], h[n];
      CachedIsLive(p, client, timeout, name);
      ExpiryEmpties(h, client, timeout);
      if ExpiresAt(h, client, timeout, n) {
        ExpiredIsEmpty(h, client, timeout);
        forall i | 0 <= i < |h| ensures !IsLive(h, client, timeout, name, i) {
          assert ExpiresBetween(h, client, timeout, i, |h|);
        }
      } else if StoresAt(h, client, name, n) {
        assert !ExpiresBetween(h, client, timeout, n, |h|);
        assert IsLive(h, client, timeout, name, n);
      } else {
        forall i | 0 <= i < n ensures IsLive(h, client, timeout, name, i) <==> IsLive(p, client, timeout, name, i) {
          LiveStep(h, client, timeout, name, i);
        }
      }
    }
  }

  lemma LiveStep(h: seq<Call>, client: string, timeout: int, name: string, i: nat)
    requires i < |h| - 1 && !ExpiresAt(h, client, timeout, |h| - 1) && !StoresAt(h, client, name, |h| - 1)
    ensures IsLive(h, client, timeout, name, i) <==> IsLive(h[..|h| - 1], client, timeout, name, i)
  {
    var p := h[..|h| - 1];
    assert forall m :: 0 <= m < |p| ==> (StoresAt(h, client, name, m) <==> StoresAt(p, client, name, m));
    ExpiresBetweenStep(h, client, timeout, i);
  }

  /** The client's next call at or behind `from`, or the end of the history. */
  function NextCall(h: seq<Call>, client: string, from: nat): (n: nat)
    requires from <= |h|
    ensures from <= n <= |h|
    ensures forall m :: from <= m < n ==> h[m].client != client
    ensures n < |h| ==> h[n].client == client
    decreases |h| - from
  {
    if from == |h| || h[from].client == client then from else NextCall(h, client, from + 1)
  }

  /**
   Time does not run backwards, and each call of the client is followed within the timeout by its next
   one or by the end of the history.
   */
  ghost predicate StaysInTouch(h: seq<Call>, client: string, timeout: int) {
    && (forall i, j :: 0 <= i <= j < |h| ==> h[i].now <= h[j].now)
    && (forall j :: 0 <= j < |h| && h[j].client == client ==>
          var n := NextCall(h, client, j + 1);
          h[if n < |h| then n else |h| - 1].now - h[j].now <= timeout)
  }

  lemma InTouchNeverExpires(h: seq<Call>, client: string, timeout: int, k: nat)
    requires StaysInTouch(h, client, timeout) && k < |h|
    ensures !ExpiresAt(h, client, timeout, k)
  {
    forall j | 0 <= j <= k && IsLastCall(h, client, j, k) ensures !TooOld(h[j].now, h[k].now, timeout) {
      var n := NextCall(h, client, j + 1);
      assert n > k;
      assert h[k].now <= h[if n < |h| then n else |h| - 1].now;
    }
  }

  /** The client has not stored anything since call `k`. */
  predicate StoresNothingAfter(h: seq<Call>, client: string, k: nat) {
    forall m :: k < m < |h| ==> !(h[m].Store? && h[m].client == client)
  }

  /**
   A client whose last call was longer ago than the timeout, at some call `k` of anyone, is forgotten then: nothing
   that it stored before is left, until it stores again.
   */
  lemma LateIsForgotten(h: seq<Call>, client: string, timeout: int, j: nat, k: nat)
    requires j <= k < |h| && IsLastCall(h, client, j, k) && h[k].now - h[j].now > timeout
    ensures LastUse(h[..k + 1], client, timeout) == None
    ensures Cached(h[..k + 1], client, timeout) == map[]
    ensures StoresNothingAfter(h, client, k) ==> Cached(h, client, timeout) == map[]
  {
    var p := h[..k + 1];
    assert forall m :: 0 <= m <= k ==> p[m] == h[m];
    assert IsLastCall(p, client, j, k);
    assert ExpiresAt(p, client, timeout, |p| - 1);
    LateHasNoUse(p, client, timeout, j);
    ExpiredIsEmpty(p, client, timeout);
    if StoresNothingAfter(h, client, k) {
      EmptyStaysEmpty(h, client, timeout, k + 1);
    }
  }

  lemma LateHasNoUse(h: seq<Call>, client: string, timeout: int, j: nat)
    requires j < |h| && IsLatest(h, client, j) && h[|h| - 1].now - h[j].now > timeout
    ensures LastUse(h, client, timeout) == None
  {
    LastUseIsLastCall(h, client, timeout);
    if LastUse(h, client, timeout).Some? {
      var i :| 0 <= i < |h| && IsLatest(h, client, i) && !ExpiresBetween(h, client, timeout, i, |h|);
      assert i == j && IsLastCall(h, client, j, |h| - 1);
      LateExpires(h, client, timeout, j);
    }
  }

  lemma LateExpires(h: seq<Call>, client: string, timeout: int, j: nat)
    requires j < |h| && IsLatest(h, client, j) && h[|h| - 1].now - h[j].now > timeout
    ensures ExpiresBetween(h, client, timeout, j, |h|)
  {
    assert IsLastCall(h, client, j, |h| - 1);
    assert ExpiresAt(h, client, timeout, |h| - 1);
  }

  lemma {:induction false} EmptyStaysEmpty(h: seq<Call>, client: string, timeout: int, n: nat)
    requires n <= |h| && Cached(h[..n], client, timeout) == map[]
    requires forall m :: n <= m < |h| ==> !(h[m].Store? && h[m].client == client)
    ensures Cached(h, client, timeout) == map[]
  {
    if n == |h| {
      assert h[..n] == h;
    } else {
      assert h[..|h| - 1][..n] == h[..n];
      EmptyStaysEmpty(h[..|h| - 1], client, timeout, n);
    }
  }

  /**
   So the two sides meet: while time does not run backwards, a client is forgotten at call `k` exactly if more than
   the timeout has passed since its last call.
   */
  lemma ForgottenIff(h: seq<Call>, client: string, timeout: int, j: nat, k: nat)
    requires timeout >= 0 && j <= k < |h| && IsLastCall(h, client, j, k)
    requires forall i, m :: 0 <= i <= m < |h| ==> h[i].now <= h[m].now
    ensures LastUse(h[..k + 1], client, timeout) == None <==> h[k].now - h[j].now > timeout
    ensures h[k].now - h[j].now <= timeout ==> LastUse(h[..k + 1], client, timeout) == Some(h[j].now)
  {
    var p := h[..k + 1];
    assert forall m :: 0 <= m <= k ==> p[m] == h[m];
    assert IsLatest(p, client, j);
    if h[k].now - h[j].now > timeout {
      LateHasNoUse(p, client, timeout, j);
    } else {
      LastUseIsLastCall(p, client, timeout);
      forall m | j <= m <= k ensures !ExpiresAt(p, client, timeout, m) {
        forall i | 0 <= i <= m && IsLastCall(p, client, i, m) ensures !TooOld(p[i].now, p[m].now, timeout) {
          assert i == j;
          assert h[m].now <= h[k].now;
        }
      }
      assert !ExpiresBetween(p, client, timeout, j, |p|);
    }
  }

  /** Such a client never loses a setting: its cache holds the last store under every name it ever used. */
  lemma InTouchKeepsAll(h: seq<Call>, client: string, timeout: int, i: nat)
    requires StaysInTouch(h, client, timeout) && i < |h| && h[i].Store? && h[i].client == client
    requires forall m :: i < m < |h| ==> !StoresAt(h, client, h[i].name, m)
    ensures h[i].name in Cached(h, client, timeout) && Cached(h, client, timeout)[h[i].name] == h[i].config
  {
    forall k | 0 <= k < |h| ensures !ExpiresAt(h, client, timeout, k) {
      InTouchNeverExpires(h, client, timeout, k);
    }
    CachedIsLive(h, client, timeout, h[i].name);
    assert IsLive(h, client, timeout, h[i].name, i);
  }

  /** What one more call changes. */
  lemma AfterCall(h: seq<Call>, e: Call, client: string, timeout: int)
    ensures var last := if e.client == client then Some(e.now) else LastUse(h, client, timeout);
            var gone := IsForgotten(last, e.now, timeout);
            && LastUse(h + [e], client, timeout) == (if gone then None else last)
            && Cached(h + [e], client, timeout) ==
               if gone then map[]
               else if e.client == client && e.Store? then Cached(h, client, timeout)[e.name := e.config]
               else Cached(h, client, timeout)
  {
    assert (h + [e])[..|h + [e]| - 1] == h && (h + [e])[|h|] == e;
  }

  // The program

  /** The two maps say of a client what the history says. */
  predicate Agrees(h: seq<Call>, c: string, lastUse: map<string, int>, cache: map<string, map<string, Config>>, timeout: int) {
    && LastUse(h, c, timeout) == (if c in lastUse then Some(lastUse[c]) else None)
    && Cached(h, c, timeout) == (if c in cache then cache[c] else map[])
  }

  /** The maps without the clients that are too old. */
  ghost predicate Purged(before: map<string, int>, cached: map<string, map<string, Config>>,
                         lastUse: map<string, int>, cache: map<string, map<string, Config>>, now: int, timeout: int)
  {
    && (forall c :: c in lastUse <==> c in before && !TooOld(before[c], now, timeout))
    && (forall c :: c in lastUse ==> lastUse[c] == before[c])
    && (forall c :: c in cache <==> c in cached && !(c in before && TooOld(before[c], now, timeout)))
    && (forall c :: c in cache ==> cache[c] == cached[c])
  }

  /** A call keeps the agreement: the client's use is noted, a setting stored, and what is too old purged. */
  lemma CallKeepsAgreement(h: seq<Call>, e: Call, lastUse: map<string, int>, cache: map<string, map<string, Config>>,
                           lastUse': map<string, int>, cache': map<string, map<string, Config>>, timeout: int, c: string)
    requires Agrees(h, c, lastUse, cache, timeout)
    requires var cached := if e.Store? then cache[e.client := (if e.client in cache then cache[e.client] else map[])[e.name := e.config]]
                           else cache;
             Purged(lastUse[e.client := e.now], cached, lastUse', cache', e.now, timeout)
    ensures Agrees(h + [e], c, lastUse', cache', timeout)
  {
    AfterCall(h, e, c, timeout);
  }

  class SessionRegistry {
    /** The session of each thread (`m`), and what has been applied to each session. */
    var sessions: map<nat, nat>
    var applied: map<nat, map<string, Config>>

    var cache: map<string, map<string, Config>>
    var lastUse: map<string, int>
    const clientTimeout: int
    ghost var history: seq<Call>

    ghost predicate Valid()
      reads this
    {
      && (forall c :: Agrees(history, c, lastUse, cache, clientTimeout))
      && (clientTimeout >= 0 ==> cache.Keys <= lastUse.Keys)
    }

    constructor (timeout: int)
      ensures Valid() && history == [] && sessions == map[] && clientTimeout == timeout
    {
      sessions, applied, cache, lastUse, clientTimeout, history := map[], map[], map[], map[], timeout, [];
    }

    /** `update_last_use`: notes the use, then forgets every client that is too old. */
    method UpdateLastUse(client: string, now: int)
      modifies `cache, `lastUse
      ensures Purged(old(lastUse)[client := now], old(cache), lastUse, cache, now, clientTimeout)
    {
      lastUse := lastUse[client := now];
      ghost var before := lastUse;
      var todo := lastUse.Keys;
      while todo != {}
        invariant todo <= before.Keys
        invariant forall c :: c in lastUse <==> c in before && (c in todo || !TooOld(before[c], now, clientTimeout))
        invariant forall c :: c in lastUse ==> lastUse[c] == before[c]
        invariant forall c :: c in cache <==> c in old(cache) && !(c in before && c !in todo && TooOld(before[c], now, clientTimeout))
        invariant forall c :: c in cache ==> cache[c] == old(cache)[c]
        decreases todo
      {
        var c :| c in todo;
        if TooOld(lastUse[c], now, clientTimeout) {
          cache := cache - {c};
          lastUse := lastUse - {c};
        }
        todo := todo - {c};
      }
    }

    /** `add_to_cache`. */
    method AddToCache(client: string, name: string, config: Config, now: int)
      requires Valid()
      modifies this
      ensures Valid() && history == old(history) + [Store(client, now, name, config)]
      ensures sessions == old(sessions) && applied == old(applied)
    {
      ghost var e := Store(client, now, name, config);
      cache := cache[client := (if client in cache then cache[client] else map[])[name := config]];
      UpdateLastUse(client, now);
      history := history + [e];
      forall c ensures Agrees(history, c, lastUse, cache, clientTimeout) {
        assert Agrees(old(history), c, old(lastUse), old(cache), clientTimeout);
        CallKeepsAgreement(old(history), e, old(lastUse), old(cache), lastUse, cache, clientTimeout, c);
      }
    }

    /**
     `get`: the thread's session.  A new one (`init` succeeds with a session that was not in use) gets the
     cached configuration of the client applied.
     */
    method Get(tid: nat, client: string, now: int, init: Option<nat>) returns (r: Option<nat>)
      requires Valid()
      requires init.Some? ==> init.value !in applied
      modifies this
      ensures Valid() && history == old(history) + [Call.Get(client, now)]
      ensures tid in old(sessions) ==> r == Some(old(sessions)[tid]) && sessions == old(sessions) && applied == old(applied)
      ensures tid !in old(sessions) && init.None? ==> r == None && sessions == old(sessions) && applied == old(applied)
      ensures tid !in old(sessions) && init.Some? ==>
                && r == init && sessions == old(sessions)[tid := init.value]
                && applied == old(applied)[init.value := Cached(history, client, clientTimeout)]
    {
      Use(client, now);
      if tid in sessions {
        return Some(sessions[tid]);
      }
      if init.None? {
        return None;
      }
      var session := init.value;
      sessions := sessions[tid := session];
      assert Agrees(history, client, lastUse, cache, clientTimeout);
      if client !in cache {
        ghost var before := cache;
        cache := cache[client := map[]];
        forall c ensures Agrees(history, c, lastUse, cache, clientTimeout) {
          assert Agrees(history, c, lastUse, before, clientTimeout);
        }
      }
      ApplyAll(session, cache[client]);
      return Some(session);
    }

    /** The use of the registry that every `get` begins with. */
    method Use(client: string, now: int)
      requires Valid()
      modifies `cache, `lastUse, `history
      ensures Valid() && history == old(history) + [Call.Get(client, now)]
      ensures clientTimeout >= 0 ==> client in lastUse
    {
      UpdateLastUse(client, now);
      history := history + [Call.Get(client, now)];
      forall c ensures Agrees(history, c, lastUse, cache, clientTimeout) {
        assert Agrees(old(history), c, old(lastUse), old(cache), clientTimeout);
        CallKeepsAgreement(old(history), Call.Get(client, now), old(lastUse), old(cache), lastUse, cache, clientTimeout, c);
      }
    }

    /** The loop that applies each cached call to the new session. */
    method ApplyAll(session: nat, configs: map<string, Config>)
      modifies `applied
      ensures applied == old(applied)[session := configs]
    {
      applied := applied[session := map[]];
      var todo := configs.Keys;
      assert configs - todo == map[];
      while todo != {}
        invariant todo <= configs.Keys
        invariant applied == old(applied)[session := configs - todo]
        decreases todo
      {
        var name :| name in todo;
        applied := applied[session := applied[session][name := configs[name]]];
        assert (configs - todo)[name := configs[name]] == configs - (todo - {name});
        todo := todo - {name};
      }
      assert configs - todo == configs;
    }

    /** `remove`: releases the session of a thread that has one; a thread without one changes nothing. */
    method Remove(tid: nat)
      requires Valid()
      modifies `sessions, `applied
      ensures Valid() && sessions == old(sessions) - {tid}
      ensures applied == old(applied) - if tid in old(sessions) then {old(sessions)[tid]} else {}
    {
      if tid in sessions {
        applied := applied - {sessions[tid]};
        sessions := sessions - {tid};
      } else {
        assert applied == applied - {} && sessions == sessions - {tid};
      }
    }
  }

  /** The history in which client A stores a setting at time 0, and B and then A call at time `b`. */
  function SampleHistory(b: int): seq<Call> {
    [Store("A", 0, "x", 5), Call.Get("B", b), Call.Get("A", b)]
  }

  lemma SampleCache(b: int)
    requires b >= 0
    ensures Cached(SampleHistory(b), "A", 600) == if b > 600 then map[] else map["x" := 5]
  {
    var h := SampleHistory(b);
    AfterCall([], h[0], "A", 600);
    AfterCall([h[0]], h[1], "A", 600);
    AfterCall([h[0], h[1]], h[2], "A", 600);
    assert [] + [h[0]] == [h[0]] && [h[0]] + [h[1]] == [h[0], h[1]] && [h[0], h[1]] + [h[2]] == h;
    assert Cached([h[0]], "A", 600) == map["x" := 5] && LastUse([h[0]], "A", 600) == Some(0);
  }

  /**
   With a timeout of ten minutes, a client that comes back later than that finds its setting gone, if another client
   has called before it; one that comes back in time finds it.
   */
  method SampleExpiry(registry: SessionRegistry, b: int)
    requires registry.Valid() && registry.history == [] && registry.clientTimeout == 600 && b >= 0
    requires registry.sessions == map[] && registry.applied == map[]
    modifies registry
    ensures 7 in registry.applied && registry.applied[7] == if b > 600 then map[] else map["x" := 5]
  {
    registry.AddToCache("A", "x", 5, 0);
    var first := registry.Get(1, "B", b, Some(6));
    var second := registry.Get(2, "A", b, Some(7));
    assert registry.history == SampleHistory(b);
    SampleCache(b);
  }
}
