/**
 * `Pool`: a bounded set of connections. Idle connections are kept in insertion order
 * and handed out last-in first-out; busy ones in the order they were attached; callers that find the pool
 * at capacity wait in a first-in first-out queue. Promises and event-loop timers are
 * explicit: a waiter or a shutdown is a number, settling it is a log entry, and each
 * timer firing is a method the caller invokes.
 */
module Pools {
  import opened Wrappers
  import opened Errors
  import opened Connections

  /** What `getConnection` yields: a connection at once, a queued waiter, or a factory call in flight. */
  datatype Acquire = Ready(connection: Connection) | Queued(waiter: nat) | Creating

  /** Which branch of `release` ran. */
  datatype ReleaseEffect =
    | Ignored
    | ClosedForShutdown(shutdownSettled: bool)
    | Evicted
    | Parked
    | HandedTo(waiter: nat)

  /** What `waitAndClose` returns: a promise already resolved, or the pending shutdown. */
  datatype ShutdownSignal = SettledNow | PendingShutdown(shutdown: nat)

  datatype CheckOutcome = Checked | CheckThrew(exception: Exception)

  function Ids(cs: seq<Connection>): seq<int> {
    seq(|cs|, i requires 0 <= i < |cs| => cs[i].id)
  }

  /** The ids of a prefix grow by one id per element. */
  lemma IdsPrefix(cs: seq<Connection>, i: nat)
    requires i < |cs|
    ensures Ids(cs[..i + 1]) == Ids(cs[..i]) + [cs[i].id]
  {
    var a, b := Ids(cs[..i + 1]), Ids(cs[..i]) + [cs[i].id];
    assert |a| == |b|;
    assert forall k | 0 <= k < |a| :: a[k] == b[k];
  }

  predicate DistinctIds(cs: seq<Connection>) {
    forall i, j :: 0 <= i < j < |cs| ==> cs[i].id != cs[j].id
  }

  /** `unset($this->availableConnections[$id])`. */
  function RemoveId(cs: seq<Connection>, id: int): (r: seq<Connection>)
    ensures |r| <= |cs|
  {
    if cs == [] then [] else (if cs[0].id == id then [] else [cs[0]]) + RemoveId(cs[1..], id)
  }

  lemma {:induction false} RemoveIdAbsent(cs: seq<Connection>, id: int)
    requires forall i :: 0 <= i < |cs| ==> cs[i].id != id
    ensures RemoveId(cs, id) == cs
  {
    if cs != [] {
      RemoveIdAbsent(cs[1..], id);
    }
  }

  lemma {:induction false} RemoveIdAppend(a: seq<Connection>, b: seq<Connection>, id: int)
    ensures RemoveId(a + b, id) == RemoveId(a, id) + RemoveId(b, id)
  {
    if a == [] {
      assert a + b == b;
    } else {
      assert (a + b)[1..] == a[1..] + b;
      RemoveIdAppend(a[1..], b, id);
    }
  }

  /** After removal no element carries the id. */
  lemma {:induction false} RemoveIdGone(cs: seq<Connection>, id: int)
    ensures forall i :: 0 <= i < |RemoveId(cs, id)| ==> RemoveId(cs, id)[i].id != id
    ensures |RemoveId(cs, id)| <= |cs|
  {
    if cs != [] {
      RemoveIdGone(cs[1..], id);
    }
  }

  /** With distinct ids, removing the id of the element at `k` removes exactly that element. */
  lemma {:induction false} RemoveIdAt(cs: seq<Connection>, k: nat)
    requires DistinctIds(cs) && k < |cs|
    ensures RemoveId(cs, cs[k].id) == cs[..k] + cs[k + 1..]
    ensures DistinctIds(cs[..k] + cs[k + 1..])
  {
    var t := cs[1..];
    if k == 0 {
      assert forall i | 0 <= i < |t| :: t[i] == cs[i + 1];
      RemoveIdAbsent(t, cs[0].id);
      assert cs[..0] + cs[1..] == t;
    } else {
      assert forall i | 0 <= i < |t| :: t[i] == cs[i + 1];
      RemoveIdAt(t, k - 1);
      assert cs[0].id != cs[k].id;
      assert [cs[0]] + (t[..k - 1] + t[k..]) == cs[..k] + cs[k + 1..];
    }
    DistinctIdsWithout(cs, k);
  }

  lemma DistinctIdsWithout(cs: seq<Connection>, k: nat)
    requires DistinctIds(cs) && k < |cs|
    ensures DistinctIds(cs[..k] + cs[k + 1..])
  {
    var r := cs[..k] + cs[k + 1..];
    forall i, j | 0 <= i < j < |r| ensures r[i].id != r[j].id {
      assert r[i] == cs[if i < k then i else i + 1];
      assert r[j] == cs[if j < k then j else j + 1];
    }
  }

  /** No connection of `a` shares its id with one of `b`. */
  predicate Disjoint(a: seq<Connection>, b: seq<Connection>) {
    forall i, j :: 0 <= i < |a| && 0 <= j < |b| ==> a[i].id != b[j].id
  }

  /** Removing an idle connection by id keeps both lists free of shared and repeated ids. */
  lemma RemoveFirstList(a: seq<Connection>, b: seq<Connection>, k: nat)
    requires DistinctIds(a) && DistinctIds(b) && Disjoint(a, b) && k < |a|
    ensures RemoveId(a, a[k].id) == a[..k] + a[k + 1..]
    ensures DistinctIds(a[..k] + a[k + 1..]) && Disjoint(a[..k] + a[k + 1..], b)
    ensures a[k] !in b
  {
    RemoveIdAt(a, k);
    var r := a[..k] + a[k + 1..];
    forall i, j | 0 <= i < |r| && 0 <= j < |b| ensures r[i].id != b[j].id {
      assert r[i] == a[if i < k then i else i + 1];
    }
    forall j | 0 <= j < |b| ensures b[j] != a[k] {
      assert a[k].id != b[j].id;
    }
  }

  /** Removing a busy connection by id leaves the idle list as it is and keeps the ids apart. */
  lemma RemoveSecondList(a: seq<Connection>, b: seq<Connection>, k: nat)
    requires DistinctIds(a) && DistinctIds(b) && Disjoint(a, b) && k < |b|
    ensures RemoveId(a, b[k].id) == a
    ensures RemoveId(b, b[k].id) == b[..k] + b[k + 1..]
    ensures DistinctIds(b[..k] + b[k + 1..]) && Disjoint(a, b[..k] + b[k + 1..])
  {
    RemoveIdAt(b, k);
    assert forall i | 0 <= i < |a| :: a[i].id != b[k].id;
    RemoveIdAbsent(a, b[k].id);
    var r := b[..k] + b[k + 1..];
    forall i, j | 0 <= i < |a| && 0 <= j < |r| ensures a[i].id != r[j].id {
      assert r[j] == b[if j < k then j else j + 1];
    }
  }

  /** Removing a connection the pool holds, by id, takes exactly one connection out and keeps the ids apart. */
  lemma RemovalKeepsIds(a: seq<Connection>, b: seq<Connection>, c: Connection)
    requires DistinctIds(a) && DistinctIds(b) && Disjoint(a, b) && (c in a || c in b)
    ensures var a', b' := RemoveId(a, c.id), if c in b then RemoveId(b, c.id) else b;
      DistinctIds(a') && DistinctIds(b') && Disjoint(a', b') && |a'| + |b'| == |a| + |b| - 1
  {
    if c in a {
      var k :| 0 <= k < |a| && a[k] == c;
      RemoveFirstList(a, b, k);
    } else {
      var k :| 0 <= k < |b| && b[k] == c;
      RemoveSecondList(a, b, k);
    }
  }

  /** The connections of `cs` last used before `limit`, in order. */
  function Stale(cs: seq<Connection>, limit: int): seq<Connection>
    reads cs
  {
    if cs == [] then []
    else Stale(cs[..|cs| - 1], limit)
         + (if cs[|cs| - 1].lastUseTimestamp < limit then [cs[|cs| - 1]] else [])
  }

  /** The connections of `cs` last used at or after `limit`, in order. */
  function Recent(cs: seq<Connection>, limit: int): seq<Connection>
    reads cs
  {
    if cs == [] then []
    else Recent(cs[..|cs| - 1], limit)
         + (if cs[|cs| - 1].lastUseTimestamp < limit then [] else [cs[|cs| - 1]])
  }

  /** The reaping split: every connection is in exactly one part, by its last use. */
  lemma {:induction false} StaleRecentSplit(cs: seq<Connection>, limit: int)
    ensures |Stale(cs, limit)| + |Recent(cs, limit)| == |cs|
    ensures forall c :: c in Stale(cs, limit) <==> c in cs && c.lastUseTimestamp < limit
    ensures forall c :: c in Recent(cs, limit) <==> c in cs && c.lastUseTimestamp >= limit
  {
    if cs != [] {
      var init := cs[..|cs| - 1];
      StaleRecentSplit(init, limit);
      assert cs == init + [cs[|cs| - 1]];
      forall c ensures c in cs <==> c in init || c == cs[|cs| - 1] {
        assert c in init ==> c in cs;
      }
    }
  }

  /** The timeout after `setIdleConnectionTimeout(t)`: overrides below 10 are ignored, and one never raises it. */
  function AfterOverride(w: Option<int>, t: int): (r: Option<int>)
    ensures t < 10 ==> r == w
    ensures w.Some? ==> r.Some? && r.value <= w.value
    ensures t >= 10 ==> r.Some? && r.value <= t
  {
    if t < 10 then w
    else if w.None? then Some(t)
    else if t < w.value then Some(t)
    else w
  }

  /** The timeout once the server's `wait_timeout` is known: the smaller of the two. */
  function AfterServer(w: Option<int>, v: int): (r: Option<int>)
    ensures r.Some? && r.value <= v
    ensures w.Some? ==> r.value <= w.value && (r.value == v || r.value == w.value)
    ensures w.None? ==> r == Some(v)
  {
    if w.None? then Some(v) else Some(if w.value < v then w.value else v)
  }

  function ApplyOverrides(w: Option<int>, ts: seq<int>): Option<int>
    decreases |ts|
  {
    if ts == [] then w else ApplyOverrides(AfterOverride(w, ts[0]), ts[1..])
  }

  /**
   * The server's value may arrive before or after any overrides: either way the timeout
   * is the minimum of the server value and the accepted overrides.
   */
  lemma {:induction false} ServerValueCommutes(ts: seq<int>, v: int, w: Option<int>)
    decreases |ts|
    ensures AfterServer(ApplyOverrides(w, ts), v) == ApplyOverrides(AfterServer(w, v), ts)
  {
    if ts != [] {
      ServerValueCommutes(ts[1..], v, AfterOverride(w, ts[0]));
      assert AfterServer(AfterOverride(w, ts[0]), v) == AfterOverride(AfterServer(w, v), ts[0]);
    }
  }

  /** A run of overrides ends at the minimum of the start value and the overrides of at least 10. */
  lemma {:induction false} ApplyOverridesMinimum(w: Option<int>, ts: seq<int>)
    decreases |ts|
    ensures var r := ApplyOverrides(w, ts);
      && (w.Some? ==> r.Some? && r.value <= w.value)
      && (forall i :: 0 <= i < |ts| && ts[i] >= 10 ==> r.Some? && r.value <= ts[i])
      && (r.Some? ==> (w.Some? && r.value == w.value) || exists i :: 0 <= i < |ts| && ts[i] >= 10 && r.value == ts[i])
      && (r.None? ==> w.None? && forall i :: 0 <= i < |ts| ==> ts[i] < 10)
  {
    if ts != [] {
      var w' := AfterOverride(w, ts[0]);
      ApplyOverridesMinimum(w', ts[1..]);
      var r := ApplyOverrides(w, ts);
      assert r == ApplyOverrides(w', ts[1..]);
      forall i | 0 <= i < |ts| && ts[i] >= 10 ensures r.Some? && r.value <= ts[i] {
        if i > 0 {
          assert ts[1..][i - 1] == ts[i];
        }
      }
      if r.Some? && !(w.Some? && r.value == w.value) {
        if w'.Some? && r.value == w'.value {
          assert ts[0] >= 10 && r.value == ts[0];
        } else {
          var j :| 0 <= j < |ts[1..]| && ts[1..][j] >= 10 && r.value == ts[1..][j];
          assert ts[j + 1] == ts[1..][j];
        }
      }
      if r.None? {
        forall i | 0 <= i < |ts| ensures ts[i] < 10 {
          if i > 0 {
            assert ts[1..][i - 1] == ts[i];
          }
        }
      }
    }
  }


  class Pool {
    const maxConnections: int
    /** `availableConnections`: idle connections keyed by id, in insertion order; `array_pop` takes the last. */
    var available: seq<Connection>
    /** `usedConnections`: busy connections, in attach order. Each handle is identified with its connection. */
    var used: seq<Connection>
    var connectionCount: int
    /** `queuedConnectionRequests`: the pending waiters, oldest first. */
    var waiters: seq<nat>
    var nextWaiter: nat
    /** Each resolved waiter with the connection it received, in order. */
    var handouts: seq<(nat, Connection)>
    /** `closeDeferred`: the pending shutdown. */
    var closeDeferred: Option<nat>
    var nextShutdown: nat
    /** Each pending shutdown resolved, in order. */
    var settledShutdowns: seq<nat>
    /** `connectionTimer`: the polling timer, by number. */
    var connectionTimer: Option<nat>
    var nextTimer: nat
    var waitTimeout: Option<int>
    /** Whether the periodic reaping timer runs (it starts once the server's value is known). */
    var reapTimerStarted: bool
    /** Shutdown timers armed by `waitAndClose` that have not fired yet. */
    var shutdownTimers: nat
    /** The ids of the handles closed with `mysqli_close`, in order. */
    var closed: seq<int>
    /** Factory calls in flight: counted in `connectionCount`, not yet connections. */
    ghost var creating: nat

    /**
     * Ids are unique across idle and busy connections; the count is the idle, the busy
     * and the ones being created, and never exceeds the capacity.
     */
    ghost predicate Valid()
      reads this
    {
      DistinctIds(available) && DistinctIds(used)
      && Disjoint(available, used)
      && connectionCount == |available| + |used| + creating
      && connectionCount <= (if maxConnections > 0 then maxConnections else 0)
      && (forall i :: 0 <= i < |waiters| ==> waiters[i] < nextWaiter)
      && (forall i, j :: 0 <= i < j < |waiters| ==> waiters[i] != waiters[j])
      && (closeDeferred.Some? ==> closeDeferred.value < nextShutdown)
      && (reapTimerStarted ==> waitTimeout.Some?)
    }

    /** The guard of `release`: no idle connection has its id, and it is busy. */
    predicate Releasable(c: Connection)
      reads this
    {
      c.id !in Ids(available) && c in used
    }

    twostate predicate QueueUnchanged()
      reads this
    {
      waiters == old(waiters) && nextWaiter == old(nextWaiter) && handouts == old(handouts)
    }

    twostate predicate ShutdownUnchanged()
      reads this
    {
      closeDeferred == old(closeDeferred) && nextShutdown == old(nextShutdown)
      && settledShutdowns == old(settledShutdowns) && shutdownTimers == old(shutdownTimers)
    }

    twostate predicate TimersUnchanged()
      reads this
    {
      connectionTimer == old(connectionTimer) && nextTimer == old(nextTimer)
      && waitTimeout == old(waitTimeout) && reapTimerStarted == old(reapTimerStarted)
    }

    /** The effect of `updateTimer`: a polling timer exists iff some connection is busy, and an existing one is kept. */
    twostate predicate TimerFollowsUsed()
      reads this
    {
      (|used| > 0 ==> connectionTimer == (if old(connectionTimer).Some? then old(connectionTimer) else Some(old(nextTimer))))
      && (|used| == 0 ==> connectionTimer == None)
      && nextTimer == (if old(connectionTimer).None? && |used| > 0 then old(nextTimer) + 1 else old(nextTimer))
      && waitTimeout == old(waitTimeout) && reapTimerStarted == old(reapTimerStarted)
    }

    constructor(maxConnections: int)
      ensures Valid()
      ensures this.maxConnections == maxConnections
      ensures available == [] && used == [] && connectionCount == 0 && waiters == []
      ensures closeDeferred == None && connectionTimer == None && waitTimeout == None
      ensures !reapTimerStarted && shutdownTimers == 0 && closed == []
      ensures handouts == [] && settledShutdowns == []
    {
      this.maxConnections := maxConnections;
      available := [];
      used := [];
      connectionCount := 0;
      waiters := [];
      nextWaiter := 0;
      handouts := [];
      closeDeferred := None;
      nextShutdown := 0;
      settledShutdowns := [];
      connectionTimer := None;
      nextTimer := 0;
      waitTimeout := None;
      reapTimerStarted := false;
      shutdownTimers := 0;
      closed := [];
      creating := 0;
    }

    /** `updateTimer`. */
    method UpdateTimer()
      modifies this
      ensures TimerFollowsUsed()
      ensures available == old(available) && used == old(used) && connectionCount == old(connectionCount)
      ensures closed == old(closed) && creating == old(creating)
      ensures QueueUnchanged() && ShutdownUnchanged()
    {
      if |used| > 0 {
        if connectionTimer.None? {
          connectionTimer := Some(nextTimer);
          nextTimer := nextTimer + 1;
        }
      } else if connectionTimer.Some? {
        connectionTimer := None;
      }
    }

    /**
     * `closeAndRemoveConnection`: closes the handle, drops the connection from the idle
     * list (by id) and from the busy list (if its handle is there), and decrements the
     * count by one whether or not the pool held it. It does not update the polling timer.
     */
    method CloseAndRemoveConnection(c: Connection)
      modifies this
      ensures old(Valid()) && (c in old(available) || c in old(used)) ==> Valid()
      ensures available == RemoveId(old(available), c.id)
      ensures used == (if c in old(used) then RemoveId(old(used), c.id) else old(used))
      ensures connectionCount == old(connectionCount) - 1
      ensures closed == old(closed) + [c.id] && creating == old(creating)
      ensures QueueUnchanged() && ShutdownUnchanged() && TimersUnchanged()
    {
      if c in used {
        ghost var k :| 0 <= k < |used| && used[k] == c;
        if Valid() {
          RemoveSecondList(available, used, k);
        }
        used := RemoveId(used, c.id);
      } else if c in available && Valid() {
        ghost var k :| 0 <= k < |available| && available[k] == c;
        RemoveFirstList(available, used, k);
      }
      available := RemoveId(available, c.id);
      connectionCount := connectionCount - 1;
      closed := closed + [c.id];
    }

    /** Closes every idle connection, in order (the foreach over `availableConnections`). */
    method CloseAvailable()
      requires Valid()
      modifies this
      ensures Valid()
      ensures available == [] && used == old(used)
      ensures closed == old(closed) + Ids(old(available))
      ensures connectionCount == old(connectionCount) - |old(available)| && creating == old(creating)
      ensures QueueUnchanged() && ShutdownUnchanged() && TimersUnchanged()
    {
      ghost var all := available;
      var i := 0;
      while |available| > 0
        invariant Valid()
        invariant 0 <= i <= |all| && available == all[i..]
        invariant used == old(used) && creating == old(creating)
        invariant closed == old(closed) + Ids(all[..i])
        invariant connectionCount == old(connectionCount) - i
        invariant QueueUnchanged() && ShutdownUnchanged() && TimersUnchanged()
        decreases |available|
      {
        CloseFirstAvailable(all, i, old(closed), old(connectionCount));
        i := i + 1;
      }
      assert all[..i] == all;
    }

    /** One iteration of `CloseAvailable`: the first idle connection, `all[i]`, is closed. */
    method CloseFirstAvailable(ghost all: seq<Connection>, i: nat, ghost closed0: seq<int>, ghost count0: int)
      requires Valid() && i < |all| && available == all[i..]
      requires closed == closed0 + Ids(all[..i]) && connectionCount == count0 - i
      modifies this
      ensures Valid() && available == all[i + 1..]
      ensures closed == closed0 + Ids(all[..i + 1]) && connectionCount == count0 - (i + 1)
      ensures used == old(used) && creating == old(creating)
      ensures QueueUnchanged() && ShutdownUnchanged() && TimersUnchanged()
    {
      var c := available[0];
      assert c == all[i] && available[..0] + available[1..] == all[i + 1..];
      RemoveFirstList(available, used, 0);
      IdsPrefix(all, i);
      assert closed + [c.id] == closed0 + Ids(all[..i + 1]);
      CloseAndRemoveConnection(c);
    }

    /** Closes every busy connection, in attach order (the foreach over `usedConnections`). */
    method CloseUsed()
      requires Valid()
      modifies this
      ensures Valid()
      ensures used == [] && available == old(available)
      ensures closed == old(closed) + Ids(old(used))
      ensures connectionCount == old(connectionCount) - |old(used)| && creating == old(creating)
      ensures QueueUnchanged() && ShutdownUnchanged() && TimersUnchanged()
    {
      ghost var all := used;
      var i := 0;
      while |used| > 0
        invariant Valid()
        invariant 0 <= i <= |all| && used == all[i..]
        invariant available == old(available) && creating == old(creating)
        invariant closed == old(closed) + Ids(all[..i])
        invariant connectionCount == old(connectionCount) - i
        invariant QueueUnchanged() && ShutdownUnchanged() && TimersUnchanged()
        decreases |used|
      {
        CloseFirstUsed(all, i, old(closed), old(connectionCount));
        i := i + 1;
      }
      assert all[..i] == all;
    }

    /** One iteration of `CloseUsed`: the first busy connection, `all[i]`, is closed. */
    method CloseFirstUsed(ghost all: seq<Connection>, i: nat, ghost closed0: seq<int>, ghost count0: int)
      requires Valid() && i < |all| && used == all[i..]
      requires closed == closed0 + Ids(all[..i]) && connectionCount == count0 - i
      modifies this
      ensures Valid() && used == all[i + 1..]
      ensures closed == closed0 + Ids(all[..i + 1]) && connectionCount == count0 - (i + 1)
      ensures available == old(available) && creating == old(creating)
      ensures QueueUnchanged() && ShutdownUnchanged() && TimersUnchanged()
    {
      var c := used[0];
      assert c == all[i] && c in used && used[..0] + used[1..] == all[i + 1..];
      RemoveSecondList(available, used, 0);
      IdsPrefix(all, i);
      assert closed + [c.id] == closed0 + Ids(all[..i + 1]);
      CloseAndRemoveConnection(c);
    }

    /**
     * `getConnection`. With idle connections, the most recently parked one is popped and
     * marked busy at once, the count unchanged. Otherwise, at capacity, a new waiter joins
     * the back of the queue and nothing else changes. Otherwise the count is incremented
     * and the factory is called (`CompleteCreate` or `FailCreate` follows).
     */
    method GetConnection() returns (r: Acquire)
      requires Valid()
      modifies this
      ensures Valid()
      ensures ShutdownUnchanged() && closed == old(closed)
      ensures |old(available)| > 0 ==>
        && r == Ready(old(available)[|old(available)| - 1])
        && available == old(available)[..|old(available)| - 1]
        && used == old(used) + [r.connection]
        && connectionCount == old(connectionCount)
        && QueueUnchanged() && TimerFollowsUsed()
      ensures |old(available)| == 0 && maxConnections <= old(connectionCount) ==>
        && r == Queued(old(nextWaiter))
        && waiters == old(waiters) + [old(nextWaiter)] && nextWaiter == old(nextWaiter) + 1
        && handouts == old(handouts)
        && available == old(available) && used == old(used)
        && connectionCount == old(connectionCount) && TimersUnchanged()
      ensures |old(available)| == 0 && old(connectionCount) < maxConnections ==>
        && r == Creating
        && connectionCount == old(connectionCount) + 1 && creating == old(creating) + 1
        && available == old(available) && used == old(used)
        && QueueUnchanged() && TimersUnchanged()
    {
      if |available| > 0 {
        var c := available[|available| - 1];
        available := available[..|available| - 1];
        used := used + [c];
        UpdateTimer();
        return Ready(c);
      }
      if maxConnections <= connectionCount {
        var w := nextWaiter;
        waiters := waiters + [w];
        nextWaiter := nextWaiter + 1;
        return Queued(w);
      }
      connectionCount := connectionCount + 1;
      creating := creating + 1;
      r := Creating;
    }

    /**
     * The factory's promise resolved: the new connection is marked busy, gets the pool's
     * release callback, and the polling timer is updated. The factory hands out fresh ids.
     */
    method CompleteCreate(c: Connection)
      requires Valid() && creating > 0
      requires c.id !in Ids(used) && c.id !in Ids(available)
      modifies this, c
      ensures Valid()
      ensures used == old(used) + [c] && available == old(available)
      ensures connectionCount == old(connectionCount) && creating == old(creating) - 1
      ensures c.hasReleaseCallback && c.pending == old(c.pending) && c.settled == old(c.settled)
      ensures c.nextTicket == old(c.nextTicket) && c.lastQuery == old(c.lastQuery)
      ensures c.lastUseTimestamp == old(c.lastUseTimestamp) && c.errno == old(c.errno) && c.error == old(c.error)
      ensures c.escapeTypes == old(c.escapeTypes) && c.releaseAfter == old(c.releaseAfter)
      ensures old(c.Valid()) ==> c.Valid()
      ensures TimerFollowsUsed() && QueueUnchanged() && ShutdownUnchanged() && closed == old(closed)
    {
      assert forall i :: 0 <= i < |available| ==> Ids(available)[i] == available[i].id;
      assert forall i :: 0 <= i < |used| ==> Ids(used)[i] == used[i].id;
      used := used + [c];
      creating := creating - 1;
      c.SetReleaseCallback();
      UpdateTimer();
    }

    /** The factory's promise rejected: the increment is undone and the caller sees the same exception. */
    method FailCreate(e: Exception) returns (r: Result<Connection, Exception>)
      requires Valid() && creating > 0
      modifies this
      ensures Valid()
      ensures r == Failure(e)
      ensures connectionCount == old(connectionCount) - 1 && creating == old(creating) - 1
      ensures available == old(available) && used == old(used) && closed == old(closed)
      ensures QueueUnchanged() && ShutdownUnchanged() && TimersUnchanged()
    {
      connectionCount := connectionCount - 1;
      creating := creating - 1;
      r := Failure(e);
    }

    /**
     * `release`. Nothing happens unless the connection is busy and no idle connection has
     * its id (so a second release is ignored). Then, in this order: during a shutdown it is
     * closed, and the shutdown settles once the count reaches zero; with a connection-issue
     * error on its handle it is closed; with no waiters it becomes idle at the end of the
     * list; otherwise the oldest waiter receives this very connection, which stays busy.
     */
    method Release(c: Connection) returns (r: ReleaseEffect)
      requires Valid()
      modifies this
      ensures Valid()
      ensures !old(Releasable(c)) ==> r == Ignored && unchanged(this)
      ensures r.ClosedForShutdown? || r.Evicted? || r.Parked? ==> !Releasable(c)
      ensures r.HandedTo? ==> Releasable(c)
      ensures old(Releasable(c)) && old(closeDeferred).Some? ==>
        && r.ClosedForShutdown?
        && available == old(available) && used == RemoveId(old(used), c.id)
        && connectionCount == old(connectionCount) - 1 && closed == old(closed) + [c.id]
        && (r.shutdownSettled <==> connectionCount == 0)
        && (r.shutdownSettled ==> closeDeferred == None
                                  && settledShutdowns == old(settledShutdowns) + [old(closeDeferred).value])
        && (!r.shutdownSettled ==> closeDeferred == old(closeDeferred) && settledShutdowns == old(settledShutdowns))
        && nextShutdown == old(nextShutdown) && shutdownTimers == old(shutdownTimers)
        && QueueUnchanged() && TimersUnchanged()
      ensures old(Releasable(c)) && old(closeDeferred).None? && c.errno in ConnectionIssueCodes ==>
        && r == Evicted
        && available == old(available) && used == RemoveId(old(used), c.id)
        && connectionCount == old(connectionCount) - 1 && closed == old(closed) + [c.id]
        && QueueUnchanged() && ShutdownUnchanged() && TimersUnchanged()
      ensures old(Releasable(c)) && old(closeDeferred).None? && c.errno !in ConnectionIssueCodes
              && |old(waiters)| == 0 ==>
        && r == Parked
        && available == old(available) + [c] && used == RemoveId(old(used), c.id)
        && connectionCount == old(connectionCount) && closed == old(closed)
        && QueueUnchanged() && ShutdownUnchanged() && TimerFollowsUsed()
      ensures old(Releasable(c)) && old(closeDeferred).None? && c.errno !in ConnectionIssueCodes
              && |old(waiters)| > 0 ==>
        && r == HandedTo(old(waiters)[0])
        && waiters == old(waiters)[1..] && handouts == old(handouts) + [(old(waiters)[0], c)]
        && available == old(available) && used == old(used)
        && connectionCount == old(connectionCount) && closed == old(closed)
        && ShutdownUnchanged() && TimersUnchanged()
    {
      if !Releasable(c) {
        return Ignored;
      }
      if closeDeferred.Some? {
        r := CloseForShutdown(c);
      } else if c.errno in ConnectionIssueCodes {
        CloseReleased(c);
        r := Evicted;
      } else if |waiters| == 0 {
        Park(c);
        r := Parked;
      } else {
        r := HandOver(c);
      }
    }

    /** Closing a busy connection on release: it leaves the busy list and the idle list stays as it was. */
    method CloseReleased(c: Connection)
      requires Valid() && Releasable(c)
      modifies this
      ensures Valid() && !Releasable(c)
      ensures available == old(available) && used == RemoveId(old(used), c.id)
      ensures connectionCount == old(connectionCount) - 1 && closed == old(closed) + [c.id]
      ensures QueueUnchanged() && ShutdownUnchanged() && TimersUnchanged()
    {
      var k :| 0 <= k < |used| && used[k] == c;
      RemoveSecondList(available, used, k);
      RemoveIdGone(used, c.id);
      CloseAndRemoveConnection(c);
    }

    /** Releasing during a shutdown: the connection is closed, and the shutdown settles once none is left. */
    method CloseForShutdown(c: Connection) returns (r: ReleaseEffect)
      requires Valid() && Releasable(c) && closeDeferred.Some?
      modifies this
      ensures Valid() && !Releasable(c)
      ensures r.ClosedForShutdown?
      ensures available == old(available) && used == RemoveId(old(used), c.id)
      ensures connectionCount == old(connectionCount) - 1 && closed == old(closed) + [c.id]
      ensures r.shutdownSettled <==> connectionCount == 0
      ensures r.shutdownSettled ==> closeDeferred == None
                                    && settledShutdowns == old(settledShutdowns) + [old(closeDeferred).value]
      ensures !r.shutdownSettled ==> closeDeferred == old(closeDeferred) && settledShutdowns == old(settledShutdowns)
      ensures nextShutdown == old(nextShutdown) && shutdownTimers == old(shutdownTimers)
      ensures QueueUnchanged() && TimersUnchanged()
    {
      CloseReleased(c);
      if connectionCount == 0 {
        settledShutdowns := settledShutdowns + [closeDeferred.value];
        closeDeferred := None;
        r := ClosedForShutdown(true);
      } else {
        r := ClosedForShutdown(false);
      }
    }

    /** Parking a busy connection on release: it moves to the end of the idle list. */
    method Park(c: Connection)
      requires Valid() && Releasable(c)
      modifies this
      ensures Valid() && !Releasable(c)
      ensures available == old(available) + [c] && used == RemoveId(old(used), c.id)
      ensures connectionCount == old(connectionCount) && closed == old(closed)
      ensures QueueUnchanged() && ShutdownUnchanged() && TimerFollowsUsed()
    {
      var k :| 0 <= k < |used| && used[k] == c;
      RemoveSecondList(available, used, k);
      used := RemoveId(used, c.id);
      available := available + [c];
      assert Ids(available)[|available| - 1] == c.id;
      UpdateTimer();
    }

    /** Handing a released connection to the oldest waiter: it stays busy. */
    method HandOver(c: Connection) returns (r: ReleaseEffect)
      requires Valid() && Releasable(c) && |waiters| > 0
      modifies this
      ensures Valid() && Releasable(c)
      ensures r == HandedTo(old(waiters)[0])
      ensures waiters == old(waiters)[1..] && nextWaiter == old(nextWaiter)
      ensures handouts == old(handouts) + [(old(waiters)[0], c)]
      ensures available == old(available) && used == old(used)
      ensures connectionCount == old(connectionCount) && closed == old(closed) && creating == old(creating)
      ensures ShutdownUnchanged() && TimersUnchanged()
    {
      var w := waiters[0];
      waiters := waiters[1..];
      handouts := handouts + [(w, c)];
      r := HandedTo(w);
    }

    /**
     * `checkConnectionResults`. With no busy connection, or when the poll fails, nothing
     * happens. Otherwise each connection the poll reports readable gets `processQueryResult`
     * with what its reap yields, in order, then each one it reports in error gets
     * `processQueryError`; the first exception ends the tick. The tick throws only when a
     * listed connection has no pending promise by its turn, and always does when a readable
     * one had none to begin with or an errored one has none by its turn. The continuations
     * of the settled promises are not run here.
     */
    method CheckConnectionResults(poll: Option<(seq<(Connection, Reap)>, seq<Connection>)>)
      returns (r: CheckOutcome)
      requires poll.Some? ==> forall p :: p in poll.value.0 ==> p.0 in used
      requires poll.Some? ==> forall c :: c in poll.value.1 ==> c in used
      modifies used
      ensures r.CheckThrew? ==> r.exception == NoDeferred
      ensures |used| == 0 || poll.None? ==> r == Checked && forall c :: c in used ==> unchanged(c)
      ensures forall c :: c in used ==> (old(c.Valid()) ==> c.Valid())
      ensures poll.Some? ==> forall c :: c in used && c !in ReadConnections(poll.value.0) && c !in poll.value.1
                                         ==> unchanged(c)
      ensures poll.Some? && r.Checked? ==> forall p :: p in poll.value.0 ==>
        p.0.ReapedFrom(old(p.0.pending), old(p.0.settled), p.1)
      ensures poll.Some? && r.Checked? ==> forall c :: c in poll.value.1 ==>
        c.RejectedFrom(old(c.pending), old(c.settled))
      ensures |used| > 0 && poll.Some? && r.CheckThrew? ==>
          || (exists i :: 0 <= i < |poll.value.0| && LateRead(poll.value.0, i, old(poll.value.0[i].0.pending)))
          || (exists j :: 0 <= j < |poll.value.1| && LateError(poll.value.1, j, ErrorTurnPending(poll.value, j, old(poll.value.1[j].pending))))
      ensures |used| > 0 && poll.Some? &&
        (|| (exists i :: 0 <= i < |poll.value.0| && old(poll.value.0[i].0.pending).None?)
         || (exists j :: 0 <= j < |poll.value.1| && LateError(poll.value.1, j, ErrorTurnPending(poll.value, j, old(poll.value.1[j].pending)))))
        ==> r.CheckThrew?
    {
      if |used| == 0 || poll.None? {
        return Checked;
      }
      var ready, errored := poll.value.0, poll.value.1;
      r := ProcessReadable(ready);
      if r.CheckThrew? {
        return;
      }
      assert forall j :: 0 <= j < |errored| ==> errored[j].pending == ErrorTurnPending(poll.value, j, old(errored[j].pending)) by {
        forall j | 0 <= j < |errored| ensures errored[j].pending == ErrorTurnPending(poll.value, j, old(errored[j].pending)) {
          assert errored[j] in errored;
        }
      }
      r := ProcessErrored(errored);
      assert r.Checked? ==> forall p :: p in ready ==> p.0.ReapedFrom(old(p.0.pending), old(p.0.settled), p.1);
    }

    /**
     * The first loop of `checkConnectionResults`: `processQueryResult` on each readable
     * connection, in order. It throws only at an entry that has no pending promise by its
     * turn, and always when some entry had none to begin with.
     */
    method ProcessReadable(ready: seq<(Connection, Reap)>) returns (r: CheckOutcome)
      requires forall p :: p in ready ==> p.0 in used
      modifies used
      ensures r.CheckThrew? ==> r.exception == NoDeferred
      ensures forall c :: c in used ==> (old(c.Valid()) ==> c.Valid())
      ensures forall c :: c in used && c !in ReadConnections(ready) ==> unchanged(c)
      ensures r.Checked? ==> forall p :: p in ready ==> p.0.ReapedFrom(old(p.0.pending), old(p.0.settled), p.1)
      ensures r.Checked? ==> forall c :: c in ReadConnections(ready) ==> c.pending.None?
      ensures r.CheckThrew? ==> exists i :: 0 <= i < |ready| && LateRead(ready, i, old(ready[i].0.pending))
      ensures (exists i :: 0 <= i < |ready| && old(ready[i].0.pending).None?) ==> r.CheckThrew?
    {
      var i := 0;
      while i < |ready|
        invariant 0 <= i <= |ready|
        invariant forall c :: c in used ==> (old(c.Valid()) ==> c.Valid())
        invariant forall c :: c in used && c !in ReadConnections(ready)[..i] ==> unchanged(c)
        invariant forall p :: p in ready[..i] ==> p.0.ReapedFrom(old(p.0.pending), old(p.0.settled), p.1)
        invariant forall c :: c in ReadConnections(ready)[..i] ==> c.pending.None?
      {
        var c := ready[i].0;
        assert ready[i] in ready;
        assert ReadConnections(ready)[i] == c;
        if c !in ReadConnections(ready)[..i] {
          assert c.pending == old(c.pending);
        }
        ghost var late := LateRead(ready, i, old(c.pending));
        assert late <==> c.pending.None?;
        var step := c.ProcessQueryResult(ready[i].1);
        if step.Failure? {
          assert late;
          assert forall d :: d in ReadConnections(ready)[..i] ==> d in ReadConnections(ready);
          return CheckThrew(step.error);
        }
        assert ready[..i + 1] == ready[..i] + [ready[i]];
        assert ReadConnections(ready)[..i + 1] == ReadConnections(ready)[..i] + [ready[i].0];
        i := i + 1;
      }
      assert ready[..i] == ready;
      assert ReadConnections(ready)[..i] == ReadConnections(ready);
      r := Checked;
    }

    /** The second loop of `checkConnectionResults`: `processQueryError` on each errored connection, in order. */
    method ProcessErrored(errored: seq<Connection>) returns (r: CheckOutcome)
      requires forall c :: c in errored ==> c in used
      modifies used
      ensures r.CheckThrew? ==> r.exception == NoDeferred
      ensures forall c :: c in used ==> (old(c.Valid()) ==> c.Valid())
      ensures forall c :: c in used && c !in errored ==> unchanged(c)
      ensures r.Checked? ==> forall c :: c in errored ==> c.RejectedFrom(old(c.pending), old(c.settled))
      ensures r.CheckThrew? <==> exists j :: 0 <= j < |errored| && LateError(errored, j, old(errored[j].pending))
    {
      var j := 0;
      while j < |errored|
        invariant 0 <= j <= |errored|
        invariant forall c :: c in used ==> (old(c.Valid()) ==> c.Valid())
        invariant forall c :: c in used && c !in errored[..j] ==> unchanged(c)
        invariant forall c :: c in errored[..j] ==> c.RejectedFrom(old(c.pending), old(c.settled))
        invariant forall k :: 0 <= k < j ==> !LateError(errored, k, old(errored[k].pending))
      {
        assert errored[j] in errored;
        var step := errored[j].ProcessQueryError();
        if step.Failure? {
          assert LateError(errored, j, old(errored[j].pending));
          assert forall c :: c in errored[..j] ==> c in errored;
          return CheckThrew(step.error);
        }
        assert !LateError(errored, j, old(errored[j].pending));
        assert errored[..j + 1] == errored[..j] + [errored[j]];
        j := j + 1;
      }
      assert errored[..j] == errored;
      r := Checked;
    }

    /**
     * `waitAndClose`. While a shutdown is pending, the same pending shutdown is returned and
     * nothing changes. Otherwise every idle connection is closed; with a zero timeout every
     * busy one too, and the result is settled; with connections left, a new pending shutdown
     * is returned (and a timer armed when a timeout is given); with none left, settled.
     */
    method WaitAndClose(maxTimeout: Option<int>) returns (r: ShutdownSignal)
      requires Valid()
      modifies this
      ensures Valid()
      ensures old(closeDeferred).Some? ==> r == PendingShutdown(old(closeDeferred).value) && unchanged(this)
      ensures old(closeDeferred).None? ==> available == [] && QueueUnchanged() && TimersUnchanged()
      ensures old(closeDeferred).None? && maxTimeout == Some(0) ==>
        && r == SettledNow && used == []
        && closed == old(closed) + Ids(old(available)) + Ids(old(used))
        && connectionCount == old(connectionCount) - |old(available)| - |old(used)|
        && ShutdownUnchanged()
      ensures old(closeDeferred).None? && maxTimeout != Some(0) ==>
        && used == old(used)
        && closed == old(closed) + Ids(old(available))
        && connectionCount == old(connectionCount) - |old(available)|
        && settledShutdowns == old(settledShutdowns)
        && (connectionCount > 0 ==>
              && r == PendingShutdown(old(nextShutdown)) && closeDeferred == Some(old(nextShutdown))
              && nextShutdown == old(nextShutdown) + 1
              && shutdownTimers == old(shutdownTimers) + (if maxTimeout.Some? then 1 else 0))
        && (connectionCount <= 0 ==> r == SettledNow && ShutdownUnchanged())
    {
      if closeDeferred.Some? {
        return PendingShutdown(closeDeferred.value);
      }
      CloseAvailable();
      if maxTimeout == Some(0) {
        CloseUsed();
        return SettledNow;
      }
      if connectionCount > 0 {
        var s := nextShutdown;
        closeDeferred := Some(s);
        nextShutdown := nextShutdown + 1;
        if maxTimeout.Some? {
          shutdownTimers := shutdownTimers + 1;
        }
        return PendingShutdown(s);
      }
      r := SettledNow;
    }

    /**
     * A shutdown timer fires. Without a pending shutdown it does nothing; otherwise every
     * busy and then every idle connection is closed and the pending shutdown settles.
     */
    method ShutdownTimerFires()
      requires Valid() && shutdownTimers > 0
      modifies this
      ensures Valid()
      ensures shutdownTimers == old(shutdownTimers) - 1 && nextShutdown == old(nextShutdown)
      ensures QueueUnchanged() && TimersUnchanged()
      ensures old(closeDeferred).None? ==>
        && available == old(available) && used == old(used) && connectionCount == old(connectionCount)
        && closed == old(closed) && closeDeferred == None && settledShutdowns == old(settledShutdowns)
      ensures old(closeDeferred).Some? ==>
        && available == [] && used == []
        && closed == old(closed) + Ids(old(used)) + Ids(old(available))
        && connectionCount == old(connectionCount) - |old(used)| - |old(available)|
        && closeDeferred == None && settledShutdowns == old(settledShutdowns) + [old(closeDeferred).value]
    {
      shutdownTimers := shutdownTimers - 1;
      if closeDeferred.None? {
        return;
      }
      var s := closeDeferred.value;
      CloseUsed();
      CloseAvailable();
      settledShutdowns := settledShutdowns + [s];
      closeDeferred := None;
    }

    /** `setIdleConnectionTimeout`. */
    method SetIdleConnectionTimeout(t: int)
      requires Valid()
      modifies this
      ensures Valid()
      ensures waitTimeout == AfterOverride(old(waitTimeout), t)
      ensures available == old(available) && used == old(used) && connectionCount == old(connectionCount)
      ensures closed == old(closed) && creating == old(creating)
      ensures QueueUnchanged() && ShutdownUnchanged()
      ensures connectionTimer == old(connectionTimer) && nextTimer == old(nextTimer)
      ensures reapTimerStarted == old(reapTimerStarted)
    {
      if t < 10 {
        return;
      }
      if waitTimeout.None? {
        waitTimeout := Some(t);
      } else if t < waitTimeout.value {
        waitTimeout := Some(t);
      }
    }

    /**
     * The server's `wait_timeout` arrived (the answer to the query issued on the first
     * tick): the timeout becomes the smaller of it and any override, and the reaping timer starts.
     */
    method ServerWaitTimeoutKnown(v: int)
      requires Valid()
      modifies this
      ensures Valid()
      ensures waitTimeout == AfterServer(old(waitTimeout), v) && reapTimerStarted
      ensures available == old(available) && used == old(used) && connectionCount == old(connectionCount)
      ensures closed == old(closed) && creating == old(creating)
      ensures QueueUnchanged() && ShutdownUnchanged()
      ensures connectionTimer == old(connectionTimer) && nextTimer == old(nextTimer)
    {
      waitTimeout := AfterServer(waitTimeout, v);
      reapTimerStarted := true;
    }

    /**
     * The reaping timer fires at time `now`: every idle connection last used before
     * `now - waitTimeout + 5` is closed, in order; the others stay idle, in order.
     */
    method ReapTick(now: int)
      requires Valid() && reapTimerStarted
      modifies this
      ensures Valid()
      ensures available == Recent(old(available), ReapLimit(now, old(waitTimeout).value))
      ensures closed == old(closed) + Ids(Stale(old(available), ReapLimit(now, old(waitTimeout).value)))
      ensures connectionCount == old(connectionCount) - |Stale(old(available), ReapLimit(now, old(waitTimeout).value))|
      ensures used == old(used) && creating == old(creating)
      ensures QueueUnchanged() && ShutdownUnchanged() && TimersUnchanged()
    {
      var limit := ReapLimit(now, waitTimeout.value);
      var snapshot := available;
      var i := 0;
      while i < |snapshot|
        invariant 0 <= i <= |snapshot| && Valid()
        invariant available == Recent(snapshot[..i], limit) + snapshot[i..]
        invariant closed == old(closed) + Ids(Stale(snapshot[..i], limit))
        invariant connectionCount == old(connectionCount) - |Stale(snapshot[..i], limit)|
        invariant used == old(used) && creating == old(creating)
        invariant QueueUnchanged() && ShutdownUnchanged() && TimersUnchanged()
      {
        ReapAt(snapshot, i, limit, old(closed), old(connectionCount));
        i := i + 1;
      }
      assert snapshot[..i] == snapshot && snapshot[i..] == [];
      assert Recent(snapshot, limit) + [] == Recent(snapshot, limit);
    }

    /**
     * One iteration of the reaping loop: the connection at `i` is closed if it is stale,
     * and kept otherwise; `closed0` and `count0` are the values before the loop.
     */
    method ReapAt(snapshot: seq<Connection>, i: nat, limit: int, ghost closed0: seq<int>, ghost count0: int)
      requires Valid() && i < |snapshot|
      requires available == Recent(snapshot[..i], limit) + snapshot[i..]
      requires closed == closed0 + Ids(Stale(snapshot[..i], limit))
      requires connectionCount == count0 - |Stale(snapshot[..i], limit)|
      modifies this
      ensures Valid()
      ensures available == Recent(snapshot[..i + 1], limit) + snapshot[i + 1..]
      ensures closed == closed0 + Ids(Stale(snapshot[..i + 1], limit))
      ensures connectionCount == count0 - |Stale(snapshot[..i + 1], limit)|
      ensures used == old(used) && creating == old(creating)
      ensures QueueUnchanged() && ShutdownUnchanged() && TimersUnchanged()
    {
      var c := snapshot[i];
      ReapStep(snapshot, i, limit);
      if c.lastUseTimestamp < limit {
        ReapOne(Recent(snapshot[..i], limit), c, snapshot[i + 1..]);
        assert Ids(Stale(snapshot[..i], limit) + [c]) == Ids(Stale(snapshot[..i], limit)) + [c.id];
      }
    }

    /** Closing the stale connection `c` between the kept ones and the ones not yet looked at. */
    method ReapOne(kept: seq<Connection>, c: Connection, rest: seq<Connection>)
      requires Valid() && available == kept + [c] + rest
      modifies this
      ensures Valid()
      ensures available == kept + rest && used == old(used) && creating == old(creating)
      ensures closed == old(closed) + [c.id] && connectionCount == old(connectionCount) - 1
      ensures QueueUnchanged() && ShutdownUnchanged() && TimersUnchanged()
    {
      assert available[|kept|] == c;
      RemoveIdAt(available, |kept|);
      assert available[..|kept|] == kept && available[|kept| + 1..] == rest;
      CloseAndRemoveConnection(c);
    }
  }

  /** Idle connections last used before this time are closed by the reaping timer. */
  function ReapLimit(now: int, waitTimeout: int): int {
    now - waitTimeout + 5
  }

  /**
   * A connection is stale iff it has been idle for more than five seconds less than the
   * server's timeout, so the pool closes it before the server drops it.
   */
  lemma ReapLimitGrace(now: int, waitTimeout: int, lastUse: int)
    ensures lastUse < ReapLimit(now, waitTimeout) <==> now - lastUse > waitTimeout - 5
  {
  }

  /**
   * The `i`-th readable connection has no pending promise by its turn, so its
   * `processQueryResult` throws: none was pending when the tick began (`pending0`), or an
   * earlier entry for the same connection already settled it.
   */
  predicate LateRead(ready: seq<(Connection, Reap)>, i: nat, pending0: Option<nat>)
    requires i < |ready|
  {
    pending0.None? || ready[i].0 in ReadConnections(ready)[..i]
  }

  /** The same for the `j`-th errored connection and its `processQueryError`. */
  predicate LateError(errored: seq<Connection>, j: nat, pending0: Option<nat>)
    requires j < |errored|
  {
    pending0.None? || errored[j] in errored[..j]
  }

  /**
   * What is pending on the `j`-th errored connection when its turn comes, given what was
   * pending when the tick began: nothing if the first loop already read it.
   */
  function ErrorTurnPending(poll: (seq<(Connection, Reap)>, seq<Connection>), j: nat, pending0: Option<nat>): Option<nat>
    requires j < |poll.1|
  {
    if poll.1[j] in ReadConnections(poll.0) then None else pending0
  }

  /** The connections of a list of readable handles with their reaps. */
  function ReadConnections(ps: seq<(Connection, Reap)>): seq<Connection> {
    seq(|ps|, i requires 0 <= i < |ps| => ps[i].0)
  }

  /** One step of the reaping loop, on the filters and the ids. */
  lemma ReapStep(s: seq<Connection>, i: nat, limit: int)
    requires i < |s|
    ensures s[i..] == [s[i]] + s[i + 1..]
    ensures Recent(s[..i + 1], limit) == Recent(s[..i], limit) + (if s[i].lastUseTimestamp < limit then [] else [s[i]])
    ensures Stale(s[..i + 1], limit) == Stale(s[..i], limit) + (if s[i].lastUseTimestamp < limit then [s[i]] else [])
    ensures Ids(Stale(s[..i], limit) + [s[i]]) == Ids(Stale(s[..i], limit)) + [s[i].id]
    ensures Recent(s[..i], limit) + ([s[i]] + s[i + 1..]) == Recent(s[..i], limit) + [s[i]] + s[i + 1..]
  {
    assert s[..i + 1][..i] == s[..i];
  }
}
