/**
 * `Connection`: one driver handle with at most one query in flight. The pending promise
 * is a slot holding a ticket; settling it appends to the log of settled promises.
 * Driver calls are inputs: what `mysqli_query` in async mode reports when the query is
 * sent, and what `mysqli_reap_async_query` yields once the query is done.
 */
module Connections {
  import opened Wrappers
  import opened Errors
  import opened Values
  import opened Escaping
  import opened Results

  /** What the driver reports when an asynchronous query is sent. */
  datatype DriverStart = Started | StartFailed(code: int, message: string)

  /** What the driver's reap yields: a result source, or `false` with the handle's error. */
  datatype Reap =
    | ReapOk(source: ResultSource, insertId: int, affectedRows: int)
    | ReapFailed(code: int, message: string)

  /**
   * The immediate effect of issuing a query: an exception thrown synchronously, a promise
   * already rejected, or the pending promise numbered `ticket`.
   */
  datatype QueryStart = Threw(exception: Exception) | RejectedNow(reason: Exception) | Pending(ticket: nat)

  datatype Outcome = Resolved(result: ConnectionResult<Connection>) | Rejected(reason: Exception)

  /** The pending promise `ticket` was settled with `outcome`. */
  datatype Settlement = Settlement(ticket: nat, outcome: Outcome)

  const AlreadyInUse: Exception := InvalidStateException("Connection already in use")
  const NoDeferred: Exception := InvalidStateException("No deferred for query result")

  class Connection {
    const id: int
    /** `mysqli_real_escape_string` on this handle. */
    const realEscape: string -> string

    /** The deferred of the query in flight, by ticket. */
    var pending: Option<nat>
    var nextTicket: nat
    var lastQuery: Option<string>
    var lastUseTimestamp: int
    /** `mysqli_errno` and `mysqli_error` of the handle: the last driver call's error. */
    var errno: int
    var error: string
    var escapeTypes: map<string, Escaper>
    /** Whether a release callback is set (the pool sets its own `release`). */
    var hasReleaseCallback: bool
    /** The tickets issued by `commitAndRelease` or `rollbackAndRelease`, whose settlement triggers `release`. */
    var releaseAfter: set<nat>
    /** Every settled promise, in settling order. */
    var settled: seq<Settlement>

    /** Tickets are issued once each, the pending one is unsettled, and no promise is settled twice. */
    ghost predicate Valid()
      reads this
    {
      (pending.Some? ==> pending.value < nextTicket
                         && forall k :: 0 <= k < |settled| ==> settled[k].ticket != pending.value)
      && (forall k :: 0 <= k < |settled| ==> settled[k].ticket < nextTicket)
      && (forall j, k :: 0 <= j < k < |settled| ==> settled[j].ticket != settled[k].ticket)
    }

    /** The constructor: idle, with the default escape types, last used `now`. */
    constructor(id: int, realEscape: string -> string, now: int)
      ensures Valid()
      ensures this.id == id && this.realEscape == realEscape
      ensures pending == None && lastQuery == None && lastUseTimestamp == now
      ensures escapeTypes == DefaultEscapeTypes() && !hasReleaseCallback
      ensures errno == 0 && error == "" && settled == [] && releaseAfter == {}
    {
      this.id := id;
      this.realEscape := realEscape;
      pending := None;
      nextTicket := 0;
      lastQuery := None;
      lastUseTimestamp := now;
      errno := 0;
      error := "";
      escapeTypes := DefaultEscapeTypes();
      hasReleaseCallback := false;
      releaseAfter := {};
      settled := [];
    }

    /** `setEscapeType`: registers (or replaces) the encoder for a prefix. */
    method SetEscapeType(key: string, callback: Value -> Result<Value, Exception>)
      modifies this
      ensures escapeTypes == old(escapeTypes)[key := ByCallback(callback)]
      ensures pending == old(pending) && nextTicket == old(nextTicket) && settled == old(settled)
      ensures lastQuery == old(lastQuery) && lastUseTimestamp == old(lastUseTimestamp)
      ensures errno == old(errno) && error == old(error)
      ensures hasReleaseCallback == old(hasReleaseCallback) && releaseAfter == old(releaseAfter)
    {
      escapeTypes := escapeTypes[key := ByCallback(callback)];
    }

    method SetReleaseCallback()
      modifies this
      ensures hasReleaseCallback
      ensures pending == old(pending) && nextTicket == old(nextTicket) && settled == old(settled)
      ensures lastQuery == old(lastQuery) && lastUseTimestamp == old(lastUseTimestamp)
      ensures errno == old(errno) && error == old(error)
      ensures escapeTypes == old(escapeTypes) && releaseAfter == old(releaseAfter)
    {
      hasReleaseCallback := true;
    }

    /** `release`: the callback is invoked, with this connection, iff one is set. */
    method Release() returns (invoked: bool)
      ensures invoked <==> hasReleaseCallback
    {
      invoked := hasReleaseCallback;
    }

    /** Touches nothing but the slot, the ticket counter, the last query, the timestamp and the error. */
    twostate predicate OnlyQueryFieldsChanged()
      reads this
    {
      escapeTypes == old(escapeTypes) && hasReleaseCallback == old(hasReleaseCallback)
      && releaseAfter == old(releaseAfter) && settled == old(settled)
    }

    /**
     * The effect of `query`. On a busy connection: `InvalidStateException`, nothing changes.
     * Otherwise the slot is occupied by a new ticket, the query and `now` are recorded, and
     * the driver's answer decides: the pending promise, or a promise rejected with the
     * classified error, while the slot stays occupied.
     */
    twostate predicate StartedQuery(query: string, now: int, start: DriverStart, r: QueryStart)
      reads this
    {
      OnlyQueryFieldsChanged()
      && if old(pending).Some? then
        r == Threw(AlreadyInUse) && unchanged(this)
      else
        pending == Some(old(nextTicket)) && nextTicket == old(nextTicket) + 1
        && lastQuery == Some(query) && lastUseTimestamp == now
        && match start
           case Started => errno == 0 && error == "" && r == Pending(old(nextTicket))
           case StartFailed(code, message) =>
             errno == code && error == message && r == RejectedNow(CreateException(code, message))
    }

    /** `query`. */
    method Query(query: string, now: int, start: DriverStart) returns (r: QueryStart)
      modifies this
      ensures old(Valid()) ==> Valid()
      ensures StartedQuery(query, now, start, r)
    {
      if pending.Some? {
        return Threw(AlreadyInUse);
      }
      var ticket := nextTicket;
      pending := Some(ticket);
      nextTicket := nextTicket + 1;
      lastQuery := Some(query);
      lastUseTimestamp := now;
      match start {
        case Started =>
          errno, error := 0, "";
          r := Pending(ticket);
        case StartFailed(code, message) =>
          errno, error := code, message;
          r := RejectedNow(CreateException(code, message));
      }
    }

    /**
     * `queryWithArgs`: the arguments are substituted in order, then the query is issued.
     * An exception from the substitution is thrown before anything changes.
     */
    method QueryWithArgs(query: string, args: seq<(string, Value)>, now: int, start: DriverStart)
      returns (r: QueryStart)
      modifies this
      ensures old(Valid()) ==> Valid()
      ensures var s := Substitute(old(escapeTypes), realEscape, query, args);
        if s.Failure? then r == Threw(s.error) && unchanged(this)
        else StartedQuery(s.value, now, start, r)
    {
      var q := query;
      var i := 0;
      while i < |args|
        invariant 0 <= i <= |args|
        invariant Substitute(escapeTypes, realEscape, query, args)
               == Substitute(escapeTypes, realEscape, q, args[i..])
      {
        assert args[i..][0] == args[i] && args[i..][1..] == args[i + 1..];
        var step := SubstituteArg(escapeTypes, realEscape, q, args[i].0, args[i].1);
        if step.Failure? {
          return Threw(step.error);
        }
        q := step.value;
        i := i + 1;
      }
      r := Query(q, now, start);
    }

    method BeginTransaction(now: int, start: DriverStart) returns (r: QueryStart)
      modifies this
      ensures old(Valid()) ==> Valid()
      ensures StartedQuery("START TRANSACTION", now, start, r)
    {
      r := Query("START TRANSACTION", now, start);
    }

    method Commit(now: int, start: DriverStart) returns (r: QueryStart)
      modifies this
      ensures old(Valid()) ==> Valid()
      ensures StartedQuery("COMMIT", now, start, r)
    {
      r := Query("COMMIT", now, start);
    }

    method Rollback(now: int, start: DriverStart) returns (r: QueryStart)
      modifies this
      ensures old(Valid()) ==> Valid()
      ensures StartedQuery("ROLLBACK", now, start, r)
    {
      r := Query("ROLLBACK", now, start);
    }

    /**
     * `commitAndRelease` and `rollbackAndRelease`: the statement is issued and `release`
     * follows its outcome on both paths, the outcome itself passing through unchanged. A
     * promise rejected at once runs its handler at once (`releasedNow`); a pending one is
     * marked, and `ProcessQueryResult`/`ProcessQueryError` report when it is due. A
     * synchronous exception skips the handler.
     */
    method FinishAndRelease(statement: string, now: int, start: DriverStart)
      returns (r: QueryStart, releasedNow: bool)
      requires statement == "COMMIT" || statement == "ROLLBACK"
      modifies this
      ensures old(Valid()) ==> Valid()
      ensures old(pending).Some? ==> r == Threw(AlreadyInUse) && !releasedNow && unchanged(this)
      ensures old(pending).None? ==> r.Pending? || r.RejectedNow?
      ensures releasedNow <==> r.RejectedNow? && hasReleaseCallback
      ensures r.Pending? ==> releaseAfter == old(releaseAfter) + {r.ticket}
      ensures !r.Pending? ==> releaseAfter == old(releaseAfter)
      ensures pending == (if old(pending).Some? then old(pending) else Some(old(nextTicket)))
      ensures old(pending).None? ==> lastQuery == Some(statement) && lastUseTimestamp == now
      ensures escapeTypes == old(escapeTypes) && hasReleaseCallback == old(hasReleaseCallback)
      ensures settled == old(settled)
    {
      r := Query(statement, now, start);
      releasedNow := false;
      match r {
        case Pending(ticket) =>
          releaseAfter := releaseAfter + {ticket};
        case RejectedNow(_) =>
          releasedNow := Release();
        case Threw(_) =>
      }
    }

    method CommitAndRelease(now: int, start: DriverStart) returns (r: QueryStart, releasedNow: bool)
      modifies this
      ensures old(Valid()) ==> Valid()
      ensures old(pending).Some? ==> r == Threw(AlreadyInUse) && !releasedNow && unchanged(this)
      ensures old(pending).None? ==> lastQuery == Some("COMMIT") && lastUseTimestamp == now
      ensures releasedNow <==> r.RejectedNow? && hasReleaseCallback
      ensures r.Pending? ==> releaseAfter == old(releaseAfter) + {r.ticket}
      ensures !r.Pending? ==> releaseAfter == old(releaseAfter)
      ensures settled == old(settled)
    {
      r, releasedNow := FinishAndRelease("COMMIT", now, start);
    }

    method RollbackAndRelease(now: int, start: DriverStart) returns (r: QueryStart, releasedNow: bool)
      modifies this
      ensures old(Valid()) ==> Valid()
      ensures old(pending).Some? ==> r == Threw(AlreadyInUse) && !releasedNow && unchanged(this)
      ensures old(pending).None? ==> lastQuery == Some("ROLLBACK") && lastUseTimestamp == now
      ensures releasedNow <==> r.RejectedNow? && hasReleaseCallback
      ensures r.Pending? ==> releaseAfter == old(releaseAfter) + {r.ticket}
      ensures !r.Pending? ==> releaseAfter == old(releaseAfter)
      ensures settled == old(settled)
    {
      r, releasedNow := FinishAndRelease("ROLLBACK", now, start);
    }

    /**
     * The promise that was pending (`pending0`) has been settled, as the next entry after
     * `settled0`, and the slot is free.
     */
    ghost predicate SettledFrom(pending0: Option<nat>, settled0: seq<Settlement>)
      reads this
    {
      pending0.Some? && pending == None && |settled| == |settled0| + 1
      && settled[..|settled0|] == settled0 && settled[|settled0|].ticket == pending0.value
    }

    /** What a reap settles the promise with: the classified error, or this connection with the rows read. */
    ghost predicate ReapOutcome(reap: Reap, o: Outcome) {
      match reap
      case ReapFailed(code, message) => o == Rejected(CreateException(code, message))
      case ReapOk(source, insertId, affectedRows) =>
        && o.Resolved? && o.result.connection == this
        && o.result.result.insertId == insertId && o.result.result.affectedRows == affectedRows
        && (source.NotAResultSet? ==> o.result.result.rows == [])
        && (source.ResultSet? ==> FetchedPrefix(o.result.result.rows, source.fetch))
    }

    /** The pending promise was settled from `reap`. */
    ghost predicate ReapedFrom(pending0: Option<nat>, settled0: seq<Settlement>, reap: Reap)
      reads this
    {
      SettledFrom(pending0, settled0) && ReapOutcome(reap, settled[|settled0|].outcome)
    }

    /** The pending promise was rejected with the handle's current error. */
    ghost predicate RejectedFrom(pending0: Option<nat>, settled0: seq<Settlement>)
      reads this
    {
      SettledFrom(pending0, settled0) && settled[|settled0|].outcome == Rejected(CreateException(errno, error))
    }

    /**
     * Settles the pending promise with `outcome` and frees the slot; reports whether a
     * release handler follows it.
     */
    method Settle(outcome: Outcome) returns (releaseDue: bool)
      requires pending.Some?
      modifies this
      ensures old(Valid()) ==> Valid()
      ensures pending == None && settled == old(settled) + [Settlement(old(pending).value, outcome)]
      ensures releaseDue <==> old(pending).value in releaseAfter && hasReleaseCallback
      ensures nextTicket == old(nextTicket) && lastQuery == old(lastQuery)
      ensures lastUseTimestamp == old(lastUseTimestamp) && errno == old(errno) && error == old(error)
      ensures escapeTypes == old(escapeTypes) && hasReleaseCallback == old(hasReleaseCallback)
      ensures releaseAfter == old(releaseAfter)
    {
      var ticket := pending.value;
      settled := settled + [Settlement(ticket, outcome)];
      pending := None;
      releaseDue := ticket in releaseAfter && hasReleaseCallback;
    }

    /**
     * `processQueryResult`. The reap happens first and sets the handle's error; then,
     * with no query pending, `InvalidStateException`. Otherwise the slot is freed and the
     * pending promise is settled once: resolved with this connection and the result built
     * from the reap, or rejected with the classified error.
     */
    method ProcessQueryResult(reap: Reap) returns (r: Result<bool, Exception>)
      modifies this
      ensures old(Valid()) ==> Valid()
      ensures reap.ReapOk? ==> errno == 0 && error == ""
      ensures reap.ReapFailed? ==> errno == reap.code && error == reap.message
      ensures old(pending).None? ==> r == Failure(NoDeferred) && pending == None && settled == old(settled)
      ensures old(pending).Some? ==>
        && ReapedFrom(old(pending), old(settled), reap)
        && (r.Success? && (r.value <==> old(pending).value in releaseAfter && hasReleaseCallback))
      ensures nextTicket == old(nextTicket) && lastQuery == old(lastQuery)
      ensures lastUseTimestamp == old(lastUseTimestamp)
      ensures escapeTypes == old(escapeTypes) && hasReleaseCallback == old(hasReleaseCallback)
      ensures releaseAfter == old(releaseAfter)
    {
      match reap {
        case ReapOk(_, _, _) =>
          errno, error := 0, "";
        case ReapFailed(code, message) =>
          errno, error := code, message;
      }
      if pending.None? {
        return Failure(NoDeferred);
      }
      var outcome: Outcome;
      match reap {
        case ReapFailed(code, message) =>
          outcome := Rejected(CreateException(code, message));
        case ReapOk(source, insertId, affectedRows) =>
          var result := NewDefaultResult(source, insertId, affectedRows);
          outcome := Resolved(ConnectionResult(this, result));
      }
      var due := Settle(outcome);
      r := Success(due);
    }

    /**
     * `processQueryError`: with no query pending, `InvalidStateException`; otherwise the
     * slot is freed and the pending promise rejected with the handle's current error.
     */
    method ProcessQueryError() returns (r: Result<bool, Exception>)
      modifies this
      ensures old(Valid()) ==> Valid()
      ensures old(pending).None? ==> r == Failure(NoDeferred) && unchanged(this)
      ensures old(pending).Some? ==>
        && RejectedFrom(old(pending), old(settled))
        && settled == old(settled) + [Settlement(old(pending).value, Rejected(CreateException(errno, error)))]
        && (r.Success? && (r.value <==> old(pending).value in releaseAfter && hasReleaseCallback))
      ensures nextTicket == old(nextTicket) && lastQuery == old(lastQuery)
      ensures lastUseTimestamp == old(lastUseTimestamp) && errno == old(errno) && error == old(error)
      ensures escapeTypes == old(escapeTypes) && hasReleaseCallback == old(hasReleaseCallback)
      ensures releaseAfter == old(releaseAfter)
    {
      if pending.None? {
        return Failure(NoDeferred);
      }
      var due := Settle(Rejected(CreateException(errno, error)));
      r := Success(due);
    }
  }
}
