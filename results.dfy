/**
 * The result of a finished query: `DefaultResult`, which copies the rows out of the
 * driver's result set when it is built, and `ConnectionResult`, which pairs a result
 * with the connection that produced it.
 */
module Results {
  import opened Wrappers
  import opened Errors
  import opened Values

  /** A row as `mysqli_fetch_assoc` returns it: column names with their values, in column order. */
  type Row = seq<(string, Value)>

  /**
   * What the driver's reap hands to the result. A statement without a result set
   * (an INSERT, say) yields `NotAResultSet`; a result set is the sequence of rows
   * `mysqli_fetch_assoc` returns before it returns null.
   */
  datatype ResultSource = NotAResultSet | ResultSet(fetch: seq<Row>)

  /**
   * The rows the constructor's loop keeps from the fetch sequence: it stops at the first
   * falsy row, which is the end of the result set or an empty row (an empty array is
   * falsy in PHP).
   */
  ghost predicate FetchedPrefix(rows: seq<Row>, fetch: seq<Row>) {
    |rows| <= |fetch|
    && rows == fetch[..|rows|]
    && (forall k :: 0 <= k < |rows| ==> rows[k] != [])
    && (|rows| == |fetch| || fetch[|rows|] == [])
  }

  /** There is exactly one such prefix: the loop's stopping point is determined by the fetch sequence. */
  lemma FetchedPrefixUnique(a: seq<Row>, b: seq<Row>, fetch: seq<Row>)
    requires FetchedPrefix(a, fetch) && FetchedPrefix(b, fetch)
    ensures a == b
  {
    if |a| < |b| {
      assert false;
    } else if |b| < |a| {
      assert false;
    }
  }

  datatype DefaultResult = DefaultResult(rows: seq<Row>, insertId: int, affectedRows: int)
  {
    /**
     * `getSingleScalarResult`: the first column of the first row. Without rows, `current`
     * receives `false` and throws a `TypeError`; an empty first row yields `false`.
     */
    function GetSingleScalarResult(): (r: Result<Value, Exception>)
      ensures r.Failure? <==> rows == []
      ensures r.Failure? ==> r.error.TypeError?
      ensures rows != [] && rows[0] != [] ==> r == Success(rows[0][0].1)
      ensures rows != [] && rows[0] == [] ==> r == Success(Bool(false))
    {
      if rows == [] then Failure(TypeError("current(): Argument #1 ($array) must be of type array, bool given"))
      else if rows[0] == [] then Success(Bool(false))
      else Success(rows[0][0].1)
    }

    /** `getSingleResult`: the first row; without rows `false` violates the `array` return type. */
    function GetSingleResult(): (r: Result<Row, Exception>)
      ensures r.Failure? <==> rows == []
      ensures r.Failure? ==> r.error.TypeError?
      ensures r.Success? ==> r.value == rows[0]
    {
      if rows == [] then Failure(TypeError("Return value must be of type array, bool returned"))
      else Success(rows[0])
    }

    /** `getResult`: the kept rows, in order; `getSingleResult` is the first of them. */
    function GetResult(): (r: seq<Row>)
      ensures GetSingleResult().Success? <==> r != []
      ensures r != [] ==> GetSingleResult().value == r[0]
    {
      rows
    }

    /** `getCount`: the number of rows `getResult` returns. */
    function GetCount(): (r: nat)
      ensures r == |GetResult()|
    {
      |rows|
    }

    /** `getInsertId`: the id the driver reported when the result was built. */
    function GetInsertId(): (r: int)
      ensures r == insertId
    {
      insertId
    }

    /** `getAffectedRows`: the count the driver reported when the result was built. */
    function GetAffectedRows(): (r: int)
      ensures r == affectedRows
    {
      affectedRows
    }
  }

  /**
   * The constructor of `DefaultResult`: reads rows until the driver returns a falsy row,
   * for a result set only, and keeps the inserted id and the affected row count.
   */
  method NewDefaultResult(source: ResultSource, insertId: int, affectedRows: int) returns (r: DefaultResult)
    ensures r.insertId == insertId && r.affectedRows == affectedRows
    ensures source.NotAResultSet? ==> r.rows == []
    ensures source.ResultSet? ==> FetchedPrefix(r.rows, source.fetch)
  {
    var rows: seq<Row> := [];
    if source.ResultSet? {
      var fetch := source.fetch;
      var i := 0;
      while i < |fetch| && fetch[i] != []
        invariant 0 <= i <= |fetch|
        invariant rows == fetch[..i]
        invariant forall k :: 0 <= k < i ==> fetch[k] != []
      {
        rows := rows + [fetch[i]];
        i := i + 1;
      }
    }
    r := DefaultResult(rows, insertId, affectedRows);
  }

  /** When the driver returns no empty row, every row of the result set is kept, in order. */
  lemma AllRowsKept(rows: seq<Row>, fetch: seq<Row>)
    requires FetchedPrefix(rows, fetch)
    requires forall k :: 0 <= k < |fetch| ==> fetch[k] != []
    ensures rows == fetch
    ensures DefaultResult(rows, 0, 0).GetCount() == |fetch|
  {
    if |rows| < |fetch| {
      assert false;
    }
  }

  /** The three row accessors agree: the single row is the first of the list, and the scalar its first column. */
  lemma RowAccessorsAgree(d: DefaultResult)
    ensures d.GetCount() == |d.GetResult()|
    ensures d.GetCount() > 0 <==> d.GetSingleResult().Success?
    ensures d.GetCount() > 0 ==> d.GetSingleResult().value == d.GetResult()[0]
    ensures d.GetSingleResult().Success? && d.GetSingleResult().value != []
            ==> d.GetSingleScalarResult() == Success(d.GetSingleResult().value[0].1)
  {
  }

  /**
   * `ConnectionResult`: a result together with its connection (left generic here: the
   * connection class is defined on top of this module). Every accessor but
   * `getConnection` forwards to the wrapped result.
   */
  datatype ConnectionResult<C> = ConnectionResult(connection: C, result: DefaultResult)
  {
    function GetConnection(): C {
      connection
    }

    function GetSingleScalarResult(): Result<Value, Exception> {
      result.GetSingleScalarResult()
    }

    function GetSingleResult(): Result<Row, Exception> {
      result.GetSingleResult()
    }

    function GetResult(): seq<Row> {
      result.GetResult()
    }

    function GetCount(): nat {
      result.GetCount()
    }

    function GetInsertId(): int {
      result.GetInsertId()
    }

    function GetAffectedRows(): int {
      result.GetAffectedRows()
    }
  }

  /** Wrapping a result changes none of its answers, and keeps the connection it was given. */
  lemma ConnectionResultDelegates<C>(c: C, d: DefaultResult)
    ensures ConnectionResult(c, d).GetConnection() == c
    ensures ConnectionResult(c, d).GetSingleScalarResult() == d.GetSingleScalarResult()
    ensures ConnectionResult(c, d).GetSingleResult() == d.GetSingleResult()
    ensures ConnectionResult(c, d).GetResult() == d.GetResult()
    ensures ConnectionResult(c, d).GetCount() == d.GetCount()
    ensures ConnectionResult(c, d).GetInsertId() == d.GetInsertId()
    ensures ConnectionResult(c, d).GetAffectedRows() == d.GetAffectedRows()
  {
  }
}
