# react-mysql, modelled in Dafny

A model of `foowie/react-mysql`, a non-blocking MySQL connection pool for ReactPHP, together with proofs about it.

The pool hands out connections. Each connection runs one asynchronous query at a time. An event-loop timer polls the driver for finished queries. A finished query settles the query's promise with a result object or with a classified exception.

## Modules

| file | module | what it models |
|---|---|---|
| `wrappers.dfy` | `Wrappers` | `Option` and `Result` |
| `strings.dfy` | `Strings` | the PHP string functions the core uses: `strpos` for one character, `str_replace`, `implode`/`explode` on one character, integer to string |
| `errors.dfy` | `Errors` | the exception classes, the connection-issue codes, and `createException`'s classification |
| `values.dfy` | `Values` | PHP values given to `queryWithArgs`, `is_numeric`, the `(string)` cast, and `implode` |
| `mysql_syntax.dfy` | `MySqlSyntax` | how MySQL reads what the escapers produce (see below) |
| `escaping.dfy` | `Escaping` | the escape functions, the default prefix table, and the substitution done by `queryWithArgs` |
| `results.dfy` | `Results` | `DefaultResult` (its constructor loop is a method) and `ConnectionResult` |
| `connection.dfy` | `Connections` | class `Connection`: the single pending-query slot, settling, commit/rollback-and-release |
| `pool.dfy` | `Pools` | class `Pool`: idle and busy connections, the count, the waiter queue, shutdown, and the three timers |

`MySqlSyntax` gives the escapers a reference meaning, taken from the MySQL 8.0 Reference Manual:
- single-quoted string literals with backslash escapes (section 11.1.1, "String Literals", with `NO_BACKSLASH_ESCAPES` off);
- backtick-quoted identifiers (section 11.2, "Schema Object Names");
- the LIKE pattern language with its default escape character.

### Promises, timers and the driver

Nothing here is asynchronous:
- A promise is a number:
  - a *ticket* on a connection;
  - a *waiter* or a *shutdown* on the pool.
- Settling a promise appends to a log: `Connection.settled`, `Pool.handouts` or `Pool.settledShutdowns`.
- A timer firing is a method the caller invokes: `CheckConnectionResults`, `ReapTick` or `ShutdownTimerFires`.
- Each driver answer is a parameter:
  - what `mysqli_query` in async mode reports (`DriverStart`);
  - what the reap yields (`Reap`);
  - what `mysqli_poll` reports;
  - the current time `now`.
- `mysqli_real_escape_string` is the function constant `Connection.realEscape`.

## Model

| member | source | states |
|---|---|---|
| Errors.CreateException | src/Connection.php:311-325 | The exception carries the code and message. It is `UniqueConstraintViolationException` iff the code is 1062, `ConnectionException` iff the code is one of 1053, 2006, 2008, 2013, 2055, and `QueryException` otherwise. The three cases are disjoint and cover every code. |
| Strings.FirstIndex | src/Connection.php:96 | `strpos` for one character: `None` iff the character is absent. Otherwise the first index at which it occurs. |
| Strings.FirstIndexOfSplit | src/Connection.php:96-98 | In `a + ":" + b` with no `:` in `a`, the first `:` is at `\|a\|`, so the prefix is `a + ":"`. |
| Strings.ReplaceAll | src/Connection.php:105 | `str_replace` for a non-empty search string. A string in which the search string does not occur comes back unchanged. |
| Strings.ReplaceAllFirst | src/Connection.php:105 | The leftmost occurrence is replaced first: in `a + pat + b`, where `pat` neither occurs in `a` nor starts inside `a`, the result is `a`, then the replacement, then `b` with its own occurrences replaced. With `ReplaceAll`'s "absent, unchanged" clause this fixes the result on every string. |
| Strings.ReplaceAllOneChar | src/Connection.php:266 | `str_replace` of a one-character pattern is replacement of each occurrence of that character. |
| Strings.ReplaceCharLength | src/Connection.php:266 | Doubling a character adds one to the length per occurrence. |
| Strings.Join | src/Connection.php:244 | `implode` on one character. Pieces free of the glue are joined with exactly one glue character between neighbours: the glue occurs one time less than there are pieces. |
| Strings.SplitJoin | src/Connection.php:55 | `explode` undoes `implode` when no piece contains the separator. |
| Strings.NatToStringValue | src/Connection.php:105 | The decimal digits of a natural number read back as that number. |
| Strings.IntToString | src/Connection.php:105 | `(string)` of an integer: it starts with `-` iff the integer is negative, and the digits after it are decimal digits that read back as the magnitude. |
| Values.SkipWhitespace | src/Connection.php:231 | The scanner stops at the first non-whitespace character, and everything it skips is whitespace. |
| Values.NumericStringAlphabet | src/Connection.php:231 | A numeric string contains only whitespace, signs, digits, `.`, `e` and `E`. |
| Values.IsNumericString | src/Connection.php:231 | `is_numeric` on a string, by PHP 8's grammar of numeric strings. A numeric string holds at least one digit. |
| Values.IntToStringIsNumeric | src/Connection.php:231-232 | The text of every integer is a numeric string, so `escapeDetect` passes a string holding an integer's text through unquoted, as it passes the integer itself. |
| Values.CastToString | src/Connection.php:105 | `(string)` fails exactly for date-times and objects without `__toString`. It is the identity on strings and gives an object's `__toString` text. |
| Values.Collect | src/Connection.php:55 | `array_map` with callbacks that may throw: it succeeds iff every call succeeds, keeping each value in order. Otherwise it fails with the first exception. |
| Values.Implode | src/Connection.php:55 | `implode` succeeds iff no element is a date-time or object. |
| Values.ImplodePieces | src/Connection.php:55 | The imploded text is the elements' strings joined with commas, in order; an empty list gives "". When the list is not empty and no piece contains a comma, splitting the text at commas gives the pieces back. |
| Escaping.EscapeText | src/Connection.php:249-251 | Accepts exactly null and strings. null gives `NULL`. A string gives the driver-escaped text between single quotes. |
| Escaping.RealEscapeUtf8ReadsBack | src/Connection.php:250 | The reference `mysqli_real_escape_string` for a UTF-8 connection (a backslash before NUL, newline, carriage return, backslash, both quotes and Control-Z) is undone by MySQL's string-literal reader, whatever follows. |
| Escaping.EscapeTextLexes | src/Connection.php:249-251 | With an escaping MySQL reads back, `escapeText(v)` is one string literal spanning the whole output, and its value is `v`. |
| Escaping.EscapeBinary | src/Connection.php:257-259 | Accepts exactly null and strings. null gives `NULL`. A string gives `_binary` and then the quoted, driver-escaped text. On anything but a string it is `escapeText`. |
| Escaping.EscapeBinaryLexes | src/Connection.php:257-259 | With an escaping MySQL reads back, the output is `_binary` followed by one string literal whose value is `v`. |
| Escaping.EscapeIdentifier | src/Connection.php:265-267 | Accepts exactly strings. MySQL reads the output as one quoted identifier named exactly `v`, with nothing after it. |
| Escaping.EscapeBool | src/Connection.php:269-271 | Accepts exactly null and booleans. null gives `NULL`, true gives `1`, false gives `0`. |
| Escaping.EscapeDate | src/Connection.php:277-279 | Accepts exactly null and date-times. null gives `NULL`. A date-time gives its formatted date between single quotes. |
| Escaping.EscapeDateLexes | src/Connection.php:277-279 | A formatted date has no quote or backslash, so the output is one string literal spanning the whole output, and its value is the date. |
| Escaping.EscapeDateTime | src/Connection.php:285-287 | Accepts exactly null and date-times. A date-time gives its date, a space and its time between single quotes. |
| Escaping.EscapeDateTimeLexes | src/Connection.php:285-287 | The output is one string literal whose value is the date, a space and the time. |
| Escaping.EscapeNumber | src/Connection.php:54-57 | The `n:`/`number:` encoders: null gives `NULL`, and any other value passes through unchanged. |
| Escaping.EscapeEach | src/Connection.php:253-291 | The array variants reject a value that is not an array with a `TypeError`. On an array they succeed iff the encoder succeeds on every element and no encoded value is a date-time or an object without `__toString`. A success is a string. |
| Escaping.EscapeEachPieces | src/Connection.php:253-291 | When the encoder turns each element into a value printing as a piece, the output is the pieces joined with commas, in order; an empty array gives "". When the array is not empty and no piece contains a comma, splitting the output at commas gives the pieces back. |
| Escaping.EscapeTextArrayJoins | src/Connection.php:253-255 | `escapeTextArray` is the quoted, driver-escaped strings joined with commas, in order. A comma inside a string stays inside its literal. |
| Escaping.ArrayEscapersRejectScalars | src/Connection.php:253-291 | Every array variant rejects a value that is not an array with a `TypeError`. |
| Escaping.AddCSlashes | src/Connection.php:294 | `addcslashes` never shortens its input, and an input without listed characters comes back unchanged. |
| Escaping.EscapeLike | src/Connection.php:293-296 | The output starts and ends with a single quote. Its meaning is stated by `EscapeLikeMeaning`. |
| Escaping.QuoteIdentifierLength | src/Connection.php:265-267 | `\|escapeIdentifier(v)\| == \|v\| + 2 + count of backticks in v`. |
| Escaping.QuoteIdentifierLexes | src/Connection.php:265-267 | MySQL reads `escapeIdentifier(v)` as one identifier named exactly `v`, with nothing after it. This is the inverse. |
| Escaping.LikeEncodingLexes | src/Connection.php:294 | One character of the doubled-then-`addcslashes` interior, read inside a string literal, stands for that character's LIKE reading. |
| Escaping.LikeEncodingLexesAll | src/Connection.php:294 | The whole interior reads as `LiteralRead(v)` and leaves the rest of the literal to follow. |
| Escaping.PatternOfRead | src/Connection.php:294 | As a LIKE pattern, that reading matches the characters of `v` literally (a NUL becomes NUL, `0`, `0`). |
| Escaping.EscapeLikeShape | src/Connection.php:295 | A proof helper for `EscapeLikeLexes`: `escapeLike(v, pos)` is `'`, then `%` iff `pos <= 0`, the encoded text, `%` iff `pos >= 0`, and `'`. |
| Escaping.EscapeLikeLexes | src/Connection.php:293-296 | MySQL reads the result as exactly one string literal: the wildcards around `LiteralRead(v)`. |
| Escaping.EscapeLikeMeaning | src/Connection.php:293-296 | The literal's LIKE pattern is `%` if `pos <= 0`, then `v` matched literally, then `%` if `pos >= 0`. |
| Escaping.PatternOfLiteral | src/Connection.php:294 | Without NUL characters in `v`, the pattern matches exactly `v`. |
| Escaping.EscapeLikeNul | src/Connection.php:294 | With a NUL anywhere in `v`, the pattern does not match `v` literally: each NUL stands for NUL followed by `00`. This follows from the `\000` form of `addcslashes` next to MySQL's `\0` escape. |
| Escaping.EscapeLikeIntendedMeaning | src/Connection.php:293-296 | With NUL written as `\0`, the output is one string literal whose LIKE pattern is `%` if `pos <= 0`, then `v` matched literally, for every `v`, then `%` if `pos >= 0`. |
| Escaping.EscapeBoolArrayPieces | src/Connection.php:273-275 | `escapeBoolArray` of nulls and booleans is each item's `escapeBool` text joined with commas, in order. A non-empty array splits back into those texts. |
| Escaping.EscapeDetect | src/Connection.php:227-247 | null gives `NULL`. A numeric value is passed through unchanged. Another string goes through `escapeText`, a date-time through `escapeDateTime` and a boolean through `escapeBool`. Any other object is an `InvalidArgumentException`. A success is a string or the numeric value itself. |
| Escaping.DetectArrayFails | src/Connection.php:242-244 | On an array, `escapeDetect` fails iff some element's encoding fails, and then with the exception of the first element that fails. |
| Escaping.EscapeDetectIntegers | src/Connection.php:227-247 | `escapeDetect` of an integer array is the integers' decimal texts joined with commas, in order. A non-empty array splits back into those texts. |
| Escaping.DetectArrayPieces | src/Connection.php:242-244 | The array branch of `escapeDetect`: the elements are encoded in order, cast to text and joined with commas; an empty array gives "". Without commas in the pieces, a non-empty array splits back into them. |
| Escaping.ApplyEscaper | src/Connection.php:102 | The registered encoder is called on the value. The identifier and LIKE encoders succeed exactly on strings. |
| Escaping.Substitute | src/Connection.php:95-106 | Without arguments the query is unchanged. An exception of the first argument is the result. |
| Escaping.SubstituteArg | src/Connection.php:96-105 | A key without `:` succeeds iff its value can be cast to a string. A key whose prefix is not registered throws `InvalidArgumentException` naming the prefix. A query without the key's placeholder is left as it is. |
| Escaping.EncodeAndReplace | src/Connection.php:102-105 | An exception of the encoder is passed on. A query without the placeholder is left as it is. |
| Escaping.SubstituteAppend | src/Connection.php:95-106 | The arguments are applied in order: substituting `a + b` is substituting `a`, then `b`. An exception stops it. |
| Escaping.UnregisteredPrefixThrows | src/Connection.php:96-100 | A key whose prefix up to the first `:` is not registered throws `InvalidArgumentException` naming the prefix, whatever the later arguments are. |
| Escaping.RegisteredPrefixReplaces | src/Connection.php:96-105 | For a registered prefix, the value goes through that encoder and every `":" + rest` is replaced by the result. |
| Escaping.RawKeyReplaces | src/Connection.php:96-105 | A key without `:` replaces every `":" + key` by the value cast to string. |
| Escaping.PlaceholdersAreSearchedAsText | src/Connection.php:105 | Placeholders are plain text. `:id` also rewrites inside `:idx`, and a value containing a placeholder is rewritten by a later argument. |
| Escaping.PrefixOfLongerPlaceholder | src/Connection.php:105 | The first example: `id` rewrites the front of `:idx`. |
| Escaping.InsertedPlaceholder | src/Connection.php:105 | The second example: text put in by `a` is rewritten by `b`. |
| Escaping.DefaultPrefixesSelectable | src/Connection.php:47-78 | Every default prefix ends with its only `:`, so each is reachable by the first-`:` split. |
| Results.FetchedPrefixUnique | src/DefaultResult.php:23-25 | The constructor's loop has one possible stopping point: the first falsy row or the end. |
| Results.DefaultResult.GetSingleScalarResult | src/DefaultResult.php:31-34 | Without rows it is a `TypeError`. An empty first row gives `false`. Otherwise it gives the first column's value of the first row. |
| Results.DefaultResult.GetSingleResult | src/DefaultResult.php:36-38 | Without rows it is a `TypeError`. Otherwise it gives the first row. |
| Results.NewDefaultResult | src/DefaultResult.php:21-29 | It keeps the insert id and the affected-row count. A non-result-set yields no rows. A result set yields the fetched rows up to the first empty one, in order. |
| Results.AllRowsKept | src/DefaultResult.php:21-29 | Without empty rows, every fetched row is kept, so the count is the number of fetched rows. |
| Results.DefaultResult.GetResult | src/DefaultResult.php:40-42 | The kept rows. `getSingleResult` succeeds iff they are not empty, and then is the first of them. |
| Results.DefaultResult.GetCount | src/DefaultResult.php:44-46 | The number of rows `getResult` returns. |
| Results.DefaultResult.GetInsertId | src/DefaultResult.php:48-50 | The insert id the result was built with. |
| Results.DefaultResult.GetAffectedRows | src/DefaultResult.php:52-54 | The affected-row count the result was built with. |
| Results.RowAccessorsAgree | src/DefaultResult.php:31-46 | `getCount` is the length of `getResult`. `getSingleResult` exists iff there are rows and is the first of them. The scalar is its first column. |
| Results.ConnectionResultDelegates | src/ConnectionResult.php:18-49 | `getConnection` is the connection given. Every other accessor equals the wrapped result's. |
| Connections.Connection.constructor | src/Connection.php:41-79 | A new connection is idle, last used `now`, with the default prefix table and no release callback. |
| Connections.Connection.SetEscapeType | src/Connection.php:85-87 | It registers or replaces one prefix. Nothing else changes. |
| Connections.Connection.SetReleaseCallback | src/Connection.php:304-306 | Sets the callback. Nothing else changes. |
| Connections.Connection.Release | src/Connection.php:298-302 | The callback is invoked iff one is set. |
| Connections.Connection.Query | src/Connection.php:114-130 | On a busy connection it throws `InvalidStateException` and nothing changes. Otherwise a new ticket occupies the slot and the query and `now` are recorded. The result is the pending promise, or, after a driver failure, a promise rejected with the classified error while the slot stays occupied. |
| Connections.Connection.QueryWithArgs | src/Connection.php:94-108 | When substitution throws, the exception is thrown and nothing changes. Otherwise it behaves as `query` on the substituted text. |
| Connections.Connection.BeginTransaction | src/Connection.php:183-185 | `query("START TRANSACTION")`. |
| Connections.Connection.Commit | src/Connection.php:190-192 | `query("COMMIT")`. |
| Connections.Connection.Rollback | src/Connection.php:210-212 | `query("ROLLBACK")`. |
| Connections.Connection.FinishAndRelease | src/Connection.php:197-225 | The statement is issued. A promise rejected at once releases at once, iff a callback is set. A pending one is marked so that its settlement releases. A synchronous exception releases nothing and changes nothing. |
| Connections.Connection.CommitAndRelease | src/Connection.php:197-205 | The above for COMMIT. |
| Connections.Connection.RollbackAndRelease | src/Connection.php:217-225 | The above for ROLLBACK. |
| Connections.Connection.Settle | src/Connection.php:150-178 | Frees the slot and settles the pending ticket exactly once. It reports whether a release follows. |
| Connections.Connection.ProcessQueryResult | src/Connection.php:150-167 | The reap sets the handle's error first. With no query pending it throws `InvalidStateException`. Otherwise the pending promise is settled once: rejected with the classified error, or resolved with this connection and a result holding the insert id, the affected rows and the fetched rows. |
| Connections.Connection.ProcessQueryError | src/Connection.php:169-178 | With no query pending it throws and nothing changes. Otherwise the pending promise is rejected once with the handle's classified error. |
| Pools.RemoveId | src/Pool.php:260-265 | Removal by id never lengthens the list. Its other properties are in `RemoveIdGone` and `RemoveIdAt`. |
| Pools.RemoveIdGone | src/Pool.php:260-265 | After removal by id no element carries that id. |
| Pools.RemoveIdAt | src/Pool.php:260-265 | With distinct ids, removal by the id of one element removes exactly that element and keeps the order of the rest. |
| Pools.RemovalKeepsIds | src/Pool.php:258-268 | Removing by id a connection that is idle or busy takes out exactly one connection. No id is then repeated or shared between the two lists. |
| Pools.ReapLimitGrace | src/Pool.php:69 | A connection is stale iff it has been idle for more than the server's timeout minus five seconds. |
| Pools.StaleRecentSplit | src/Pool.php:69-75 | Each idle connection is in exactly one part: stale iff last used before the limit. |
| Pools.AfterOverride | src/Pool.php:85-95 | An override below 10 is ignored, and none raises the timeout. |
| Pools.AfterServer | src/Pool.php:66 | The server value sets the timeout to the smaller of it and the current one. |
| Pools.ServerValueCommutes | src/Pool.php:64-95 | Whether the server's value arrives before or after the overrides, the timeout ends the same. |
| Pools.ApplyOverridesMinimum | src/Pool.php:85-95 | After any overrides the timeout is the minimum of the start value and the overrides of at least 10. |
| Pools.Pool.constructor | src/Pool.php:56-62 | An empty pool: nothing idle, busy or queued, no timers, no shutdown. |
| Pools.Pool.UpdateTimer | src/Pool.php:245-256 | A polling timer exists iff some connection is busy. An existing timer is kept, so there is never a second one. |
| Pools.Pool.CloseAndRemoveConnection | src/Pool.php:258-268 | Closes the handle and removes the connection from the idle and busy lists. The count drops by exactly one. Nothing else changes, including the polling timer. |
| Pools.Pool.CloseAvailable | src/Pool.php:204-206 | Closes every idle connection, in order. |
| Pools.Pool.CloseUsed | src/Pool.php:209-237 | Closes every busy connection, in attach order. |
| Pools.Pool.CloseFirstAvailable | src/Pool.php:204-206 | One iteration of closing the idle connections: the first one is closed and logged. |
| Pools.Pool.CloseFirstUsed | src/Pool.php:209-214 | One iteration of closing the busy connections: the first one is closed and logged. |
| Pools.Pool.GetConnection | src/Pool.php:98-125 | With idle connections it pops the most recently parked one into the busy list, the count unchanged. Otherwise, at capacity, it only appends a new waiter. Otherwise it increments the count and starts a create. The count never exceeds the capacity. |
| Pools.Pool.CompleteCreate | src/Pool.php:114-120 | The new connection becomes busy and gets the pool's release callback, and the timer is updated. The connection's other fields are unchanged, and a valid connection stays valid. |
| Pools.Pool.FailCreate | src/Pool.php:121-124 | The increment is undone exactly and the caller sees the factory's exception. |
| Pools.Pool.Release | src/Pool.php:127-146 | Nothing happens unless the connection is busy and its id is not idle, so a second release after parking or closing is ignored. Then, in priority order: during a shutdown the connection is closed, and the shutdown settles when the count reaches 0; with a connection-issue errno it is closed; with no waiters it is parked at the end of the idle list; otherwise this connection goes to the oldest waiter and stays busy. In the shutdown case the shutdown counter, the armed shutdown timers, the queue and the other timers are unchanged; the pending shutdown is kept unless it settles. |
| Pools.Pool.CloseReleased | src/Pool.php:129-136 | Closing a released connection leaves the idle list unchanged. |
| Pools.Pool.CloseForShutdown | src/Pool.php:129-134 | Releasing during a shutdown closes the connection. The shutdown settles iff the count reaches 0. |
| Pools.Pool.HandOver | src/Pool.php:141-144 | The oldest waiter is dequeued and receives this connection, which stays busy. |
| Pools.Pool.Park | src/Pool.php:137-140 | A parked connection moves from the busy list to the end of the idle list. |
| Pools.Pool.CheckConnectionResults | src/Pool.php:172-197 | With nothing busy, or a failed poll, nothing happens. Otherwise each readable connection's pending promise is settled from its reap, then each errored one's is rejected with its handle's error; the first throw stops the tick. Connections the poll does not report are untouched. The tick throws only if a listed connection has no pending promise by its turn. It always throws when a readable one had none at the start, or an errored one has none by its turn. |
| Pools.Pool.ProcessReadable | src/Pool.php:185-189 | Each readable connection's pending promise is settled from its reap, in order; connections not listed are untouched. It throws only at an entry with no pending promise by its turn: none at the start, or an earlier entry for the same connection. It always throws when some entry had none at the start. |
| Pools.Pool.ProcessErrored | src/Pool.php:191-196 | Each errored connection's pending promise is rejected with its handle's error; others are untouched. It throws iff some entry has no pending promise by its turn. |
| Pools.Pool.WaitAndClose | src/Pool.php:199-243 | While a shutdown is pending it returns that shutdown and nothing changes. Otherwise it closes every idle connection. With timeout 0 it also closes every busy one and returns settled. With connections left it becomes pending, arming a timer iff a timeout is given. With none left it returns settled. |
| Pools.Pool.ShutdownTimerFires | src/Pool.php:221-237 | Without a pending shutdown it does nothing. Otherwise it closes every busy and then every idle connection and settles the shutdown. |
| Pools.Pool.SetIdleConnectionTimeout | src/Pool.php:85-95 | The timeout becomes `AfterOverride` of the old one. Nothing else changes. |
| Pools.Pool.ServerWaitTimeoutKnown | src/Pool.php:65-68 | The timeout becomes `AfterServer` of the old one and the reaping timer starts. |
| Pools.Pool.ReapTick | src/Pool.php:68-76 | Closes exactly the idle connections last used before `now - waitTimeout + 5`, in order. The others stay idle, in order. |
| Pools.Pool.ReapAt | src/Pool.php:71-75 | One iteration of the reaping loop. |
| Pools.Pool.ReapOne | src/Pool.php:72-74 | Closing one stale connection removes exactly it from between the kept connections and the ones not yet examined. |
| Pools.ReapStep | src/Pool.php:71-75 | The stale and recent parts grow by one element per step. |

## Left out

- Asynchrony. Continuations attached to promises are not run. In particular:
  - the release that `commitAndRelease` or `rollbackAndRelease` attaches is reported by `ProcessQueryResult`/`ProcessQueryError` (`releaseDue`) rather than performed;
  - a connection's release callback is reported by `Connection.Release`, and the caller is expected to call `Pool.Release`.
  - As a result, `CheckConnectionResults` does not model a continuation that releases a connection in the middle of the tick.
- `Pool::query` and `Pool::queryWithArgs`, which are `getConnection`, then a query, then `release` chained with promises, are left out for the same reason.
- The factory. `DefaultConnectionFactory` is connection setup I/O. `CompleteCreate` requires a connection id not already in the pool, which the factory's counter provides (src/DefaultConnectionFactory.php:47, 100).
- The `SHOW VARIABLES` query issued on the first tick. Its answer is the parameter of `ServerWaitTimeoutKnown`, as an integer; the source receives it as a numeric string.
- The polling interval (a float), the logger, `time()`, `setTimerInterval` and `setLogger`. Time is the parameter `now`.
- Driver handles. A busy connection's handle is identified with the connection. The driver's error is the connection's `errno`/`error` fields. `mysqli_close` is recorded as the id in `Pool.closed`.
- `escapeText`/`escapeBinary` quote the result of `realEscape`, which stays a parameter. `RealEscapeUtf8` is a reference for it on a UTF-8 (or single-byte) connection, and `EscapeTextLexes` holds for any escaping MySQL reads back. `NO_BACKSLASH_ESCAPES` is not modelled.
- Multibyte character sets. Strings are sequences of characters, not bytes. Under sjis, gbk or big5, a backslash or backtick byte can be the second byte of a character. So `QuoteIdentifierLexes`, `EscapeLikeLexes`, `EscapeLikeMeaning` and `RealEscapeUtf8ReadsBack` hold for UTF-8 (the connection default) and single-byte character sets only.
- PHP version. The model follows PHP 8. `is_numeric` accepts trailing white space (PHP 7 rejects `"1 "`), and `current()` of `false` throws a `TypeError` (PHP 7 warns and returns null). An object with `__toString` is the value `Stringable`: it casts to its text and is not numeric.
- `DateTimeInterface::format`. A date-time value is given as its already formatted date and time parts.
- Weak-mode coercion of callback arguments by `call_user_func`. An encoder given a value of the wrong type fails with `TypeError`.
- Integer array keys. Each argument key of `queryWithArgs` is a string.
- `Results.DefaultResult.GetSingleResult`: with no rows the source's return type check throws a `TypeError`. This is modelled as a failure result rather than a precondition.
- `Pools.Pool.CheckConnectionResults`: `mysqli_poll` is an input. Its lists must name busy connections, and each readable one comes with what its reap yields.
- `Pools.Pool.ProcessReadable`: when the readable list names one connection twice, the contract does not say that the second entry throws. So its two throw clauses form an if-and-only-if only for lists without repeats, and `mysqli_poll` lists each handle at most once. The same holds for the readable part of `Pools.Pool.CheckConnectionResults`.
- Shutdown timers are counted, not told apart. A timer armed for a shutdown that has already settled consumes nothing but itself, and would close and settle a later pending shutdown, as the source's closure does.
- When the driver refuses to send a query, `query` returns a rejected promise but leaves its deferred set, so the connection reports "already in use" until a later reap or poll error clears it. `Connections.Connection.Query` keeps the slot occupied in that case, as the source does.
- After closing, the polling timer is not updated (`closeAndRemoveConnection` does not call `updateTimer`), so a timer may outlive the last busy connection. The model keeps this.

## Findings

| source | as written | input that shows it | evidently intended | confidence | as-written member | corrected member |
|---|---|---|---|---|---|---|
| src/Connection.php:294 | `addcslashes` writes NUL as the octal escape `\000`; MySQL has no octal escapes and reads `\0` as NUL, then the text `00` | the LIKE value `"a\0b"`: the pattern matches `a`, NUL, `0`, `0`, `b` | NUL written as `\0`, so every value is matched literally | not executed | Escaping.EscapeLikeNul | Escaping.EscapeLikeIntendedMeaning |

`ApplyEscaper` keeps the as-written `EscapeLike`, so the prefix table behaves as the source does; `EscapeLikeIntended` is the corrected encoder and `EscapeLikeIntendedMeaning` its proved meaning.
