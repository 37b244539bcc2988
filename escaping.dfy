/**
 * The escapers of `Connection` and the placeholder substitution of `queryWithArgs`.
 * `mysqli_real_escape_string` is foreign: it is the parameter `realEscape`, fixed per
 * connection (it depends on the handle's character set).
 */
module Escaping {
  import opened Wrappers
  import opened Strings
  import opened Errors
  import opened Values
  import opened MySqlSyntax

  /** The encoders a prefix can be registered with (`escapeTypes`' values). */
  datatype Escaper =
    | ByDetect
    | ByText
    | ByTextArray
    | ByNumber
    | ByNumberArray
    | ByBool
    | ByBoolArray
    | ByDate
    | ByDateArray
    | ByDateTime
    | ByDateTimeArray
    | ByBinary
    | ByBinaryArray
    | ByIdentifier
    | ByLike(pos: int)
      /** A callable registered with `setEscapeType`; what it does is the caller's code. */
    | ByCallback(callback: Value -> Result<Value, Exception>)

  function WrongType(expected: string): Exception {
    TypeError("Argument #1 ($value) must be of type " + expected)
  }

  /**
   * `escapeText`: it accepts exactly null and strings; null gives NULL, a string the
   * driver-escaped text between single quotes. `EscapeTextLexes` gives its meaning.
   */
  function EscapeText(v: Value, realEscape: string -> string): (r: Result<string, Exception>)
    ensures r.Success? <==> v.Null? || v.Str?
    ensures v.Null? ==> r == Success("NULL")
    ensures v.Str? ==> r == Success("'" + realEscape(v.s) + "'")
  {
    match v
    case Null => Success("NULL")
    case Str(s) => Success("'" + realEscape(s) + "'")
    case _ => Failure(WrongType("?string"))
  }

  /** `escapeBinary`: `escapeText`, with the `_binary` introducer before a string's literal. */
  function EscapeBinary(v: Value, realEscape: string -> string): (r: Result<string, Exception>)
    ensures r.Success? <==> v.Null? || v.Str?
    ensures v.Null? ==> r == Success("NULL")
    ensures v.Str? ==> r == Success("_binary'" + realEscape(v.s) + "'")
    ensures !v.Str? ==> r == EscapeText(v, realEscape)
  {
    if v.Str? then
      var quoted := EscapeText(v, realEscape).value;
      assert "_binary" + quoted == "_binary'" + realEscape(v.s) + "'";
      Success("_binary" + quoted)
    else EscapeText(v, realEscape)
  }

  /** `escapeIdentifier` on a string: between backticks, each backtick doubled. */
  function QuoteIdentifier(s: string): string {
    "`" + ReplaceAll(s, "`", "``") + "`"
  }

  /** `escapeIdentifier`: it accepts exactly strings, and MySQL reads its output back as the name. */
  function EscapeIdentifier(v: Value): (r: Result<string, Exception>)
    ensures r.Success? <==> v.Str?
    ensures r.Success? ==> LexIdentifier(r.value) == Some((v.s, ""))
  {
    if v.Str? then
      QuoteIdentifierLexes(v.s);
      Success(QuoteIdentifier(v.s))
    else Failure(WrongType("string"))
  }

  /** `escapeBool`. */
  function EscapeBool(v: Value): (r: Result<string, Exception>)
    ensures r.Success? <==> v.Null? || v.Bool?
    ensures r.Success? ==> r.value == (if v.Null? then "NULL" else if v.b then "1" else "0")
  {
    match v
    case Null => Success("NULL")
    case Bool(b) => Success(if b then "1" else "0")
    case _ => Failure(WrongType("?bool"))
  }

  /**
   * `escapeDate`: it accepts exactly null and date-times; a date-time gives its date
   * formatted as 'Y-m-d', quotes included. `EscapeDateLexes` gives its meaning.
   */
  function EscapeDate(v: Value): (r: Result<string, Exception>)
    ensures r.Success? <==> v.Null? || v.DateTime?
    ensures v.Null? ==> r == Success("NULL")
    ensures v.DateTime? ==> r == Success("'" + v.date + "'")
  {
    match v
    case Null => Success("NULL")
    case DateTime(date, _) => Success("'" + date + "'")
    case _ => Failure(WrongType("?DateTimeInterface"))
  }

  /**
   * `escapeDateTime`: as `escapeDate`, with the moment formatted as 'Y-m-d H:i:s.u'.
   * `EscapeDateTimeLexes` gives its meaning.
   */
  function EscapeDateTime(v: Value): (r: Result<string, Exception>)
    ensures r.Success? <==> v.Null? || v.DateTime?
    ensures v.Null? ==> r == Success("NULL")
    ensures v.DateTime? ==> r == Success("'" + v.date + " " + v.time + "'")
  {
    match v
    case Null => Success("NULL")
    case DateTime(date, time) => Success("'" + date + " " + time + "'")
    case _ => Failure(WrongType("?DateTimeInterface"))
  }

  /** The `n:` and `number:` encoders: NULL for null, any other value passed through. */
  function EscapeNumber(v: Value): (r: Value)
    ensures v.Null? ==> r == Str("NULL")
    ensures !v.Null? ==> r == v
  {
    if v.Null? then Str("NULL") else v
  }

  /** The characters `escapeLike` hands to `addcslashes`. */
  const LikeSpecials: set<char> := {'\0', '\n', '\r', '\\', '\'', '%', '_'}

  /** The three octal digits `addcslashes` writes for a byte. */
  function Octal(n: nat): string
    requires n < 256
  {
    [DigitChar(n / 64), DigitChar((n / 8) % 8), DigitChar(n % 8)]
  }

  /** The C-style escape `addcslashes` writes after the backslash for a control or non-ASCII character. */
  function CEscape(c: char): string {
    if c == '\n' then "n"
    else if c == '\t' then "t"
    else if c == '\r' then "r"
    else if c == '\U{07}' then "a"
    else if c == '\U{0B}' then "v"
    else if c == '\U{08}' then "b"
    else if c == '\U{0C}' then "f"
    else Octal((c as int) % 256)
  }

  function CSlash(c: char, list: set<char>): (r: string)
    ensures |r| >= 1
    ensures c !in list ==> r == [c]
    ensures c in list ==> r[0] == '\\'
  {
    if c !in list then [c]
    else if (c as int) < 32 || (c as int) > 126 then "\\" + CEscape(c)
    else ['\\', c]
  }

  /**
   * `addcslashes($s, $list)`: a backslash before each listed character, C-style for
   * control characters. It never shortens the text, and a text without listed
   * characters comes back unchanged.
   */
  function AddCSlashes(s: string, list: set<char>): (r: string)
    ensures |r| >= |s|
    ensures (forall k :: 0 <= k < |s| ==> s[k] !in list) ==> r == s
  {
    if s == [] then []
    else
      assert s == [s[0]] + s[1..];
      assert forall k :: 0 <= k < |s[1..]| ==> s[1..][k] == s[k + 1];
      CSlash(s[0], list) + AddCSlashes(s[1..], list)
  }

  /**
   * `escapeLike($s, $pos)`: a quoted LIKE pattern, with `%` before it iff `pos <= 0` and
   * after it iff `pos >= 0`. `EscapeLikeMeaning` gives its meaning.
   */
  function EscapeLike(s: string, pos: int): (r: string)
    ensures |r| >= 2 && r[0] == '\'' && r[|r| - 1] == '\''
  {
    (if pos <= 0 then "'%" else "'")
    + AddCSlashes(ReplaceAll(s, "\\", "\\\\"), LikeSpecials)
    + (if pos >= 0 then "%'" else "'")
  }

  function AsValue(r: Result<string, Exception>): Result<Value, Exception> {
    match r
    case Success(s) => Success(Str(s))
    case Failure(e) => Failure(e)
  }

  /**
   * The array variants: the encoder applied to each element in order (the first
   * exception stops it), then `implode(',', …)`. A non-array is a `TypeError`.
   */
  function EscapeEach(v: Value, f: Value -> Result<Value, Exception>): (r: Result<Value, Exception>)
    ensures !v.Array? ==> r == Failure(WrongType("array"))
    ensures v.Array? ==> (r.Success? <==> forall k :: 0 <= k < |v.items| ==>
                            f(v.items[k]).Success? && !f(v.items[k]).value.DateTime? && !f(v.items[k]).value.Object?)
    ensures r.Success? ==> r.value.Str?
  {
    match v
    case Array(items) =>
      var rs := seq(|items|, k requires 0 <= k < |items| => f(items[k]));
      assert forall k :: 0 <= k < |items| ==> rs[k] == f(items[k]);
      var escaped :- Collect(rs);
      assert forall k :: 0 <= k < |items| ==> escaped[k] == f(items[k]).value;
      var joined :- Implode(escaped);
      Success(Str(joined))
    case _ => Failure(WrongType("array"))
  }

  /**
   * `escapeDetect`: NULL for null, numbers unchanged, text through `escapeText`, dates
   * through `escapeDateTime`, booleans through `escapeBool`, arrays element by element
   * and joined with commas; anything else is an `InvalidArgumentException`.
   */
  function EscapeDetect(v: Value, realEscape: string -> string): (r: Result<Value, Exception>)
    ensures v.Null? ==> r == Success(Str("NULL"))
    ensures IsNumeric(v) ==> r == Success(v)
    ensures v.Str? && !IsNumeric(v) ==> r == Success(Str("'" + realEscape(v.s) + "'"))
    ensures v.DateTime? ==> r == Success(Str("'" + v.date + " " + v.time + "'"))
    ensures v.Bool? ==> r == Success(Str(if v.b then "1" else "0"))
    ensures v.Stringable? || v.Object? ==> r == Failure(InvalidArgumentException("Unknown type of argument"))
    ensures r.Success? ==> r.value.Str? || (IsNumeric(v) && r.value == v)
    decreases v
  {
    if v.Null? then Success(Str("NULL"))
    else if IsNumeric(v) then Success(v)
    else if v.Str? then AsValue(EscapeText(v, realEscape))
    else if v.DateTime? then AsValue(EscapeDateTime(v))
    else if v.Bool? then AsValue(EscapeBool(v))
    else if v.Array? then
      var items := v.items;
      var rs := seq(|items|, k requires 0 <= k < |items| => EscapeDetect(items[k], realEscape));
      assert forall k :: 0 <= k < |items| ==> rs[k] == EscapeDetect(items[k], realEscape);
      var escaped :- Collect(rs);
      assert forall k :: 0 <= k < |items| ==> !escaped[k].DateTime? && !escaped[k].Object?;
      var joined :- Implode(escaped);
      Success(Str(joined))
    else Failure(InvalidArgumentException("Unknown type of argument"))
  }

  /**
   * On an array, `escapeDetect` fails iff some element does, and then with the exception
   * of the first element that fails: `array_map` stops at the first throw.
   */
  lemma DetectArrayFails(items: seq<Value>, realEscape: string -> string)
    ensures EscapeDetect(Array(items), realEscape).Failure? <==>
            exists k :: 0 <= k < |items| && EscapeDetect(items[k], realEscape).Failure?
    ensures EscapeDetect(Array(items), realEscape).Failure? ==>
      exists k :: 0 <= k < |items| && EscapeDetect(items[k], realEscape) == Failure(EscapeDetect(Array(items), realEscape).error)
                  && forall j :: 0 <= j < k ==> EscapeDetect(items[j], realEscape).Success?
  {
    var rs := seq(|items|, k requires 0 <= k < |items| => EscapeDetect(items[k], realEscape));
    DetectArrayCollects(items, realEscape, rs);
  }

  /** `escapeDetect` on an array fails exactly as collecting its elements' encodings does. */
  lemma DetectArrayCollects(items: seq<Value>, realEscape: string -> string, rs: seq<Result<Value, Exception>>)
    requires |rs| == |items| && forall k :: 0 <= k < |items| ==> rs[k] == EscapeDetect(items[k], realEscape)
    ensures EscapeDetect(Array(items), realEscape).Failure? <==> Collect(rs).Failure?
    ensures Collect(rs).Failure? ==> EscapeDetect(Array(items), realEscape) == Failure(Collect(rs).error)
  {
    var rs' := seq(|items|, k requires 0 <= k < |items| => EscapeDetect(items[k], realEscape));
    assert rs' == rs;
    if Collect(rs).Success? {
      DetectedImplode(items, realEscape, Collect(rs).value);
    }
  }

  /** The encodings of an array's elements never fail to convert to strings. */
  lemma DetectedImplode(items: seq<Value>, realEscape: string -> string, escaped: seq<Value>)
    requires |escaped| == |items| && forall k :: 0 <= k < |items| ==> EscapeDetect(items[k], realEscape) == Success(escaped[k])
    ensures Implode(escaped).Success?
  {
    forall k | 0 <= k < |items| ensures !escaped[k].DateTime? && !escaped[k].Object? {
      assert EscapeDetect(items[k], realEscape).Success?;
    }
  }

  /** `escapeBool` as the element encoder of `escapeBoolArray`. */
  function BoolElement(x: Value): Result<Value, Exception> {
    AsValue(EscapeBool(x))
  }

  /** Calls the encoder registered for a prefix on an argument value. */
  function ApplyEscaper(e: Escaper, v: Value, realEscape: string -> string): (r: Result<Value, Exception>)
    ensures e.ByIdentifier? || e.ByLike? ==> (r.Success? <==> v.Str?)
  {
    match e
    case ByDetect => EscapeDetect(v, realEscape)
    case ByText => AsValue(EscapeText(v, realEscape))
    case ByTextArray => EscapeEach(v, x => AsValue(EscapeText(x, realEscape)))
    case ByNumber => Success(EscapeNumber(v))
    case ByNumberArray => EscapeEach(v, x => Success(EscapeNumber(x)))
    case ByBool => AsValue(EscapeBool(v))
    case ByBoolArray => EscapeEach(v, BoolElement)
    case ByDate => AsValue(EscapeDate(v))
    case ByDateArray => EscapeEach(v, x => AsValue(EscapeDate(x)))
    case ByDateTime => AsValue(EscapeDateTime(v))
    case ByDateTimeArray => EscapeEach(v, x => AsValue(EscapeDateTime(x)))
    case ByBinary => AsValue(EscapeBinary(v, realEscape))
    case ByBinaryArray => EscapeEach(v, x => AsValue(EscapeBinary(x, realEscape)))
    case ByIdentifier => AsValue(EscapeIdentifier(v))
    case ByLike(pos) => if v.Str? then Success(Str(EscapeLike(v.s, pos))) else Failure(WrongType("string"))
    case ByCallback(callback) => callback(v)
  }

  /**
   * Every array variant rejects a value that is not an array with a `TypeError`,
   * before any element is encoded.
   */
  lemma ArrayEscapersRejectScalars(e: Escaper, v: Value, realEscape: string -> string)
    requires IsArrayEscaper(e) && !v.Array?
    ensures ApplyEscaper(e, v, realEscape) == Failure(WrongType("array"))
  {
  }

  /** The encoders that take an array and join the encoded elements. */
  predicate IsArrayEscaper(e: Escaper) {
    e.ByTextArray? || e.ByNumberArray? || e.ByBoolArray? || e.ByDateArray? || e.ByDateTimeArray? || e.ByBinaryArray?
  }

  /** The prefixes a new connection registers: each ends with `:`, and each names a built-in encoder. */
  function DefaultEscapeTypes(): map<string, Escaper> {
    map[
      ":" := ByDetect, "detect:" := ByDetect,
      "t:" := ByText, "ta:" := ByTextArray, "text:" := ByText, "texts:" := ByTextArray,
      "n:" := ByNumber, "na:" := ByNumberArray, "number:" := ByNumber, "numbers:" := ByNumberArray,
      "b:" := ByBool, "ba:" := ByBoolArray, "bool:" := ByBool, "bools:" := ByBoolArray,
      "d:" := ByDate, "da:" := ByDateArray, "date:" := ByDate, "dates:" := ByDateArray,
      "dt:" := ByDateTime, "dta:" := ByDateTimeArray, "datetime:" := ByDateTime, "datetimes:" := ByDateTimeArray,
      "binary:" := ByBinary, "binaries:" := ByBinaryArray,
      "id:" := ByIdentifier, "table:" := ByIdentifier, "field:" := ByIdentifier,
      "%like%:" := ByLike(0), "%like:" := ByLike(-1), "like%:" := ByLike(1)
    ]
  }

  /**
   * One step of `queryWithArgs`. A key with a ':' is split after its first ':'; the part
   * up to and including it must be a registered prefix, the encoder's result replaces
   * every ":rest". A key without ':' replaces every ":key" with the value as given.
   */
  function SubstituteArg(types: map<string, Escaper>, realEscape: string -> string,
                         query: string, key: string, value: Value): (r: Result<string, Exception>)
    ensures ':' !in key ==> (r.Success? <==> !value.DateTime? && !value.Object?)
    ensures ':' in key && key[..FirstIndex(key, ':').value + 1] !in types
            ==> r == Failure(InvalidArgumentException("Escape type " + key[..FirstIndex(key, ':').value + 1] + " not found!"))
    ensures r.Success? && !Occurs(query, ":" + PlaceholderName(key)) ==> r.value == query
  {
    match FirstIndex(key, ':')
    case None =>
      var text :- CastToString(value);
      Success(ReplaceAll(query, ":" + key, text))
    case Some(pos) =>
      var prefix := key[..pos + 1];
      if prefix !in types then Failure(InvalidArgumentException("Escape type " + prefix + " not found!"))
      else EncodeAndReplace(types[prefix], realEscape, query, key[pos + 1..], value)
  }

  /** The placeholder an argument key names: the key after its first ':', or the whole key. */
  function PlaceholderName(key: string): string {
    match FirstIndex(key, ':')
    case None => key
    case Some(pos) => key[pos + 1..]
  }

  /**
   * The encoder's result, converted to a string, replaces every ":name". An exception
   * of the encoder is passed on, and a query without the placeholder is left as it is.
   */
  function EncodeAndReplace(e: Escaper, realEscape: string -> string,
                            query: string, name: string, value: Value): (r: Result<string, Exception>)
    ensures ApplyEscaper(e, value, realEscape).Failure? ==> r == Failure(ApplyEscaper(e, value, realEscape).error)
    ensures r.Success? && !Occurs(query, ":" + name) ==> r.value == query
  {
    var escaped :- ApplyEscaper(e, value, realEscape);
    var text :- CastToString(escaped);
    Success(ReplaceAll(query, ":" + name, text))
  }

  /** `queryWithArgs`' rewriting of the query: the arguments in order; the first exception stops it. */
  function Substitute(types: map<string, Escaper>, realEscape: string -> string,
                      query: string, args: seq<(string, Value)>): (r: Result<string, Exception>)
    ensures args == [] ==> r == Success(query)
    ensures args != [] && SubstituteArg(types, realEscape, query, args[0].0, args[0].1).Failure?
            ==> r == SubstituteArg(types, realEscape, query, args[0].0, args[0].1)
    decreases |args|
  {
    if args == [] then Success(query)
    else
      var next :- SubstituteArg(types, realEscape, query, args[0].0, args[0].1);
      Substitute(types, realEscape, next, args[1..])
  }

  // ---------------------------------------------------------------------------------
  // String literals

  /**
   * What `mysqli_real_escape_string` writes for one character under a single-byte or
   * UTF-8 character set: a backslash before NUL, newline, carriage return, backslash,
   * both quotes and Control-Z (NUL, newline, carriage return and Control-Z as `\0`,
   * `\n`, `\r`, `\Z`), every other character as itself.
   */
  function RealEscapeOf(c: char): string {
    if c == '\0' then "\\0"
    else if c == '\n' then "\\n"
    else if c == '\r' then "\\r"
    else if c == '\U{1A}' then "\\Z"
    else if c == '\\' || c == '\'' || c == '"' then ['\\', c]
    else [c]
  }

  /** A reference `mysqli_real_escape_string` for a UTF-8 connection. */
  function RealEscapeUtf8(s: string): string {
    if s == [] then [] else RealEscapeOf(s[0]) + RealEscapeUtf8(s[1..])
  }

  /**
   * A driver escaping that MySQL's literal reader undoes: whatever follows the escaped
   * text, the reader gives back the original text first.
   */
  ghost predicate ReadsBack(realEscape: string -> string) {
    forall t, tail :: LexStringBody(realEscape(t) + tail) == Prepend(t, LexStringBody(tail))
  }

  lemma RealEscapeOfLexes(c: char, rest: string)
    ensures LexStringBody(RealEscapeOf(c) + rest) == Prepend([c], LexStringBody(rest))
  {
    var e := RealEscapeOf(c);
    if c == '\0' || c == '\n' || c == '\r' || c == '\U{1A}' || c == '\\' || c == '\'' || c == '"' {
      assert |e| == 2 && e[0] == '\\';
      assert (e + rest)[0] == '\\' && (e + rest)[1] == e[1];
      assert (e + rest)[2..] == rest;
      assert UnescapeLiteralChar(e[1]) == [c];
    } else {
      assert e == [c];
      assert (e + rest)[0] == c;
      assert (e + rest)[1..] == rest;
    }
  }

  /** The inductive step of `RealEscapeLexesAll`: one more character in front. */
  lemma RealEscapeLexesStep(s: string, tail: string)
    requires s != []
    requires LexStringBody(RealEscapeUtf8(s[1..]) + tail) == Prepend(s[1..], LexStringBody(tail))
    ensures LexStringBody(RealEscapeUtf8(s) + tail) == Prepend(s, LexStringBody(tail))
  {
    var rest := RealEscapeUtf8(s[1..]) + tail;
    ConcatAssoc(RealEscapeOf(s[0]), RealEscapeUtf8(s[1..]), tail);
    RealEscapeOfLexes(s[0], rest);
    PrependPrepend([s[0]], s[1..], LexStringBody(tail));
    assert [s[0]] + s[1..] == s;
  }

  lemma {:induction false} RealEscapeLexesAll(s: string, tail: string)
    ensures LexStringBody(RealEscapeUtf8(s) + tail) == Prepend(s, LexStringBody(tail))
  {
    if s == [] {
      assert RealEscapeUtf8(s) + tail == tail;
      PrependEmpty(LexStringBody(tail));
    } else {
      RealEscapeLexesAll(s[1..], tail);
      RealEscapeLexesStep(s, tail);
    }
  }

  /** The reference escaping is read back by MySQL. */
  lemma RealEscapeUtf8ReadsBack()
    ensures ReadsBack(RealEscapeUtf8)
  {
    forall t, tail ensures LexStringBody(RealEscapeUtf8(t) + tail) == Prepend(t, LexStringBody(tail)) {
      RealEscapeLexesAll(t, tail);
    }
  }

  /** Text inside quotes that the escaping reads back is the quoted string literal of that text. */
  lemma QuotedReadsBack(realEscape: string -> string, s: string)
    requires ReadsBack(realEscape)
    ensures LexStringLiteral("'" + realEscape(s) + "'") == Some((s, ""))
  {
    var q := "'" + realEscape(s) + "'";
    assert q[1..] == realEscape(s) + "'";
    assert LexStringBody(realEscape(s) + "'") == Prepend(s, LexStringBody("'"));
    assert "'"[1..] == "";
    assert LexStringBody("'") == Some(("", ""));
    assert s + "" == s;
  }

  /**
   * With an escaping MySQL reads back (such as `RealEscapeUtf8`), `escapeText` of a
   * string is one string literal spanning the whole output, whose value is the string.
   */
  lemma EscapeTextLexes(realEscape: string -> string, s: string)
    requires ReadsBack(realEscape)
    ensures EscapeText(Str(s), realEscape).Success?
    ensures LexStringLiteral(EscapeText(Str(s), realEscape).value) == Some((s, ""))
  {
    QuotedReadsBack(realEscape, s);
  }

  /** The same for `escapeBinary`: after the `_binary` introducer comes the literal of the string. */
  lemma EscapeBinaryLexes(realEscape: string -> string, s: string)
    requires ReadsBack(realEscape)
    ensures EscapeBinary(Str(s), realEscape).Success?
    ensures EscapeBinary(Str(s), realEscape).value[..7] == "_binary"
    ensures LexStringLiteral(EscapeBinary(Str(s), realEscape).value[7..]) == Some((s, ""))
  {
    QuotedReadsBack(realEscape, s);
    var b := EscapeBinary(Str(s), realEscape).value;
    assert b == "_binary" + ("'" + realEscape(s) + "'");
  }

  /** Text without quotes or backslashes is read inside a literal as itself. */
  lemma {:induction false} PlainLexes(p: string, tail: string)
    requires forall j :: 0 <= j < |p| ==> p[j] != '\'' && p[j] != '\\'
    ensures LexStringBody(p + tail) == Prepend(p, LexStringBody(tail))
  {
    if p == [] {
      assert p + tail == tail;
      PrependEmpty(LexStringBody(tail));
    } else {
      PlainLexes(p[1..], tail);
      assert (p + tail)[0] == p[0] && (p + tail)[1..] == p[1..] + tail;
      PrependPrepend([p[0]], p[1..], LexStringBody(tail));
      assert [p[0]] + p[1..] == p;
    }
  }

  /**
   * A formatted date holds digits and dashes only, so `escapeDate`'s output is one string
   * literal, spanning the whole output, whose value is the formatted date.
   */
  lemma EscapeDateLexes(date: string, time: string)
    requires forall j :: 0 <= j < |date| ==> date[j] != '\'' && date[j] != '\\'
    ensures LexStringLiteral(EscapeDate(DateTime(date, time)).value) == Some((date, ""))
  {
    var q := EscapeDate(DateTime(date, time)).value;
    assert q[1..] == date + "'";
    PlainLexes(date, "'");
    assert "'"[1..] == "";
    assert LexStringBody("'") == Some(("", ""));
    assert date + "" == date;
  }

  /** The same for `escapeDateTime`: the literal's value is the date, a space and the time. */
  lemma EscapeDateTimeLexes(date: string, time: string)
    requires forall j :: 0 <= j < |date| ==> date[j] != '\'' && date[j] != '\\'
    requires forall j :: 0 <= j < |time| ==> time[j] != '\'' && time[j] != '\\'
    ensures LexStringLiteral(EscapeDateTime(DateTime(date, time)).value) == Some((date + " " + time, ""))
  {
    var text := date + " " + time;
    var q := EscapeDateTime(DateTime(date, time)).value;
    assert q[1..] == text + "'";
    assert forall j :: 0 <= j < |text| ==> text[j] == (if j < |date| then date[j] else if j == |date| then ' ' else time[j - |date| - 1]);
    PlainLexes(text, "'");
    assert "'"[1..] == "";
    assert LexStringBody("'") == Some(("", ""));
    assert text + "" == text;
  }

  // ---------------------------------------------------------------------------------
  // Identifiers

  /** Quoting adds two backticks and doubles each backtick inside. */
  lemma QuoteIdentifierLength(s: string)
    ensures |QuoteIdentifier(s)| == |s| + 2 + Count(s, '`')
  {
    ReplaceAllOneChar(s, '`', "``");
    ReplaceCharLength(s, '`', "``");
  }

  lemma PrependEmpty(r: Option<(string, string)>)
    ensures Prepend("", r) == r
  {
    if r.Some? {
      assert "" + r.value.0 == r.value.0;
    }
  }

  lemma {:induction false} LexDoubledBackticks(s: string, tail: string)
    ensures LexIdentifierBody(ReplaceChar(s, '`', "``") + tail) == Prepend(s, LexIdentifierBody(tail))
  {
    if s == [] {
      assert ReplaceChar(s, '`', "``") + tail == tail;
      PrependEmpty(LexIdentifierBody(tail));
    } else {
      LexDoubledBackticks(s[1..], tail);
      LexDoubledStep(s, tail);
    }
  }

  /** The inductive step of `LexDoubledBackticks`: one more character in front. */
  lemma LexDoubledStep(s: string, tail: string)
    requires s != []
    requires LexIdentifierBody(ReplaceChar(s[1..], '`', "``") + tail) == Prepend(s[1..], LexIdentifierBody(tail))
    ensures LexIdentifierBody(ReplaceChar(s, '`', "``") + tail) == Prepend(s, LexIdentifierBody(tail))
  {
    var head := if s[0] == '`' then "``" else [s[0]];
    var rest := ReplaceChar(s[1..], '`', "``") + tail;
    assert ReplaceChar(s, '`', "``") == head + ReplaceChar(s[1..], '`', "``");
    ConcatAssoc(head, ReplaceChar(s[1..], '`', "``"), tail);
    if s[0] == '`' {
      assert (head + rest)[0] == '`' && (head + rest)[1] == '`';
      assert (head + rest)[2..] == rest;
      PrependPrepend("`", s[1..], LexIdentifierBody(tail));
    } else {
      assert (head + rest)[0] == s[0];
      assert (head + rest)[1..] == rest;
      PrependPrepend([s[0]], s[1..], LexIdentifierBody(tail));
    }
    assert s == [s[0]] + s[1..];
  }

  /**
   * `escapeIdentifier` yields exactly one quoted identifier, spanning its whole output,
   * that MySQL reads back as the original name: the quoting is invertible.
   */
  lemma QuoteIdentifierLexes(s: string)
    ensures LexIdentifier(QuoteIdentifier(s)) == Some((s, ""))
  {
    ReplaceAllOneChar(s, '`', "``");
    var q := QuoteIdentifier(s);
    assert q[1..] == ReplaceChar(s, '`', "``") + "`";
    LexDoubledBackticks(s, "`");
    assert "`"[1..] == "";
    assert LexIdentifierBody("`") == Some(("", ""));
    assert s + "" == s;
  }

  // ---------------------------------------------------------------------------------
  // LIKE patterns

  lemma {:induction false} AddCSlashesAppend(a: string, b: string, list: set<char>)
    ensures AddCSlashes(a + b, list) == AddCSlashes(a, list) + AddCSlashes(b, list)
  {
    if a == [] {
      assert a + b == b;
    } else {
      assert (a + b)[1..] == a[1..] + b;
      AddCSlashesAppend(a[1..], b, list);
    }
  }

  /** The text the server's literal reader makes of the encoding of one character. */
  function LiteralReadOf(c: char): string {
    if c == '\\' then "\\\\"
    else if c == '\0' then "\0" + "00"
    else if c == '%' then "\\%"
    else if c == '_' then "\\_"
    else [c]
  }

  function LiteralRead(s: string): string {
    if s == [] then [] else LiteralReadOf(s[0]) + LiteralRead(s[1..])
  }

  /** The pattern elements the encoding of one character turns into. */
  function PatternOfChar(c: char): seq<LikeItem> {
    if c == '\0' then [Lit('\0'), Lit('0'), Lit('0')] else [Lit(c)]
  }

  function PatternOf(s: string): seq<LikeItem> {
    if s == [] then [] else PatternOfChar(s[0]) + PatternOf(s[1..])
  }

  /** The encoding of one character, as `escapeLike` builds it in its two steps. */
  function LikeEncodingOf(c: char): string {
    AddCSlashes(if c == '\\' then "\\\\" else [c], LikeSpecials)
  }

  lemma LikeEncodingLexes(c: char, rest: string)
    ensures LexStringBody(LikeEncodingOf(c) + rest) == Prepend(LiteralReadOf(c), LexStringBody(rest))
  {
    if c == '\\' {
      BackslashEncodingLexes(rest);
    } else if c == '\0' {
      NulEncodingLexes(rest);
    } else {
      PlainEncodingLexes(c, rest);
    }
  }

  lemma BackslashEncodingLexes(rest: string)
    ensures LexStringBody(LikeEncodingOf('\\') + rest) == Prepend("\\\\", LexStringBody(rest))
  {
    var e := LikeEncodingOf('\\');
    assert AddCSlashes("\\\\", LikeSpecials) == "\\\\\\\\";
    assert (e + rest)[2..] == "\\\\" + rest;
    assert ("\\\\" + rest)[2..] == rest;
    assert UnescapeLiteralChar('\\') == "\\";
    assert LexStringBody(e + rest) == Prepend("\\", LexStringBody("\\\\" + rest));
    assert LexStringBody("\\\\" + rest) == Prepend("\\", LexStringBody(rest));
    PrependPrepend("\\", "\\", LexStringBody(rest));
    assert "\\" + "\\" == "\\\\";
  }

  lemma NulEncodingLexes(rest: string)
    ensures LexStringBody(LikeEncodingOf('\0') + rest) == Prepend("\0" + "00", LexStringBody(rest))
  {
    var e := LikeEncodingOf('\0');
    AddCSlashesOne('\0', LikeSpecials);
    assert DigitChar(0) == '0';
    assert CEscape('\0') == "000";
    assert e == "\\000";
    assert (e + rest)[2..] == "00" + rest;
    assert ("00" + rest)[1..] == "0" + rest;
    assert ("0" + rest)[1..] == rest;
    assert LexStringBody(e + rest) == Prepend("\0", LexStringBody("00" + rest));
    assert LexStringBody("00" + rest) == Prepend("0", LexStringBody("0" + rest));
    assert LexStringBody("0" + rest) == Prepend("0", LexStringBody(rest));
    PrependPrepend("0", "0", LexStringBody(rest));
    assert "0" + "0" == "00";
    PrependPrepend("\0", "00", LexStringBody(rest));
  }

  lemma PlainEncodingLexes(c: char, rest: string)
    requires c != '\\' && c != '\0'
    ensures LexStringBody(LikeEncodingOf(c) + rest) == Prepend(LiteralReadOf(c), LexStringBody(rest))
  {
    var e := LikeEncodingOf(c);
    AddCSlashesOne(c, LikeSpecials);
    if c == '\n' || c == '\r' {
      assert e == ['\\', if c == '\n' then 'n' else 'r'];
      assert (e + rest)[2..] == rest;
    } else if c in LikeSpecials {
      assert e == ['\\', c];
      assert (e + rest)[2..] == rest;
    } else {
      assert e == [c];
      assert (e + rest)[0] == c;
      assert (e + rest)[1..] == rest;
    }
  }

  lemma AddCSlashesOne(c: char, list: set<char>)
    ensures AddCSlashes([c], list) == CSlash(c, list)
  {
    assert [c][1..] == [];
  }

  function LikeEncoding(s: string): string {
    AddCSlashes(ReplaceAll(s, "\\", "\\\\"), LikeSpecials)
  }

  lemma {:induction false} LikeEncodingSplits(s: string)
    ensures s != [] ==> LikeEncoding(s) == LikeEncodingOf(s[0]) + LikeEncoding(s[1..])
  {
    ReplaceAllOneChar(s, '\\', "\\\\");
    if s != [] {
      ReplaceAllOneChar(s[1..], '\\', "\\\\");
      AddCSlashesAppend(if s[0] == '\\' then "\\\\" else [s[0]], ReplaceChar(s[1..], '\\', "\\\\"), LikeSpecials);
    }
  }

  lemma {:induction false} LikeEncodingLexesAll(s: string, tail: string)
    ensures LexStringBody(LikeEncoding(s) + tail) == Prepend(LiteralRead(s), LexStringBody(tail))
  {
    if s == [] {
      ReplaceAllOneChar(s, '\\', "\\\\");
      assert LikeEncoding(s) + tail == tail;
      PrependEmpty(LexStringBody(tail));
    } else {
      LikeEncodingLexesAll(s[1..], tail);
      LikeEncodingLexesStep(s, tail);
    }
  }

  lemma ConcatAssoc(a: string, b: string, c: string)
    ensures (a + b) + c == a + (b + c)
  {
  }

  /** The inductive step of `LikeEncodingLexesAll`: one more character in front. */
  lemma LikeEncodingLexesStep(s: string, tail: string)
    requires s != []
    requires LexStringBody(LikeEncoding(s[1..]) + tail) == Prepend(LiteralRead(s[1..]), LexStringBody(tail))
    ensures LexStringBody(LikeEncoding(s) + tail) == Prepend(LiteralRead(s), LexStringBody(tail))
  {
    LikeEncodingSplits(s);
    var rest := LikeEncoding(s[1..]) + tail;
    calc {
      LexStringBody(LikeEncoding(s) + tail);
      { ConcatAssoc(LikeEncodingOf(s[0]), LikeEncoding(s[1..]), tail); }
      LexStringBody(LikeEncodingOf(s[0]) + rest);
      { LikeEncodingLexes(s[0], rest); }
      Prepend(LiteralReadOf(s[0]), LexStringBody(rest));
      Prepend(LiteralReadOf(s[0]), Prepend(LiteralRead(s[1..]), LexStringBody(tail)));
      { PrependPrepend(LiteralReadOf(s[0]), LiteralRead(s[1..]), LexStringBody(tail)); }
      Prepend(LiteralReadOf(s[0]) + LiteralRead(s[1..]), LexStringBody(tail));
      Prepend(LiteralRead(s), LexStringBody(tail));
    }
  }

  lemma PatternOfCharRead(c: char, rest: string)
    ensures LikePattern(LiteralReadOf(c) + rest) == PatternOfChar(c) + LikePattern(rest)
  {
    var r := LiteralReadOf(c);
    if c == '\\' || c == '%' || c == '_' {
      assert (r + rest)[2..] == rest;
    } else if c == '\0' {
      assert (r + rest)[0] == '\0';
      assert (r + rest)[1..] == "00" + rest;
      assert ("00" + rest)[1..] == "0" + rest;
      assert ("0" + rest)[1..] == rest;
      assert LikePattern(r + rest) == [Lit('\0')] + LikePattern("00" + rest);
      assert LikePattern("00" + rest) == [Lit('0')] + LikePattern("0" + rest);
      assert LikePattern("0" + rest) == [Lit('0')] + LikePattern(rest);
    } else {
      assert (r + rest)[1..] == rest;
    }
  }

  lemma {:induction false} PatternOfRead(s: string, tail: string)
    ensures LikePattern(LiteralRead(s) + tail) == PatternOf(s) + LikePattern(tail)
  {
    if s == [] {
      assert LiteralRead(s) + tail == tail;
    } else {
      assert LiteralRead(s) + tail == LiteralReadOf(s[0]) + (LiteralRead(s[1..]) + tail);
      PatternOfCharRead(s[0], LiteralRead(s[1..]) + tail);
      PatternOfRead(s[1..], tail);
    }
  }

  function Wildcard(on: bool): string {
    if on then "%" else ""
  }

  lemma TrailLexes(on: bool)
    ensures LexStringBody(Wildcard(on) + "'") == Some((Wildcard(on), ""))
  {
    assert "'"[1..] == "";
    assert LexStringBody("'") == Some(("", ""));
    if on {
      assert Wildcard(on) + "'" == "%'";
      assert "%'"[1..] == "'";
      assert LexStringBody("%'") == Prepend("%", LexStringBody("'"));
      assert "%" + "" == "%";
    } else {
      assert Wildcard(on) + "'" == "'";
    }
  }

  lemma EscapeLikeShape(s: string, pos: int)
    ensures EscapeLike(s, pos)[0] == '\''
    ensures EscapeLike(s, pos)[1..] == Wildcard(pos <= 0) + (LikeEncoding(s) + (Wildcard(pos >= 0) + "'"))
  {
    QuotedShape(pos, LikeEncoding(s));
  }

  /** What the literal `escapeLike` writes stands for: the read text between the optional wildcards. */
  lemma EscapeLikeLexes(s: string, pos: int)
    ensures LexStringLiteral(EscapeLike(s, pos))
         == Some((Wildcard(pos <= 0) + (LiteralRead(s) + Wildcard(pos >= 0)), ""))
  {
    var body := Wildcard(pos >= 0);
    var rest := LikeEncoding(s) + (body + "'");
    EscapeLikeShape(s, pos);
    TrailLexes(pos >= 0);
    LikeEncodingLexesAll(s, body + "'");
    var inner := LiteralRead(s) + body;
    assert LexStringBody(rest) == Some((inner, ""));
    if pos <= 0 {
      assert ("%" + rest)[0] == '%' && ("%" + rest)[1..] == rest;
      assert LexStringBody("%" + rest) == Prepend("%", LexStringBody(rest));
    } else {
      assert "" + rest == rest;
      assert "" + inner == inner;
    }
  }

  /**
   * `escapeLike`'s output is exactly one string literal, spanning the whole output, whose
   * value as a LIKE pattern is a leading `%` iff `pos <= 0`, then the string read
   * character by character as itself, then a trailing `%` iff `pos >= 0`.
   */
  lemma EscapeLikeMeaning(s: string, pos: int)
    ensures LexStringLiteral(EscapeLike(s, pos)).Some?
    ensures LexStringLiteral(EscapeLike(s, pos)).value.1 == ""
    ensures LikePattern(LexStringLiteral(EscapeLike(s, pos)).value.0)
         == (if pos <= 0 then [AnyString] else []) + PatternOf(s) + (if pos >= 0 then [AnyString] else [])
  {
    EscapeLikeLexes(s, pos);
    var body := Wildcard(pos >= 0);
    var inner := LiteralRead(s) + body;
    var lexed := Wildcard(pos <= 0) + inner;
    assert LexStringLiteral(EscapeLike(s, pos)) == Some((lexed, ""));
    PatternOfRead(s, body);
    var tail := if pos >= 0 then [AnyString] else [];
    assert LikePattern(body) == tail;
    assert LikePattern(inner) == PatternOf(s) + tail;
    if pos <= 0 {
      LikePatternPercent(inner);
      ItemsAssoc([AnyString], PatternOf(s), tail);
    } else {
      assert lexed == inner;
      assert [] + PatternOf(s) + tail == PatternOf(s) + tail;
    }
  }

  lemma ItemsAssoc(a: seq<LikeItem>, b: seq<LikeItem>, c: seq<LikeItem>)
    ensures (a + b) + c == a + (b + c)
  {
  }

  lemma LikePatternPercent(p: string)
    ensures LikePattern("%" + p) == [AnyString] + LikePattern(p)
  {
    assert ("%" + p)[0] == '%' && ("%" + p)[1..] == p;
  }

  /** A string without NUL characters is matched literally: no character acts as a wildcard. */
  lemma {:induction false} PatternOfLiteral(s: string)
    requires '\0' !in s
    ensures PatternOf(s) == Literally(s)
  {
    if s != [] {
      PatternOfLiteral(s[1..]);
    }
  }

  lemma {:induction false} PatternOfLength(s: string)
    ensures |PatternOf(s)| == |s| + 2 * Count(s, '\0')
  {
    if s != [] {
      PatternOfLength(s[1..]);
    }
  }

  lemma {:induction false} LiterallyLength(s: string)
    ensures |Literally(s)| == |s|
  {
    if s != [] {
      LiterallyLength(s[1..]);
    }
  }

  lemma {:induction false} CountPositive(s: string, c: char)
    requires c in s
    ensures Count(s, c) > 0
  {
    if s[0] != c {
      assert c in s[1..];
      CountPositive(s[1..], c);
    }
  }

  /**
   * A NUL character is written as the octal escape `\000`, which MySQL reads as NUL
   * followed by the two characters "00": the pattern of a string holding a NUL is longer
   * than the string, so it does not match the string literally.
   */
  lemma EscapeLikeNul(s: string)
    requires '\0' in s
    ensures PatternOf(s) != Literally(s)
  {
    PatternOfLength(s);
    LiterallyLength(s);
    CountPositive(s, '\0');
  }

  /** The evidently intended encoding of one character: NUL as MySQL's own escape `\0`. */
  function IntendedEncodingOf(c: char): string {
    if c == '\0' then "\\0" else LikeEncodingOf(c)
  }

  function IntendedEncoding(s: string): string {
    if s == [] then [] else IntendedEncodingOf(s[0]) + IntendedEncoding(s[1..])
  }

  /** What the literal reader makes of the intended encoding of one character. */
  function IntendedReadOf(c: char): string {
    if c == '\0' then "\0" else LiteralReadOf(c)
  }

  function IntendedRead(s: string): string {
    if s == [] then [] else IntendedReadOf(s[0]) + IntendedRead(s[1..])
  }

  /** `escapeLike` with NUL written as `\0`. */
  function EscapeLikeIntended(s: string, pos: int): (r: string)
    ensures |r| >= 2 && r[0] == '\'' && r[|r| - 1] == '\''
  {
    (if pos <= 0 then "'%" else "'") + IntendedEncoding(s) + (if pos >= 0 then "%'" else "'")
  }

  lemma IntendedEncodingLexes(c: char, rest: string)
    ensures LexStringBody(IntendedEncodingOf(c) + rest) == Prepend(IntendedReadOf(c), LexStringBody(rest))
  {
    if c == '\0' {
      var e := IntendedEncodingOf(c);
      assert (e + rest)[0] == '\\' && (e + rest)[1] == '0';
      assert (e + rest)[2..] == rest;
    } else {
      LikeEncodingLexes(c, rest);
    }
  }

  /** The inductive step of `IntendedLexesAll`: one more character in front. */
  lemma IntendedLexesStep(s: string, tail: string)
    requires s != []
    requires LexStringBody(IntendedEncoding(s[1..]) + tail) == Prepend(IntendedRead(s[1..]), LexStringBody(tail))
    ensures LexStringBody(IntendedEncoding(s) + tail) == Prepend(IntendedRead(s), LexStringBody(tail))
  {
    var rest := IntendedEncoding(s[1..]) + tail;
    ConcatAssoc(IntendedEncodingOf(s[0]), IntendedEncoding(s[1..]), tail);
    IntendedEncodingLexes(s[0], rest);
    PrependPrepend(IntendedReadOf(s[0]), IntendedRead(s[1..]), LexStringBody(tail));
  }

  lemma {:induction false} IntendedLexesAll(s: string, tail: string)
    ensures LexStringBody(IntendedEncoding(s) + tail) == Prepend(IntendedRead(s), LexStringBody(tail))
  {
    if s == [] {
      assert IntendedEncoding(s) + tail == tail;
      PrependEmpty(LexStringBody(tail));
    } else {
      IntendedLexesAll(s[1..], tail);
      IntendedLexesStep(s, tail);
    }
  }

  lemma IntendedPatternOfCharRead(c: char, rest: string)
    ensures LikePattern(IntendedReadOf(c) + rest) == [Lit(c)] + LikePattern(rest)
  {
    if c == '\0' {
      var r := IntendedReadOf(c);
      assert (r + rest)[0] == '\0' && (r + rest)[1..] == rest;
    } else {
      PatternOfCharRead(c, rest);
    }
  }

  lemma {:induction false} IntendedPatternOfRead(s: string, tail: string)
    ensures LikePattern(IntendedRead(s) + tail) == Literally(s) + LikePattern(tail)
  {
    if s == [] {
      assert IntendedRead(s) + tail == tail;
    } else {
      assert IntendedRead(s) + tail == IntendedReadOf(s[0]) + (IntendedRead(s[1..]) + tail);
      IntendedPatternOfCharRead(s[0], IntendedRead(s[1..]) + tail);
      IntendedPatternOfRead(s[1..], tail);
    }
  }

  lemma EscapeLikeIntendedShape(s: string, pos: int)
    ensures EscapeLikeIntended(s, pos)[0] == '\''
    ensures EscapeLikeIntended(s, pos)[1..] == Wildcard(pos <= 0) + (IntendedEncoding(s) + (Wildcard(pos >= 0) + "'"))
  {
    QuotedShape(pos, IntendedEncoding(s));
  }

  /** The quote and the wildcards around an encoded LIKE body. */
  lemma QuotedShape(pos: int, e: string)
    ensures ((if pos <= 0 then "'%" else "'") + e + (if pos >= 0 then "%'" else "'"))[0] == '\''
    ensures ((if pos <= 0 then "'%" else "'") + e + (if pos >= 0 then "%'" else "'"))[1..]
            == Wildcard(pos <= 0) + (e + (Wildcard(pos >= 0) + "'"))
  {
    var head := if pos <= 0 then "'%" else "'";
    var tail := if pos >= 0 then "%'" else "'";
    assert head == "'" + Wildcard(pos <= 0) && tail == Wildcard(pos >= 0) + "'";
    var r := head + e + tail;
    assert r == "'" + (Wildcard(pos <= 0) + (e + tail));
  }

  /** The intended output is one string literal: the wildcards around `IntendedRead(v)`. */
  lemma EscapeLikeIntendedLexes(s: string, pos: int)
    ensures LexStringLiteral(EscapeLikeIntended(s, pos))
         == Some((Wildcard(pos <= 0) + (IntendedRead(s) + Wildcard(pos >= 0)), ""))
  {
    var body := Wildcard(pos >= 0);
    var rest := IntendedEncoding(s) + (body + "'");
    EscapeLikeIntendedShape(s, pos);
    TrailLexes(pos >= 0);
    IntendedLexesAll(s, body + "'");
    var inner := IntendedRead(s) + body;
    assert LexStringBody(rest) == Some((inner, ""));
    if pos <= 0 {
      assert ("%" + rest)[0] == '%' && ("%" + rest)[1..] == rest;
      assert LexStringBody("%" + rest) == Prepend("%", LexStringBody(rest));
    } else {
      assert "" + rest == rest;
      assert "" + inner == inner;
    }
  }

  /**
   * With NUL written as `\0`, every string is matched literally: the pattern is `%` if
   * `pos <= 0`, then exactly the characters of `v`, then `%` if `pos >= 0`.
   */
  lemma EscapeLikeIntendedMeaning(s: string, pos: int)
    ensures LexStringLiteral(EscapeLikeIntended(s, pos)).Some?
    ensures LexStringLiteral(EscapeLikeIntended(s, pos)).value.1 == ""
    ensures LikePattern(LexStringLiteral(EscapeLikeIntended(s, pos)).value.0)
         == (if pos <= 0 then [AnyString] else []) + Literally(s) + (if pos >= 0 then [AnyString] else [])
  {
    EscapeLikeIntendedLexes(s, pos);
    var body := Wildcard(pos >= 0);
    var inner := IntendedRead(s) + body;
    var lexed := Wildcard(pos <= 0) + inner;
    IntendedPatternOfRead(s, body);
    var tail := if pos >= 0 then [AnyString] else [];
    assert LikePattern(body) == tail;
    assert LikePattern(inner) == Literally(s) + tail;
    if pos <= 0 {
      LikePatternPercent(inner);
      ItemsAssoc([AnyString], Literally(s), tail);
    } else {
      assert lexed == inner;
      assert [] + Literally(s) + tail == Literally(s) + tail;
    }
  }

  // ---------------------------------------------------------------------------------
  // Array variants and detection

  /**
   * An array variant whose encoder turns each element into a value printing as a piece
   * joins the pieces with commas, in order (an empty array gives ""). When the array is
   * not empty and no piece contains a comma, splitting the output at commas gives the
   * pieces back.
   */
  lemma EscapeEachPieces(items: seq<Value>, f: Value -> Result<Value, Exception>,
                         values: seq<Value>, pieces: seq<string>)
    requires |values| == |items| && |pieces| == |items|
    requires forall k :: 0 <= k < |items| ==> f(items[k]) == Success(values[k])
    requires forall k :: 0 <= k < |values| ==> CastToString(values[k]) == Success(pieces[k])
    ensures EscapeEach(Array(items), f) == Success(Str(Join(',', pieces)))
    ensures |items| > 0 && (forall k :: 0 <= k < |pieces| ==> ',' !in pieces[k])
            ==> Split(EscapeEach(Array(items), f).value.s, ',') == pieces
  {
    var rs := seq(|items|, k requires 0 <= k < |items| => f(items[k]));
    assert forall k :: 0 <= k < |items| ==> rs[k] == Success(values[k]);
    assert Collect(rs).value == values;
    ImplodePieces(values, pieces);
  }

  /**
   * `escapeTextArray` quotes each string through the driver's escaping and joins the
   * literals with commas, in order. A comma inside a string stays inside its literal,
   * so the output is not split back at commas.
   */
  lemma EscapeTextArrayJoins(items: seq<Value>, realEscape: string -> string, texts: seq<string>)
    requires |texts| == |items|
    requires forall k :: 0 <= k < |items| ==> items[k] == Str(texts[k])
    ensures ApplyEscaper(ByTextArray, Array(items), realEscape)
         == Success(Str(Join(',', seq(|texts|, k requires 0 <= k < |texts| => "'" + realEscape(texts[k]) + "'"))))
  {
    var f := (x: Value) => AsValue(EscapeText(x, realEscape));
    var pieces := seq(|texts|, k requires 0 <= k < |texts| => "'" + realEscape(texts[k]) + "'");
    var values := seq(|texts|, k requires 0 <= k < |texts| => Str(pieces[k]));
    assert forall k :: 0 <= k < |items| ==> f(items[k]) == Success(values[k]);
    EscapeEachPieces(items, f, values, pieces);
  }

  /**
   * The boolean array encoder joins the per-element texts of `escapeBool` with commas,
   * in order; since no element text contains a comma, splitting the output of a
   * non-empty array gives them back.
   */
  lemma EscapeBoolArrayPieces(items: seq<Value>, realEscape: string -> string, pieces: seq<string>)
    requires |pieces| == |items|
    requires forall k :: 0 <= k < |items| ==> EscapeBool(items[k]) == Success(pieces[k])
    ensures ApplyEscaper(ByBoolArray, Array(items), realEscape) == Success(Str(Join(',', pieces)))
    ensures |items| > 0 ==> Split(ApplyEscaper(ByBoolArray, Array(items), realEscape).value.s, ',') == pieces
  {
    var f := BoolElement;
    var values := seq(|pieces|, k requires 0 <= k < |pieces| => Str(pieces[k]));
    forall k | 0 <= k < |items| ensures f(items[k]) == Success(values[k]) {
      assert values[k] == Str(pieces[k]);
    }
    forall k | 0 <= k < |values| ensures CastToString(values[k]) == Success(pieces[k]) {
      assert values[k] == Str(pieces[k]);
    }
    EscapeEachPieces(items, f, values, pieces);
    ApplyBoolArray(Array(items), realEscape);
    if |items| > 0 {
      forall k | 0 <= k < |pieces| ensures ',' !in pieces[k] {
        BoolTextCommaFree(items[k], pieces[k]);
      }
      SplitJoin(',', pieces);
    }
  }

  lemma ApplyBoolArray(v: Value, realEscape: string -> string)
    ensures ApplyEscaper(ByBoolArray, v, realEscape) == EscapeEach(v, BoolElement)
  {
  }

  lemma BoolTextCommaFree(v: Value, text: string)
    requires EscapeBool(v) == Success(text)
    ensures ',' !in text
  {
    if v.Null? {
      assert text == "NULL";
    } else if v.b {
      assert text == "1";
    } else {
      assert text == "0";
    }
  }

  /**
   * `escapeDetect` of an array encodes its elements in order, casts the results to text
   * and joins them with commas (an empty array gives ""). When the array is not empty
   * and no piece contains a comma, splitting the output gives the pieces back.
   */
  lemma DetectArrayPieces(items: seq<Value>, realEscape: string -> string, values: seq<Value>, pieces: seq<string>)
    requires |values| == |items| && |pieces| == |items|
    requires forall k :: 0 <= k < |items| ==> EscapeDetect(items[k], realEscape) == Success(values[k])
    requires forall k :: 0 <= k < |values| ==> CastToString(values[k]) == Success(pieces[k])
    ensures EscapeDetect(Array(items), realEscape) == Success(Str(Join(',', pieces)))
    ensures |items| > 0 && (forall k :: 0 <= k < |pieces| ==> ',' !in pieces[k])
            ==> Split(EscapeDetect(Array(items), realEscape).value.s, ',') == pieces
  {
    var rs := seq(|items|, k requires 0 <= k < |items| => EscapeDetect(items[k], realEscape));
    assert forall k :: 0 <= k < |items| ==> rs[k] == Success(values[k]);
    assert Collect(rs).value == values;
    ImplodePieces(values, pieces);
  }

  /**
   * `escapeDetect` of a list of integers writes them in decimal, in order, separated
   * by commas; a non-empty list splits back into those decimal texts.
   */
  lemma EscapeDetectIntegers(items: seq<Value>, realEscape: string -> string, pieces: seq<string>)
    requires |pieces| == |items|
    requires forall k :: 0 <= k < |items| ==> items[k].Int? && pieces[k] == IntToString(items[k].i)
    ensures EscapeDetect(Array(items), realEscape) == Success(Str(Join(',', pieces)))
    ensures |items| > 0 ==> Split(EscapeDetect(Array(items), realEscape).value.s, ',') == pieces
  {
    assert forall k :: 0 <= k < |items| ==> EscapeDetect(items[k], realEscape) == Success(items[k]);
    forall k | 0 <= k < |items| ensures ',' !in pieces[k] {
      var d := NatToString(if items[k].i < 0 then -items[k].i else items[k].i);
      assert forall j :: 0 <= j < |d| ==> d[j] != ',';
    }
    DetectArrayPieces(items, realEscape, items, pieces);
  }

  // ---------------------------------------------------------------------------------
  // Substitution

  /** Substituting a list of arguments is substituting its first part, then the rest. */
  lemma {:induction false} SubstituteAppend(types: map<string, Escaper>, realEscape: string -> string,
                                            query: string, a: seq<(string, Value)>, b: seq<(string, Value)>)
    ensures var first := Substitute(types, realEscape, query, a);
      Substitute(types, realEscape, query, a + b)
      == if first.Failure? then first else Substitute(types, realEscape, first.value, b)
    decreases |a|
  {
    if a == [] {
      assert a + b == b;
    } else {
      assert (a + b)[0] == a[0];
      assert (a + b)[1..] == a[1..] + b;
      var step := SubstituteArg(types, realEscape, query, a[0].0, a[0].1);
      if step.Success? {
        SubstituteAppend(types, realEscape, step.value, a[1..], b);
      }
    }
  }

  /**
   * An argument whose prefix is not registered makes `queryWithArgs` throw an
   * `InvalidArgumentException` naming that prefix, once every earlier argument succeeded.
   */
  lemma UnregisteredPrefixThrows(types: map<string, Escaper>, realEscape: string -> string,
                                 query: string, args: seq<(string, Value)>, k: nat)
    requires k < |args| && ':' in args[k].0
    requires args[k].0[..FirstIndex(args[k].0, ':').value + 1] !in types
    requires Substitute(types, realEscape, query, args[..k]).Success?
    ensures Substitute(types, realEscape, query, args)
         == Failure(InvalidArgumentException(
              "Escape type " + args[k].0[..FirstIndex(args[k].0, ':').value + 1] + " not found!"))
  {
    assert args == args[..k] + args[k..];
    SubstituteAppend(types, realEscape, query, args[..k], args[k..]);
    assert args[k..][0] == args[k];
  }

  /**
   * An argument keyed `prefix + name`, where the prefix ends with its only ':', is
   * encoded by the encoder registered for that prefix, whatever `name` contains.
   */
  lemma RegisteredPrefixReplaces(types: map<string, Escaper>, realEscape: string -> string,
                                 query: string, prefix: string, name: string, value: Value)
    requires |prefix| > 0 && prefix[|prefix| - 1] == ':' && ':' !in prefix[..|prefix| - 1]
    requires prefix in types
    ensures SubstituteArg(types, realEscape, query, prefix + name, value)
         == EncodeAndReplace(types[prefix], realEscape, query, name, value)
  {
    var key := prefix + name;
    var p := prefix[..|prefix| - 1];
    assert key == p + [':'] + name;
    FirstIndexOfSplit(p, ':', name);
    assert key[..|p| + 1] == prefix;
    assert key[|p| + 1..] == name;
  }

  /** A key without ':' is not encoded: its value is cast to a string and replaces every ":key". */
  lemma RawKeyReplaces(types: map<string, Escaper>, realEscape: string -> string,
                       query: string, key: string, value: Value)
    requires ':' !in key && !value.DateTime? && !value.Object?
    ensures SubstituteArg(types, realEscape, query, key, value)
         == Success(ReplaceAll(query, ":" + key, CastToString(value).value))
  {
  }

  /**
   * Placeholders are plain text search: the argument `id` also rewrites the front of
   * ":idx", and text an earlier argument put in is searched by later arguments.
   */
  lemma PlaceholdersAreSearchedAsText(types: map<string, Escaper>, realEscape: string -> string)
    ensures Substitute(types, realEscape, ":id:idx", [("id", Str("7"))]) == Success("77x")
    ensures Substitute(types, realEscape, ":a", [("a", Str(":b")), ("b", Str("1"))]) == Success("1")
  {
    PrefixOfLongerPlaceholder(types, realEscape);
    InsertedPlaceholder(types, realEscape);
  }

  lemma PrefixOfLongerPlaceholder(types: map<string, Escaper>, realEscape: string -> string)
    ensures Substitute(types, realEscape, ":id:idx", [("id", Str("7"))]) == Success("77x")
  {
    assert ReplaceAll("x", ":id", "7") == "x";
    assert ":idx"[..3] == ":id" && ":idx"[3..] == "x";
    assert ReplaceAll(":idx", ":id", "7") == "7x";
    assert ":id:idx"[..3] == ":id" && ":id:idx"[3..] == ":idx";
    assert ReplaceAll(":id:idx", ":id", "7") == "77x";
    assert FirstIndex("id", ':') == None;
    assert SubstituteArg(types, realEscape, ":id:idx", "id", Str("7")) == Success("77x");
  }

  lemma InsertedPlaceholder(types: map<string, Escaper>, realEscape: string -> string)
    ensures Substitute(types, realEscape, ":a", [("a", Str(":b")), ("b", Str("1"))]) == Success("1")
  {
    var args := [("a", Str(":b")), ("b", Str("1"))];
    assert ReplaceAll(":a", ":a", ":b") == ":b";
    assert ReplaceAll(":b", ":b", "1") == "1";
    assert FirstIndex("a", ':') == None && FirstIndex("b", ':') == None;
    assert SubstituteArg(types, realEscape, ":a", "a", Str(":b")) == Success(":b");
    assert SubstituteArg(types, realEscape, ":b", "b", Str("1")) == Success("1");
    assert args[1..] == [("b", Str("1"))] && args[1..][1..] == [];
  }

  /** A string that ends with its only ':' is split at its end. */
  lemma PrefixSelectable(k: string)
    requires |k| > 0 && k[|k| - 1] == ':' && forall j :: 0 <= j < |k| - 1 ==> k[j] != ':'
    ensures FirstIndex(k, ':') == Some(|k| - 1)
  {
  }

  /** Every prefix a new connection registers ends with its only ':', so it can be selected. */
  lemma DefaultPrefixesSelectable()
    ensures forall k :: k in DefaultEscapeTypes() ==> FirstIndex(k, ':') == Some(|k| - 1)
  {
    forall k | k in DefaultEscapeTypes() ensures FirstIndex(k, ':') == Some(|k| - 1) {
      PrefixSelectable(k);
    }
  }
}
