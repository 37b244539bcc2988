/**
 * The PHP values a query argument can hold, PHP's `is_numeric`, and the `(string)`
 * conversion that `queryWithArgs` and `implode` apply to them.
 */
module Values {
  import opened Wrappers
  import opened Strings
  import opened Errors

  /**
   * A PHP value. A float is kept as the text PHP prints for it; a `DateTimeInterface`
   * as the two pieces its `format` yields for "Y-m-d" and "H:i:s.u"; an object with a
   * `__toString` method as the text that method returns; every other object is `Object`.
   * Arrays are lists: their keys play no part in the escapers.
   */
  datatype Value =
    | Null
    | Bool(b: bool)
    | Int(i: int)
    | Float(repr: string)
    | Str(s: string)
    | DateTime(date: string, time: string)
    | Array(items: seq<Value>)
    | Stringable(text: string)
    | Object

  /** The characters PHP treats as white space around a numeric string. */
  predicate IsWhitespace(c: char) {
    c == ' ' || c == '\t' || c == '\n' || c == '\r' || c == '\U{0B}' || c == '\U{0C}'
  }

  predicate IsSign(c: char) {
    c == '+' || c == '-'
  }

  predicate IsExponentMark(c: char) {
    c == 'e' || c == 'E'
  }

  predicate IsDigit(c: char) {
    '0' <= c <= '9'
  }

  /** Every character a numeric string can contain. */
  predicate IsNumericChar(c: char) {
    IsWhitespace(c) || IsDigit(c) || IsSign(c) || c == '.' || IsExponentMark(c)
  }

  /** The first index at or after `i` that does not hold white space. */
  function SkipWhitespace(s: string, i: nat): (r: nat)
    requires i <= |s|
    ensures i <= r <= |s|
    ensures forall k :: i <= k < r ==> IsWhitespace(s[k])
    ensures r < |s| ==> !IsWhitespace(s[r])
    decreases |s| - i
  {
    if i < |s| && IsWhitespace(s[i]) then SkipWhitespace(s, i + 1) else i
  }

  /** The first index at or after `i` that does not hold a decimal digit. */
  function SkipDigits(s: string, i: nat): (r: nat)
    requires i <= |s|
    ensures i <= r <= |s|
    ensures forall k :: i <= k < r ==> IsDigit(s[k])
    ensures r < |s| ==> !IsDigit(s[r])
    decreases |s| - i
  {
    if i < |s| && IsDigit(s[i]) then SkipDigits(s, i + 1) else i
  }

  /** After an optional sign at `i`, the index of what follows it. */
  function SkipSign(s: string, i: nat): (r: nat)
    requires i <= |s|
    ensures i <= r <= |s|
    ensures r == i || (r == i + 1 && IsSign(s[i]))
  {
    if i < |s| && IsSign(s[i]) then i + 1 else i
  }

  /** After a mantissa starting at `i`, the end of an exponent part `e[+-]digits`, if there is one. */
  function SkipExponent(s: string, i: nat): (r: nat)
    requires i <= |s|
    ensures i <= r <= |s|
    ensures r == i || (IsExponentMark(s[i]) && forall k :: i < k < r ==> IsNumericChar(s[k]))
  {
    if i < |s| && IsExponentMark(s[i]) then
      var g := SkipSign(s, i + 1);
      var h := SkipDigits(s, g);
      if h > g then h else i
    else i
  }

  /**
   * PHP 8's numeric strings: optional white space, an optional sign, digits with an
   * optional fraction (or a fraction alone), an optional exponent, optional white space.
   */
  predicate IsNumericString(s: string)
    ensures IsNumericString(s) ==> exists k :: 0 <= k < |s| && IsDigit(s[k])
  {
    var a := SkipWhitespace(s, 0);
    var b := SkipSign(s, a);
    var c := SkipDigits(s, b);
    var d := if c < |s| && s[c] == '.' then c + 1 else c;
    var e := SkipDigits(s, d);
    assert c > b ==> IsDigit(s[b]);
    assert e > d ==> IsDigit(s[d]);
    (c > b || e > d) && SkipWhitespace(s, SkipExponent(s, e)) == |s|
  }

  /** `is_numeric`. */
  predicate IsNumeric(v: Value) {
    v.Int? || v.Float? || (v.Str? && IsNumericString(v.s))
  }

  /**
   * A numeric string is made of white space, digits, signs, a point and exponent
   * letters only: no quote, backslash or comma, so passing it into SQL unquoted
   * cannot end a literal or split a list.
   */
  lemma NumericStringAlphabet(s: string)
    requires IsNumericString(s)
    ensures forall k :: 0 <= k < |s| ==> IsNumericChar(s[k])
  {
    var a := SkipWhitespace(s, 0);
    var b := SkipSign(s, a);
    var c := SkipDigits(s, b);
    var d := if c < |s| && s[c] == '.' then c + 1 else c;
    var e := SkipDigits(s, d);
    var f := SkipExponent(s, e);
    SegmentsAlphabet(s, a, b, c, d, e, f);
  }

  /** The segments a numeric string is made of hold only characters of its alphabet. */
  lemma SegmentsAlphabet(s: string, a: nat, b: nat, c: nat, d: nat, e: nat, f: nat)
    requires a <= b <= c <= d <= e <= f <= |s|
    requires forall k :: 0 <= k < a ==> IsWhitespace(s[k])
    requires b == a || IsSign(s[a])
    requires forall k :: b <= k < c ==> IsDigit(s[k])
    requires d == c || s[c] == '.'
    requires d <= c + 1 && b <= a + 1
    requires forall k :: d <= k < e ==> IsDigit(s[k])
    requires f == e || (IsExponentMark(s[e]) && forall k :: e < k < f ==> IsNumericChar(s[k]))
    requires forall k :: f <= k < |s| ==> IsWhitespace(s[k])
    ensures forall k :: 0 <= k < |s| ==> IsNumericChar(s[k])
  {
  }

  lemma SkipDigitsAll(s: string, i: nat)
    requires i <= |s|
    requires forall k :: i <= k < |s| ==> IsDigit(s[k])
    ensures SkipDigits(s, i) == |s|
  {
  }

  /**
   * The text of every PHP integer is a numeric string: `escapeDetect` passes a string
   * holding an integer's text through unquoted, as it does the integer itself.
   */
  lemma IntToStringIsNumeric(i: int)
    ensures IsNumericString(IntToString(i))
  {
    var s := IntToString(i);
    var b := if i < 0 then 1 else 0;
    assert !IsWhitespace(s[0]);
    assert SkipWhitespace(s, 0) == 0;
    assert SkipSign(s, 0) == b;
    SkipDigitsAll(s, b);
    assert SkipDigits(s, b) == |s|;
  }

  /**
   * PHP's `(string)` conversion. An array becomes "Array" (with a notice); an object
   * with `__toString` gives that method's text; any other object throws `Error`.
   */
  function CastToString(v: Value): (r: Result<string, Exception>)
    ensures r.Failure? <==> v.DateTime? || v.Object?
    ensures v.Str? ==> r == Success(v.s)
    ensures v.Stringable? ==> r == Success(v.text)
  {
    match v
    case Null => Success("")
    case Bool(b) => Success(if b then "1" else "")
    case Int(i) => Success(IntToString(i))
    case Float(repr) => Success(repr)
    case Str(s) => Success(s)
    case Array(_) => Success("Array")
    case Stringable(text) => Success(text)
    case DateTime(_, _) => Failure(Error("Object of class DateTime could not be converted to string"))
    case Object => Failure(Error("Object could not be converted to string"))
  }

  /**
   * Results collected left to right, stopping at the first failure: what `array_map`
   * does when the callback throws.
   */
  function Collect<T>(rs: seq<Result<T, Exception>>): (r: Result<seq<T>, Exception>)
    ensures r.Success? <==> forall k :: 0 <= k < |rs| ==> rs[k].Success?
    ensures r.Success? ==> |r.value| == |rs| && forall k :: 0 <= k < |rs| ==> r.value[k] == rs[k].value
    ensures r.Failure? ==> exists k :: 0 <= k < |rs| && rs[k] == Failure(r.error)
                                        && forall j :: 0 <= j < k ==> rs[j].Success?
  {
    if |rs| == 0 then Success([])
    else if rs[0].Failure? then Failure(rs[0].error)
    else match Collect(rs[1..])
      case Failure(e) =>
        var k :| 0 <= k < |rs[1..]| && rs[1..][k] == Failure(e) && forall j :: 0 <= j < k ==> rs[1..][j].Success?;
        assert rs[k + 1] == Failure(e);
        Failure(e)
      case Success(tail) => Success([rs[0].value] + tail)
  }

  /** `implode(',', $values)`: each value converted to a string, then joined with commas. */
  function Implode(values: seq<Value>): (r: Result<string, Exception>)
    ensures r.Success? <==> forall k :: 0 <= k < |values| ==> !values[k].DateTime? && !values[k].Object?
  {
    var rs := seq(|values|, k requires 0 <= k < |values| => CastToString(values[k]));
    assert forall k :: 0 <= k < |values| ==> rs[k] == CastToString(values[k]);
    var strings :- Collect(rs);
    Success(Join(',', strings))
  }

  /**
   * The imploded text is the converted values joined with commas, in order (the empty
   * list gives ""); when the list is not empty and no piece contains a comma, splitting
   * the text at commas gives the pieces back.
   */
  lemma ImplodePieces(values: seq<Value>, pieces: seq<string>)
    requires |pieces| == |values|
    requires forall k :: 0 <= k < |values| ==> CastToString(values[k]) == Success(pieces[k])
    ensures Implode(values) == Success(Join(',', pieces))
    ensures |values| > 0 && (forall k :: 0 <= k < |pieces| ==> ',' !in pieces[k])
            ==> Split(Implode(values).value, ',') == pieces
  {
    var rs := seq(|values|, k requires 0 <= k < |values| => CastToString(values[k]));
    assert Collect(rs).value == pieces;
    if |values| > 0 && (forall k :: 0 <= k < |pieces| ==> ',' !in pieces[k]) {
      SplitJoin(',', pieces);
    }
  }
}
