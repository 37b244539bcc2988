/**
 * The PHP string built-ins the core relies on: `str_replace` with one search string,
 * `strpos` for one character, `implode` (and its inverse `explode`, used only to state
 * properties) and the decimal rendering of integers that `(string)` applies to an `int`.
 */
module Strings {
  import opened Wrappers

  /** `strpos($s, $c)`: the index of the first occurrence of `c`, or `None` (PHP's `false`). */
  function FirstIndex(s: string, c: char): (r: Option<nat>)
    ensures r.None? <==> c !in s
    ensures r.Some? ==> r.value < |s| && s[r.value] == c
    ensures r.Some? ==> forall j :: 0 <= j < r.value ==> s[j] != c
  {
    if |s| == 0 then None
    else if s[0] == c then Some(0)
    else match FirstIndex(s[1..], c)
      case None => None
      case Some(i) => Some(i + 1)
  }

  lemma FirstIndexOfSplit(a: string, c: char, b: string)
    requires c !in a
    ensures FirstIndex(a + [c] + b, c) == Some(|a|)
  {
    var s := a + [c] + b;
    assert s[|a|] == c;
    assert forall j :: 0 <= j < |a| ==> s[j] == a[j];
  }

  /** Whether `pat` occurs in `s` at some position. */
  ghost predicate Occurs(s: string, pat: string) {
    exists i :: OccursAt(s, pat, i)
  }

  ghost predicate OccursAt(s: string, pat: string, i: int) {
    0 <= i && i + |pat| <= |s| && s[i..i + |pat|] == pat
  }

  /**
   * `str_replace($pat, $rep, $s)` for one non-empty search string: the occurrences of
   * `pat` are found left to right without overlapping, and the replacement text is not
   * searched again. A string in which the search string does not occur is returned as it is.
   */
  function ReplaceAll(s: string, pat: string, rep: string): (r: string)
    requires |pat| > 0
    ensures !Occurs(s, pat) ==> r == s
    decreases |s|
  {
    if |s| < |pat| then s
    else if s[..|pat|] == pat then
      assert s[0..0 + |pat|] == s[..|pat|] && OccursAt(s, pat, 0);
      rep + ReplaceAll(s[|pat|..], pat, rep)
    else
      OccursInTail(s, pat);
      assert s == [s[0]] + s[1..];
      [s[0]] + ReplaceAll(s[1..], pat, rep)
  }

  /** An occurrence in the tail of a string is an occurrence in the string. */
  lemma OccursInTail(s: string, pat: string)
    requires |s| > 0
    ensures Occurs(s[1..], pat) ==> Occurs(s, pat)
  {
    if Occurs(s[1..], pat) {
      var i :| OccursAt(s[1..], pat, i);
      assert s[1..][i..i + |pat|] == s[i + 1..i + 1 + |pat|];
      assert OccursAt(s, pat, i + 1);
    }
  }

  /**
   * The leftmost occurrence is replaced first: when `pat` does not occur in `a` nor start
   * inside `a` and run into the occurrence that follows it, `a` is kept, that occurrence
   * becomes `rep`, and the search resumes after it. With the "absent, unchanged" clause
   * of `ReplaceAll` this determines its result on every string.
   */
  lemma {:induction false} ReplaceAllFirst(a: string, pat: string, rep: string, b: string)
    requires |pat| > 0 && !Occurs(a + pat[..|pat| - 1], pat)
    ensures ReplaceAll(a + pat + b, pat, rep) == a + rep + ReplaceAll(b, pat, rep)
  {
    if a == [] {
      var s := a + pat + b;
      assert s == pat + b;
      ReplaceAllHit(s, pat, rep);
      assert s[|pat|..] == b;
    } else {
      NoEarlyStart(a, pat, b);
      ReplaceAllFirst(a[1..], pat, rep, b);
      ReplaceAllFirstStep(a, pat, rep, b);
    }
  }

  /** The inductive step of `ReplaceAllFirst`, with the result for the tail as a premise. */
  lemma ReplaceAllFirstStep(a: string, pat: string, rep: string, b: string)
    requires 0 < |pat| && |a| > 0 && (a + pat + b)[..|pat|] != pat
    requires ReplaceAll(a[1..] + pat + b, pat, rep) == a[1..] + rep + ReplaceAll(b, pat, rep)
    ensures ReplaceAll(a + pat + b, pat, rep) == a + rep + ReplaceAll(b, pat, rep)
  {
    ReplaceAllHead(a, pat, rep, b);
    ConsTail(a, rep, ReplaceAll(b, pat, rep));
  }

  /** Where no occurrence starts at the head of `a + pat + b`, the first character of `a` is kept. */
  lemma ReplaceAllHead(a: string, pat: string, rep: string, b: string)
    requires 0 < |pat| && |a| > 0 && (a + pat + b)[..|pat|] != pat
    ensures ReplaceAll(a + pat + b, pat, rep) == [a[0]] + ReplaceAll(a[1..] + pat + b, pat, rep)
  {
    ConsTail(a, pat, b);
    ReplaceAllCons(a[0], a[1..] + pat + b, pat, rep);
  }

  /** Where no occurrence starts at the head, the head is kept and the search moves on by one. */
  lemma ReplaceAllCons(c: char, t: string, pat: string, rep: string)
    requires 0 < |pat| <= |t| + 1 && ([c] + t)[..|pat|] != pat
    ensures ReplaceAll([c] + t, pat, rep) == [c] + ReplaceAll(t, pat, rep)
  {
    assert ([c] + t)[1..] == t;
  }

  /** Where an occurrence starts at the head, it is replaced and the search resumes after it. */
  lemma ReplaceAllHit(s: string, pat: string, rep: string)
    requires 0 < |pat| <= |s| && s[..|pat|] == pat
    ensures ReplaceAll(s, pat, rep) == rep + ReplaceAll(s[|pat|..], pat, rep)
  {
  }

  lemma ConsTail(a: string, u: string, t: string)
    requires |a| > 0
    ensures [a[0]] + (a[1..] + u + t) == a + u + t
  {
    assert a == [a[0]] + a[1..];
  }

  /** No occurrence starts at the head of `a + pat + b` when none lies in `a` and the start of `pat`. */
  lemma NoEarlyStart(a: string, pat: string, b: string)
    requires |pat| > 0 && |a| > 0 && !Occurs(a + pat[..|pat| - 1], pat)
    ensures (a + pat + b)[..|pat|] != pat
    ensures !Occurs(a[1..] + pat[..|pat| - 1], pat)
  {
    var s := a + pat + b;
    var t := a + pat[..|pat| - 1];
    assert s[..|pat|] == t[0..0 + |pat|];
    assert !OccursAt(t, pat, 0);
    assert t[1..] == a[1..] + pat[..|pat| - 1];
    OccursInTail(t, pat);
  }

  /** Every occurrence of the character `c` replaced by `rep`, character by character. */
  function ReplaceChar(s: string, c: char, rep: string): string {
    if s == [] then []
    else (if s[0] == c then rep else [s[0]]) + ReplaceChar(s[1..], c, rep)
  }

  lemma {:induction false} ReplaceCharAppend(a: string, b: string, c: char, rep: string)
    ensures ReplaceChar(a + b, c, rep) == ReplaceChar(a, c, rep) + ReplaceChar(b, c, rep)
  {
    if a != [] {
      assert (a + b)[1..] == a[1..] + b;
      ReplaceCharAppend(a[1..], b, c, rep);
    } else {
      assert a + b == b;
    }
  }

  /** With a one-character search string, `str_replace` works character by character. */
  lemma {:induction false} ReplaceAllOneChar(s: string, c: char, rep: string)
    ensures ReplaceAll(s, [c], rep) == ReplaceChar(s, c, rep)
  {
    if s != [] {
      assert s[..1] == [s[0]];
      ReplaceAllOneChar(s[1..], c, rep);
    }
  }

  /** The number of occurrences of `c` in `s`. */
  function Count(s: string, c: char): nat {
    if s == [] then 0 else (if s[0] == c then 1 else 0) + Count(s[1..], c)
  }

  /** Replacing a character by a string of length `k` adds `k - 1` per occurrence. */
  lemma {:induction false} ReplaceCharLength(s: string, c: char, rep: string)
    ensures |ReplaceChar(s, c, rep)| == |s| + Count(s, c) * (|rep| - 1)
  {
    if s != [] {
      ReplaceCharLength(s[1..], c, rep);
    }
  }

  lemma {:induction false} CountAppend(a: string, b: string, c: char)
    ensures Count(a + b, c) == Count(a, c) + Count(b, c)
  {
    if a == [] {
      assert a + b == b;
    } else {
      assert (a + b)[1..] == a[1..] + b;
      CountAppend(a[1..], b, c);
    }
  }

  lemma {:induction false} CountAbsent(s: string, c: char)
    ensures c !in s ==> Count(s, c) == 0
  {
    if s != [] {
      CountAbsent(s[1..], c);
    }
  }

  /**
   * `implode($sep, $xs)` for a one-character glue: pieces free of the glue are joined
   * with exactly one glue character between neighbours.
   */
  function Join(sep: char, xs: seq<string>): (r: string)
    ensures |xs| > 0 && (forall k :: 0 <= k < |xs| ==> sep !in xs[k]) ==> Count(r, sep) == |xs| - 1
  {
    if |xs| == 0 then ""
    else if |xs| == 1 then
      CountAbsent(xs[0], sep);
      xs[0]
    else
      var rest := Join(sep, xs[1..]);
      CountAbsent(xs[0], sep);
      assert Count([sep], sep) == 1;
      CountAppend(xs[0], [sep], sep);
      CountAppend(xs[0] + [sep], rest, sep);
      assert forall k :: 0 <= k < |xs[1..]| ==> xs[1..][k] == xs[k + 1];
      xs[0] + [sep] + rest
  }

  /** `explode($sep, $s)`: the pieces between the separators (never empty). */
  function Split(s: string, sep: char): (r: seq<string>)
    ensures |r| > 0
    decreases |s|
  {
    match FirstIndex(s, sep)
    case None => [s]
    case Some(i) => [s[..i]] + Split(s[i + 1..], sep)
  }

  /** Joining pieces that do not contain the glue can be undone by splitting. */
  lemma {:induction false} SplitJoin(sep: char, xs: seq<string>)
    requires |xs| > 0
    requires forall k :: 0 <= k < |xs| ==> sep !in xs[k]
    ensures Split(Join(sep, xs), sep) == xs
  {
    if |xs| == 1 {
      assert FirstIndex(xs[0], sep).None?;
    } else {
      var rest := Join(sep, xs[1..]);
      assert Join(sep, xs) == xs[0] + [sep] + rest;
      SplitStep(sep, xs[0], rest);
      SplitJoin(sep, xs[1..]);
      assert xs == [xs[0]] + xs[1..];
    }
  }

  /** Splitting at the first separator peels off the piece in front of it. */
  lemma SplitStep(sep: char, a: string, rest: string)
    requires sep !in a
    ensures Split(a + [sep] + rest, sep) == [a] + Split(rest, sep)
  {
    var s := a + [sep] + rest;
    FirstIndexOfSplit(a, sep, rest);
    assert s[..|a|] == a;
    assert s[|a| + 1..] == rest;
  }

  function DigitChar(d: nat): (c: char)
    requires d < 10
    ensures '0' <= c <= '9'
  {
    ('0' as int + d) as char
  }

  /** The decimal digits of a natural number, most significant first, without leading zeros. */
  function NatToString(n: nat): (r: string)
    ensures |r| > 0
    ensures forall k :: 0 <= k < |r| ==> '0' <= r[k] <= '9'
  {
    if n < 10 then [DigitChar(n)] else NatToString(n / 10) + [DigitChar(n % 10)]
  }

  /**
   * PHP's `(string)` of an `int`: a minus sign for negative numbers, then the digits;
   * the digits read back as the magnitude.
   */
  function IntToString(i: int): (r: string)
    ensures |r| > 0 && (r[0] == '-' <==> i < 0)
    ensures i >= 0 ==> (forall k :: 0 <= k < |r| ==> '0' <= r[k] <= '9') && DigitsValue(r) == i
    ensures i < 0 ==> (forall k :: 1 <= k < |r| ==> '0' <= r[k] <= '9') && DigitsValue(r[1..]) == -i
  {
    if i < 0 then
      NatToStringValue(-i);
      assert ("-" + NatToString(-i))[1..] == NatToString(-i);
      "-" + NatToString(-i)
    else
      NatToStringValue(i);
      NatToString(i)
  }

  /** The value of a string of decimal digits. */
  function DigitsValue(s: string): nat
    requires forall k :: 0 <= k < |s| ==> '0' <= s[k] <= '9'
  {
    if s == [] then 0 else DigitsValue(s[..|s| - 1]) * 10 + (s[|s| - 1] as int - '0' as int)
  }

  /** The decimal rendering is read back as the same number. */
  lemma {:induction false} NatToStringValue(n: nat)
    ensures DigitsValue(NatToString(n)) == n
  {
    if n >= 10 {
      var s := NatToString(n / 10) + [DigitChar(n % 10)];
      assert s[..|s| - 1] == NatToString(n / 10);
      NatToStringValue(n / 10);
    }
  }
}
