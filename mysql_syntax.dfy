/**
 * How a MySQL server reads the text the escapers produce, as a reference meaning for them:
 * a single-quoted string literal with backslash escapes (section 11.1.1 "String Literals"
 * of the MySQL 8.0 Reference Manual, with the NO_BACKSLASH_ESCAPES mode off), a
 * backtick-quoted identifier (section 11.2 "Schema Object Names"), and the pattern
 * language of LIKE with its default escape character `\`.
 */
module MySqlSyntax {
  import opened Wrappers

  /** What a backslash escape inside a string literal stands for; `\%` and `\_` keep the backslash. */
  function UnescapeLiteralChar(x: char): string {
    if x == '0' then "\0"
    else if x == 'b' then "\U{08}"
    else if x == 'n' then "\n"
    else if x == 'r' then "\r"
    else if x == 't' then "\t"
    else if x == 'Z' then "\U{1A}"
    else if x == '%' then "\\%"
    else if x == '_' then "\\_"
    else [x]
  }

  /** Puts `x` in front of the text read so far, keeping what follows the token. */
  function Prepend(x: string, r: Option<(string, string)>): Option<(string, string)> {
    match r
    case None => None
    case Some(p) => Some((x + p.0, p.1))
  }

  lemma PrependPrepend(x: string, y: string, r: Option<(string, string)>)
    ensures Prepend(x, Prepend(y, r)) == Prepend(x + y, r)
  {
    if r.Some? {
      assert x + (y + r.value.0) == (x + y) + r.value.0;
    }
  }

  /**
   * The rest of a single-quoted literal after its opening quote: the text it stands for
   * and what follows the closing quote, or `None` when the literal is not closed.
   */
  function LexStringBody(s: string): Option<(string, string)>
    decreases |s|
  {
    if s == [] then None
    else if s[0] == '\'' then
      if |s| > 1 && s[1] == '\'' then Prepend("'", LexStringBody(s[2..])) else Some(("", s[1..]))
    else if s[0] == '\\' then
      if |s| == 1 then None else Prepend(UnescapeLiteralChar(s[1]), LexStringBody(s[2..]))
    else Prepend([s[0]], LexStringBody(s[1..]))
  }

  /** A single-quoted string literal at the start of `s`: its value and the text after it. */
  function LexStringLiteral(s: string): Option<(string, string)> {
    if s != [] && s[0] == '\'' then LexStringBody(s[1..]) else None
  }

  /** The rest of a backtick-quoted identifier after its opening backtick; "``" stands for "`". */
  function LexIdentifierBody(s: string): Option<(string, string)>
    decreases |s|
  {
    if s == [] then None
    else if s[0] == '`' then
      if |s| > 1 && s[1] == '`' then Prepend("`", LexIdentifierBody(s[2..])) else Some(("", s[1..]))
    else Prepend([s[0]], LexIdentifierBody(s[1..]))
  }

  /** A backtick-quoted identifier at the start of `s`: its name and the text after it. */
  function LexIdentifier(s: string): Option<(string, string)> {
    if s != [] && s[0] == '`' then LexIdentifierBody(s[1..]) else None
  }

  /** One element of a LIKE pattern. */
  datatype LikeItem = Lit(c: char) | AnyString | AnyChar

  /** A LIKE pattern (the value of the literal): `%` and `_` are wildcards, `\` quotes the next character. */
  function LikePattern(p: string): seq<LikeItem>
    decreases |p|
  {
    if p == [] then []
    else if p[0] == '\\' && |p| > 1 then [Lit(p[1])] + LikePattern(p[2..])
    else if p[0] == '%' then [AnyString] + LikePattern(p[1..])
    else if p[0] == '_' then [AnyChar] + LikePattern(p[1..])
    else [Lit(p[0])] + LikePattern(p[1..])
  }

  /** The pattern that matches exactly the string `v`. */
  function Literally(v: string): seq<LikeItem> {
    if v == [] then [] else [Lit(v[0])] + Literally(v[1..])
  }
}
