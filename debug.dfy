/** Rust's `{:?}` (Debug) rendering of a `String`, as `format!` applies it to
    each answer of the enrollment form: the text between double quotes, with
    `"`, `\`, NUL, tab, carriage return and line feed written as backslash
    escapes and the other ASCII control characters as `\u{..}`. Characters
    outside ASCII are passed through (see the README). */
module Debug {

  /** An ASCII character that `{:?}` writes as itself. */
  predicate PlainChar(c: char) {
    ' ' <= c <= '~' && c != '"' && c != '\\'
  }

  predicate Plain(s: string) {
    forall i :: 0 <= i < |s| ==> PlainChar(s[i])
  }

  function HexDigit(d: nat): (c: char)
    requires d < 16
  {
    if d < 10 then ('0' as int + d) as char else ('a' as int + d - 10) as char
  }

  /** Lower-case hexadecimal without leading zeros, as in `\u{1b}`. */
  function Hex(n: nat): string
    requires 0 < n < 256
  {
    if n < 16 then [HexDigit(n)] else [HexDigit(n / 16), HexDigit(n % 16)]
  }

  function EscapeChar(c: char): (r: string)
    ensures |r| >= 1
    ensures '\n' !in r
    ensures PlainChar(c) ==> r == [c]
    ensures c == '"' || c == '\\' ==> r == ['\\', c]
  {
    if c == '\0' then "\\0"
    else if c == '\t' then "\\t"
    else if c == '\r' then "\\r"
    else if c == '\n' then "\\n"
    else if c == '\\' then "\\\\"
    else if c == '"' then "\\\""
    else if c < ' ' || c as int == 0x7F then "\\u{" + Hex(c as int) + "}"
    else [c]
  }

  function Escape(s: string): (r: string)
    ensures |r| >= |s|
    ensures '\n' !in r
    ensures Plain(s) ==> r == s
  {
    if s == [] then "" else EscapeChar(s[0]) + Escape(s[1..])
  }

  /** `format!("{:?}", s)` for a `String` `s`. */
  function Quote(s: string): (r: string)
    ensures |r| >= 2 && r[0] == '"' && r[|r| - 1] == '"'
    ensures '\n' !in r
    ensures Plain(s) ==> r == "\"" + s + "\""
  {
    "\"" + Escape(s) + "\""
  }
}
