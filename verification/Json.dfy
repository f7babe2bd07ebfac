/** The values a cJSON tree stands for, and the text the printer gives each of them. */
module Json {

  datatype Option<+T> = None | Some(value: T)

  /** A number is the exact decimal `mantissa * 10^exponent` that its digits spell. */
  datatype Value =
    | Null
    | False
    | True
    | Number(mantissa: int, exponent: int)
    | Str(text: string)
    | Array(items: seq<Value>)
    | Object(members: seq<Member>)

  datatype Member = Member(name: string, value: Value)

  const NUL: char := '\0'
  const BACKSPACE: char := '\U{8}'
  const FORMFEED: char := '\U{c}'
  const VERTICALTAB: char := '\U{b}'
  const INT_MIN: int := -0x8000_0000
  const INT_MAX: int := 0x7fff_ffff

  /** isspace in the C locale */
  predicate IsSpace(c: char) {
    c == ' ' || c == '\t' || c == '\n' || c == '\r' || c == VERTICALTAB || c == FORMFEED
  }

  predicate IsDigit(c: char) {
    '0' <= c <= '9'
  }

  function DigitOf(n: nat): (c: char)
    requires n < 10
    ensures IsDigit(c) && c as int - '0' as int == n
  {
    ('0' as int + n) as char
  }

  /** The sixteen digits of the "%x" format. */
  function HexDigitOf(n: nat): (c: char)
    requires n < 16
  {
    if n < 10 then DigitOf(n) else ('a' as int + (n - 10)) as char
  }

  function Tabs(n: nat): (s: string)
    ensures |s| == n && forall i :: 0 <= i < n ==> s[i] == '\t'
  {
    seq(n, _ => '\t')
  }

  // ---------------------------------------------------------------- numbers

  function Decimal(n: nat): (s: string)
    ensures |s| >= 1 && forall i :: 0 <= i < |s| ==> IsDigit(s[i])
    ensures s[0] == '0' <==> n == 0
  {
    if n < 10 then [DigitOf(n)] else Decimal(n / 10) + [DigitOf(n % 10)]
  }

  predicate AllDigits(s: string) {
    forall i :: 0 <= i < |s| ==> IsDigit(s[i])
  }

  /** The number that decimal digits stand for. */
  function Spelled(d: string): (n: nat)
    requires AllDigits(d)
  {
    if d == "" then 0 else 10 * Spelled(d[..|d| - 1]) + (d[|d| - 1] as int - '0' as int)
  }

  lemma {:induction false} SpelledDecimal(n: nat)
    ensures Spelled(Decimal(n)) == n
  {
    if n >= 10 {
      SpelledDecimal(n / 10);
      assert Decimal(n)[..|Decimal(n)| - 1] == Decimal(n / 10);
    }
  }

  /** What "%d" prints. */
  function IntText(n: int): string {
    if n < 0 then "-" + Decimal(-n) else Decimal(n)
  }

  // ---------------------------------------------------------------- strings

  /** What one character of a string becomes inside a printed literal. */
  function EscapeChar(c: char): string {
    if c == '\\' then "\\\\"
    else if c == '\"' then "\\\""
    else if c == BACKSPACE then "\\b"
    else if c == FORMFEED then "\\f"
    else if c == '\n' then "\\n"
    else if c == '\r' then "\\r"
    else if c == '\t' then "\\t"
    else if c as int < 32 then "\\u00" + [HexDigitOf(c as int / 16), HexDigitOf(c as int % 16)]
    else [c]
  }

  function Escape(s: string): string {
    if s == "" then "" else EscapeChar(s[0]) + Escape(s[1..])
  }

  function Quote(s: string): string {
    "\"" + Escape(s) + "\""
  }

  // ---------------------------------------------------------------- values

  /** What print_value renders: formatted text indents object members with tabs. */
  function Print(v: Value, depth: nat, fmt: bool): string
    decreases v
  {
    match v
    case Null => "null"
    case False => "false"
    case True => "true"
    case Number(m, _) => IntText(m)
    case Str(s) => Quote(s)
    case Array(items) => "[" + PrintItems(items, depth + 1, fmt) + "]"
    case Object(members) =>
      "{" + (if fmt then "\n" else "") + PrintMembers(members, depth + 1, fmt)
      + (if fmt then Tabs(depth) else "") + "}"
  }

  function PrintItems(items: seq<Value>, depth: nat, fmt: bool): string
    decreases items
  {
    if items == [] then ""
    else Print(items[0], depth, fmt)
         + (if |items| > 1 then (if fmt then ", " else ",") else "")
         + PrintItems(items[1..], depth, fmt)
  }

  function PrintMembers(members: seq<Member>, depth: nat, fmt: bool): string
    decreases members
  {
    if members == [] then ""
    else PrintMember(members[0], |members| == 1, depth, fmt) + PrintMembers(members[1..], depth, fmt)
  }

  function PrintMember(m: Member, last: bool, depth: nat, fmt: bool): string
    decreases m
  {
    (if fmt then Tabs(depth) else "") + Quote(m.name) + (if fmt then ":\t" else ":")
    + Print(m.value, depth, fmt) + (if last then "" else ",") + (if fmt then "\n" else "")
  }

  /** The trees whose print is meant to be read back: strings without NUL, numbers in the range of int. */
  predicate Printable(v: Value)
    decreases v
  {
    match v
    case Null => true
    case False => true
    case True => true
    case Number(m, e) => e == 0 && INT_MIN <= m <= INT_MAX
    case Str(s) => NUL !in s
    case Array(items) => forall x :: x in items ==> Printable(x)
    case Object(members) => forall m: Member :: m in members ==> NUL !in m.name && Printable(m.value)
  }

  predicate IsContainer(v: Value) {
    v.Array? || v.Object?
  }
}
