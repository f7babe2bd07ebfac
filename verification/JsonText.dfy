/** How the parser reads text: for every memory image and start, the value it builds and where it stops. */
module JsonText {
  import opened Json

  /**
   * Result of reading at some position of the memory.
   * `end` is where the cursor is left, after success and after failure alike.
   * Undefined: the code would read outside the memory, or use a number that sscanf did not set.
   */
  datatype Outcome<+T> = Parsed(value: T, end: nat) | Rejected(end: nat) | Undefined

  /** The parser's only demand: the memory it is given holds a terminator in its last byte. */
  predicate Terminated(mem: string) {
    |mem| > 0 && mem[|mem| - 1] == NUL
  }

  function Skip(mem: string, p: nat): (q: nat)
    requires Terminated(mem) && p < |mem|
    ensures p <= q < |mem| && !IsSpace(mem[q])
    ensures forall i :: p <= i < q ==> IsSpace(mem[i])
    decreases |mem| - p
  {
    if IsSpace(mem[p]) then Skip(mem, p + 1) else p
  }

  // ---------------------------------------------------------------- literals

  /** stream_cmp: the cursor moves over the common prefix even when the literal is not there. */
  function Compare(mem: string, p: nat, lit: string): (o: Outcome<bool>)
    requires Terminated(mem) && p < |mem| && NUL !in lit
    ensures o.Parsed? ==> p <= o.end < |mem| && o.end <= p + |lit|
    ensures o.Parsed? ==> (o.value <==> o.end == p + |lit|)
    ensures o.Parsed? ==> mem[p..(o.end)] == lit[..(o.end - p)]
    ensures !o.Rejected?
    decreases |lit|
  {
    if lit == [] then
      if mem[p] == NUL then Undefined else Parsed(true, p)
    else if mem[p] == lit[0] then
      var o := Compare(mem, p + 1, lit[1..]);
      assert o.Parsed? ==> mem[p..(o.end)] == [mem[p]] + mem[p + 1..(o.end)];
      assert o.Parsed? ==> lit[..(o.end - p)] == [lit[0]] + lit[1..][..(o.end - p - 1)];
      o
    else
      Parsed(false, p)
  }

  // ---------------------------------------------------------------- numbers

  /** Reads a run of digits, continuing the decimal number `n`. */
  function Digits(mem: string, p: nat, n: int): (r: (int, nat))
    requires Terminated(mem) && p < |mem|
    ensures p <= r.1 < |mem| && !IsDigit(mem[r.1])
    ensures forall i :: p <= i < r.1 ==> IsDigit(mem[i])
    decreases |mem| - p
  {
    if IsDigit(mem[p]) then Digits(mem, p + 1, 10 * n + (mem[p] as int - '0' as int)) else (n, p)
  }

  function Exponent(mem: string, p: nat): (r: (int, nat))
    requires Terminated(mem) && p < |mem|
    ensures p <= r.1 < |mem|
  {
    if mem[p] == 'e' || mem[p] == 'E' then
      if mem[p + 1] == '-' then
        var (n, q) := Digits(mem, p + 2, 0); (-n, q)
      else
        Digits(mem, if mem[p + 1] == '+' then p + 2 else p + 1, 0)
    else (0, p)
  }

  /** The digits before the point. */
  function Whole(mem: string, p: nat): (r: (int, nat))
    requires Terminated(mem) && p < |mem|
    ensures p <= r.1 < |mem|
    ensures IsDigit(mem[p]) ==> p < r.1
  {
    var q := if mem[p] == '0' then p + 1 else p;
    if '1' <= mem[q] <= '9' then Digits(mem, q, 0) else (0, q)
  }

  /** The digits after the point, continuing `n`. */
  function Fraction(mem: string, p: nat, n: int): (r: (int, nat))
    requires Terminated(mem) && p < |mem|
    ensures p <= r.1 < |mem|
  {
    if mem[p] == '.' && IsDigit(mem[p + 1]) then Digits(mem, p + 1, n) else (n, p)
  }

  function NumberAt(mem: string, p: nat): (r: (Value, nat))
    requires Terminated(mem) && p < |mem|
    ensures p <= r.1 < |mem| && r.0.Number?
    ensures mem[p] == '-' || IsDigit(mem[p]) ==> p < r.1
  {
    var (whole, q1) := Whole(mem, if mem[p] == '-' then p + 1 else p);
    var (mantissa, q2) := Fraction(mem, q1, whole);
    var (exponent, q3) := Exponent(mem, q2);
    var places := if q2 == q1 then 0 else q2 - q1 - 1;
    (Number(if mem[p] == '-' then -mantissa else mantissa, exponent - places), q3)
  }

  // ---------------------------------------------------------------- strings

  predicate IsHex(c: char) {
    IsDigit(c) || 'a' <= c <= 'f' || 'A' <= c <= 'F'
  }

  function HexValue(c: char): (n: nat)
    requires IsHex(c)
    ensures n < 16
  {
    if IsDigit(c) then c as int - '0' as int
    else if 'a' <= c <= 'f' then c as int - 'a' as int + 10
    else c as int - 'A' as int + 10
  }

  /** Four hexadecimal digits stand at p, inside the memory. */
  predicate HasHex4(mem: string, p: nat) {
    p + 4 < |mem| && IsHex(mem[p]) && IsHex(mem[p + 1]) && IsHex(mem[p + 2]) && IsHex(mem[p + 3])
  }

  function Hex4(mem: string, p: nat): (n: nat)
    requires HasHex4(mem, p)
    ensures n < 0x10000
  {
    HexValue(mem[p]) * 4096 + HexValue(mem[p + 1]) * 256 + HexValue(mem[p + 2]) * 16 + HexValue(mem[p + 3])
  }

  /** `0x10000 | (hi & 0x3FF) << 10 | lo & 0x3FF`: bit 16 is or-ed in, not added. */
  function CombineSurrogates(hi: nat, lo: nat): (uc: nat)
    requires 0xD800 <= hi < 0xDC00 && 0xDC00 <= lo < 0xE000
    ensures 0x10000 <= uc < 0x110000
  {
    var shifted := (hi - 0xD800) * 0x400;
    (if shifted / 0x10000 % 2 == 1 then shifted else 0x10000 + shifted) + (lo - 0xDC00)
  }

  /** The bytes written for code point uc, last byte first in the code: 1 to 4 of them. */
  function EncodeUtf8(uc: nat): (s: string)
    requires uc < 0x110000
    ensures 1 <= |s| <= 4
  {
    if uc < 0x80 then [uc as char]
    else if uc < 0x800 then [(0xC0 + uc / 64) as char, Continuation(uc)]
    else if uc < 0x10000 then [(0xE0 + uc / 4096) as char, Continuation(uc / 64), Continuation(uc)]
    else [(0xF0 + uc / 262144) as char, Continuation(uc / 4096), Continuation(uc / 64), Continuation(uc)]
  }

  /** `(uc | 0x80) & 0xBF` as a byte. */
  function Continuation(uc: nat): char {
    (0x80 + uc % 64) as char
  }

  /** One unit of a literal's body that starts with a backslash: the bytes it writes and where it ends. */
  function EscapeAt(mem: string, p: nat): (o: Outcome<string>)
    requires Terminated(mem) && p < |mem| && mem[p] == '\\'
    ensures !o.Rejected?
    ensures o.Parsed? ==> p + 2 <= o.end <= |mem| && |o.value| <= 4
  {
    match mem[p + 1]
    case 'b' => Parsed([BACKSPACE], p + 2)
    case 'f' => Parsed([FORMFEED], p + 2)
    case 'n' => Parsed("\n", p + 2)
    case 'r' => Parsed("\r", p + 2)
    case 't' => Parsed("\t", p + 2)
    case 'u' => UnicodeEscapeAt(mem, p + 2)
    case c => Parsed([c], p + 2)
  }

  /** After backslash and u: NUL and stray second halves write nothing; a first half needs its second. */
  function UnicodeEscapeAt(mem: string, p: nat): (o: Outcome<string>)
    requires Terminated(mem)
    ensures !o.Rejected?
    ensures o.Parsed? ==> p + 4 <= o.end < |mem| && |o.value| <= 4
    ensures o.Parsed? && |o.value| == 4 ==> p + 10 <= o.end
  {
    if !HasHex4(mem, p) then Undefined
    else
      var uc := Hex4(mem, p);
      if 0xDC00 <= uc <= 0xDFFF || uc == 0 then Parsed("", p + 4)
      else if 0xD800 <= uc <= 0xDBFF then
        if mem[p + 4] != '\\' || mem[p + 5] != 'u' then Parsed("", p + 4)
        else if !HasHex4(mem, p + 6) then Undefined
        else
          var uc2 := Hex4(mem, p + 6);
          if uc2 < 0xDC00 || uc2 > 0xDFFF then Parsed("", p + 10)
          else Parsed(EncodeUtf8(CombineSurrogates(uc, uc2)), p + 10)
      else Parsed(EncodeUtf8(uc), p + 4)
  }

  /** A literal's body: it ends at a quote, which is consumed, or at a NUL, which is not. */
  function Body(mem: string, p: nat): (o: Outcome<string>)
    requires Terminated(mem)
    ensures !o.Rejected?
    ensures o.Parsed? ==> p <= o.end < |mem|
    decreases |mem| - p
  {
    if p >= |mem| then Undefined
    else if mem[p] == '\"' then Parsed("", p + 1)
    else if mem[p] == NUL then Parsed("", p)
    else if mem[p] != '\\' then Prepend([mem[p]], Body(mem, p + 1))
    else match EscapeAt(mem, p)
      case Parsed(s, q) => Prepend(s, Body(mem, q))
      case _ => Undefined
  }

  function Prepend(s: string, o: Outcome<string>): Outcome<string> {
    if o.Parsed? then Parsed(s + o.value, o.end) else o
  }

  /** The C string at the start of s: its bytes up to the first terminator. */
  function CString(s: string): (t: string)
    ensures NUL !in t
    ensures NUL !in s ==> t == s
  {
    if s == "" || s[0] == NUL then "" else [s[0]] + CString(s[1..])
  }

  /** parse_string; the cursor only moves on success. */
  function StringAt(mem: string, p: nat): (o: Outcome<string>)
    requires Terminated(mem) && p < |mem|
    ensures o.Parsed? ==> p < o.end < |mem|
    ensures o.Rejected? ==> o.end == p
  {
    if mem[p] != '\"' then Rejected(p)
    else match Body(mem, p + 1)
      case Parsed(s, e) => Parsed(CString(s), e)
      case _ => Undefined
  }

  // ---------------------------------------------------------------- values

  function ValueAt(mem: string, p: nat): (o: Outcome<Value>)
    requires Terminated(mem) && p < |mem|
    ensures o.Parsed? ==> p < o.end < |mem|
    ensures o.Rejected? ==> p <= o.end < |mem|
    decreases |mem| - p, 2
  {
    match Compare(mem, p, "null")
    case Undefined => Undefined
    case Parsed(isNull, p1) =>
      if isNull then Parsed(Null, p1) else
      match Compare(mem, p1, "false")
      case Undefined => Undefined
      case Parsed(isFalse, p2) =>
        if isFalse then Parsed(False, p2) else
        match Compare(mem, p2, "true")
        case Undefined => Undefined
        case Parsed(isTrue, p3) =>
          if isTrue then Parsed(True, p3) else StructureAt(mem, p3)
  }

  /** parse_value once the three literals have been ruled out. */
  function StructureAt(mem: string, p: nat): (o: Outcome<Value>)
    requires Terminated(mem) && p < |mem|
    ensures o.Parsed? ==> p < o.end < |mem|
    ensures o.Rejected? ==> p <= o.end < |mem|
    decreases |mem| - p, 1
  {
    var c := mem[p];
    if c == '\"' then
      match StringAt(mem, p)
      case Parsed(s, e) => Parsed(Str(s), e)
      case Rejected(e) => Rejected(e)
      case Undefined => Undefined
    else if c == '-' || IsDigit(c) then
      var (n, e) := NumberAt(mem, p); Parsed(n, e)
    else if c == '[' then
      var q := Skip(mem, p + 1);
      if mem[q] == ']' then Parsed(Array([]), q + 1) else ItemsAt(mem, q, [])
    else if c == '{' then
      var q := Skip(mem, p + 1);
      if mem[q] == '}' then Parsed(Object([]), q + 1) else MembersAt(mem, q, [])
    else Rejected(p)
  }

  /**
   * What happens after an entry of a container: a closing bracket, or a comma and more.
   * A closing bracket straight after a comma is consumed and then asked for once more.
   */
  datatype Follow = Close(end: nat) | More(next: nat) | Bad(end: nat)

  function AfterEntry(mem: string, p: nat, close: char): (f: Follow)
    requires Terminated(mem) && p < |mem| && (close == ']' || close == '}')
    ensures f.Close? ==> p < f.end < |mem|
    ensures f.More? ==> p < f.next < |mem|
    ensures f.Bad? ==> p <= f.end < |mem|
  {
    var s := Skip(mem, p);
    if mem[s] == ',' then AfterComma(mem, s, close)
    else if mem[s] == close then Close(s + 1)
    else Bad(s)
  }

  function AfterComma(mem: string, s: nat, close: char): (f: Follow)
    requires Terminated(mem) && s < |mem| && mem[s] == ',' && (close == ']' || close == '}')
    ensures f.Close? ==> s < f.end < |mem|
    ensures f.More? ==> s < f.next < |mem|
    ensures f.Bad? ==> s < f.end < |mem|
  {
    var t := Skip(mem, s + 1);
    if mem[t] != close then More(t)
    else if mem[t + 1] == close then Close(t + 2)
    else Bad(t + 1)
  }

  /** The entries of an array from p on, after those in `done`. */
  function ItemsAt(mem: string, p: nat, done: seq<Value>): (o: Outcome<Value>)
    requires Terminated(mem) && p < |mem|
    ensures o.Parsed? ==> p < o.end < |mem| && o.value.Array?
    ensures o.Rejected? ==> p <= o.end < |mem|
    decreases |mem| - p, 3
  {
    match ValueAt(mem, p)
    case Undefined => Undefined
    case Rejected(e) => Rejected(e)
    case Parsed(v, e) =>
      match AfterEntry(mem, e, ']')
      case Close(e') => Parsed(Array(done + [v]), e')
      case More(q) => ItemsAt(mem, q, done + [v])
      case Bad(e') => Rejected(e')
  }

  /** A member's name, its colon and the spaces after it. */
  function NameAt(mem: string, p: nat): (o: Outcome<string>)
    requires Terminated(mem) && p < |mem|
    ensures o.Parsed? ==> p < o.end < |mem|
    ensures o.Rejected? ==> p <= o.end < |mem|
  {
    match StringAt(mem, p)
    case Undefined => Undefined
    case Rejected(e) => Rejected(e)
    case Parsed(name, e) =>
      var s := Skip(mem, e);
      if mem[s] != ':' then Rejected(s) else Parsed(name, Skip(mem, s + 1))
  }

  /** A name, a colon and a value. */
  function MemberAt(mem: string, p: nat): (o: Outcome<Member>)
    requires Terminated(mem) && p < |mem|
    ensures o.Parsed? ==> p < o.end < |mem|
    ensures o.Rejected? ==> p <= o.end < |mem|
    decreases |mem| - p, 0
  {
    match NameAt(mem, p)
    case Undefined => Undefined
    case Rejected(e) => Rejected(e)
    case Parsed(name, q) =>
      match ValueAt(mem, q)
      case Undefined => Undefined
      case Rejected(e) => Rejected(e)
      case Parsed(v, e) => Parsed(Member(name, v), e)
  }

  /** The members of an object from p on, after those in `done`. */
  function MembersAt(mem: string, p: nat, done: seq<Member>): (o: Outcome<Value>)
    requires Terminated(mem) && p < |mem|
    ensures o.Parsed? ==> p < o.end < |mem| && o.value.Object?
    ensures o.Rejected? ==> p <= o.end < |mem|
    decreases |mem| - p, 1
  {
    match MemberAt(mem, p)
    case Undefined => Undefined
    case Rejected(e) => Rejected(e)
    case Parsed(m, e) =>
      match AfterEntry(mem, e, '}')
      case Close(e') => Parsed(Object(done + [m]), e')
      case More(q) => MembersAt(mem, q, done + [m])
      case Bad(e') => Rejected(e')
  }

  /** cJSON_Parse_Stream. */
  function ParseStream(mem: string): (o: Outcome<Value>)
    requires Terminated(mem)
    ensures o.Parsed? ==> 0 < o.end < |mem|
    ensures o.Rejected? ==> 0 <= o.end < |mem|
  {
    ValueAt(mem, Skip(mem, 0))
  }

  // ---------------------------------------------------------------- one step of each loop

  lemma ItemsUnfold(mem: string, p: nat, done: seq<Value>)
    requires Terminated(mem) && p < |mem|
    ensures ValueAt(mem, p).Undefined? ==> ItemsAt(mem, p, done) == Undefined
    ensures ValueAt(mem, p).Rejected? ==> ItemsAt(mem, p, done) == Rejected(ValueAt(mem, p).end)
    ensures ValueAt(mem, p).Parsed? ==>
              var f, all := AfterEntry(mem, ValueAt(mem, p).end, ']'), done + [ValueAt(mem, p).value];
              && (f.More? ==> ItemsAt(mem, p, done) == ItemsAt(mem, f.next, all))
              && (f.Close? ==> ItemsAt(mem, p, done) == Parsed(Array(all), f.end))
              && (f.Bad? ==> ItemsAt(mem, p, done) == Rejected(f.end))
  {
    hide ValueAt, AfterEntry;
  }

  lemma MembersUnfold(mem: string, p: nat, done: seq<Member>)
    requires Terminated(mem) && p < |mem|
    ensures MemberAt(mem, p).Undefined? ==> MembersAt(mem, p, done) == Undefined
    ensures MemberAt(mem, p).Rejected? ==> MembersAt(mem, p, done) == Rejected(MemberAt(mem, p).end)
    ensures MemberAt(mem, p).Parsed? ==>
              var f, all := AfterEntry(mem, MemberAt(mem, p).end, '}'), done + [MemberAt(mem, p).value];
              && (f.More? ==> MembersAt(mem, p, done) == MembersAt(mem, f.next, all))
              && (f.Close? ==> MembersAt(mem, p, done) == Parsed(Object(all), f.end))
              && (f.Bad? ==> MembersAt(mem, p, done) == Rejected(f.end))
  {
    hide MemberAt, AfterEntry;
  }

  /** An array after its bracket. */
  lemma OpenArray(mem: string, p: nat)
    requires Terminated(mem) && p < |mem| && mem[p] == '['
    ensures var q := Skip(mem, p + 1);
            StructureAt(mem, p) == if mem[q] == ']' then Parsed(Array([]), q + 1) else ItemsAt(mem, q, [])
  {
    hide ItemsAt, Skip;
  }

  /** An object after its brace. */
  lemma OpenObject(mem: string, p: nat)
    requires Terminated(mem) && p < |mem| && mem[p] == '{'
    ensures var q := Skip(mem, p + 1);
            StructureAt(mem, p) == if mem[q] == '}' then Parsed(Object([]), q + 1) else MembersAt(mem, q, [])
  {
    hide MembersAt, Skip;
  }
}
