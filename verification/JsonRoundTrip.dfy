/** Parsing what the printer renders gives back the tree and stops right after it. */
module JsonRoundTrip {
  import opened Json
  import opened JsonText

  /** The characters of s stand at p, and at least one more byte follows them. */
  predicate TextAt(mem: string, p: nat, s: string)
    ensures TextAt(mem, p, s) ==> p + |s| < |mem|
  {
    p + |s| < |mem| && forall i {:trigger s[i]} :: 0 <= i < |s| ==> mem[p + i] == s[i]
  }

  lemma SplitText(mem: string, p: nat, a: string, b: string)
    requires TextAt(mem, p, a + b)
    ensures TextAt(mem, p, a) && TextAt(mem, p + |a|, b)
  {
    forall i | 0 <= i < |a| ensures mem[p + i] == a[i] { assert (a + b)[i] == a[i]; }
    forall i | 0 <= i < |b| ensures mem[p + |a| + i] == b[i] { assert (a + b)[|a| + i] == b[i]; }
  }

  lemma SplitFive(mem: string, p: nat, a: string, b: string, c: string, d: string, e: string)
    requires TextAt(mem, p, a + b + c + d + e)
    ensures TextAt(mem, p, a) && TextAt(mem, p + |a|, b) && TextAt(mem, p + |a| + |b|, c)
    ensures TextAt(mem, p + |a| + |b| + |c|, d) && TextAt(mem, p + |a| + |b| + |c| + |d|, e)
  {
    hide TextAt;
    SplitText(mem, p, a + b + c + d, e);
    SplitText(mem, p, a + b + c, d);
    SplitText(mem, p, a + b, c);
    SplitText(mem, p, a, b);
  }

  lemma CharAt(mem: string, p: nat, s: string, i: nat)
    requires TextAt(mem, p, s) && i < |s|
    ensures mem[p + i] == s[i]
  {
  }

  lemma {:induction false} SkipOver(mem: string, p: nat, q: nat)
    requires Terminated(mem) && p <= q < |mem|
    requires forall i :: p <= i < q ==> IsSpace(mem[i])
    ensures Skip(mem, p) == Skip(mem, q)
    decreases q - p
  {
    if p < q { SkipOver(mem, p + 1, q); }
  }

  lemma SkipNothing(mem: string, p: nat)
    requires Terminated(mem) && p < |mem| && (!IsSpace(mem[p]) || mem[p] == ']')
    ensures Skip(mem, p) == p
  {
  }

  lemma SkipText(mem: string, p: nat, ws: string)
    requires Terminated(mem) && TextAt(mem, p, ws)
    requires forall i :: 0 <= i < |ws| ==> IsSpace(ws[i])
    ensures Skip(mem, p) == Skip(mem, p + |ws|)
  {
    forall i | p <= i < p + |ws| ensures IsSpace(mem[i]) { CharAt(mem, p, ws, i - p); }
    SkipOver(mem, p, p + |ws|);
  }

  // ---------------------------------------------------------------- numbers

  lemma {:induction false} DigitsRead(mem: string, p: nat, n: nat)
    requires Terminated(mem) && TextAt(mem, p, Decimal(n))
    ensures Digits(mem, p, 0) == Digits(mem, p + |Decimal(n)|, n)
  {
    if n < 10 {
      CharAt(mem, p, Decimal(n), 0);
    } else {
      SplitText(mem, p, Decimal(n / 10), [DigitOf(n % 10)]);
      DigitsRead(mem, p, n / 10);
      CharAt(mem, p + |Decimal(n / 10)|, [DigitOf(n % 10)], 0);
    }
  }

  /** A character that cannot extend a number and is not the terminator. */
  predicate Stops(c: char) {
    !IsDigit(c) && c != '.' && c != 'e' && c != 'E' && c != NUL
  }

  lemma WholeRead(mem: string, p: nat, n: nat)
    requires Terminated(mem) && TextAt(mem, p, Decimal(n)) && Stops(mem[p + |Decimal(n)|])
    ensures IsDigit(mem[p]) && Whole(mem, p) == (n, p + |Decimal(n)|)
  {
    CharAt(mem, p, Decimal(n), 0);
    DigitsRead(mem, p, n);
  }

  lemma WholeAlone(mem: string, p: nat, n: int, e: nat)
    requires Terminated(mem) && p < |mem| && e < |mem| && Stops(mem[e])
    requires Whole(mem, if mem[p] == '-' then p + 1 else p) == (n, e)
    ensures NumberAt(mem, p) == (Number(if mem[p] == '-' then -n else n, 0), e)
  {
    hide Whole, Digits;
  }

  lemma IntIs(n: int)
    ensures n >= 0 ==> IntText(n) == Decimal(n) && IsDigit(Decimal(n)[0])
    ensures n < 0 ==> IntText(n) == "-" + Decimal(-n)
  {
    hide Decimal;
  }

  lemma IntRead(mem: string, p: nat, n: int)
    requires Terminated(mem) && TextAt(mem, p, IntText(n)) && Stops(mem[p + |IntText(n)|])
    ensures mem[p] == '-' || IsDigit(mem[p])
    ensures NumberAt(mem, p) == (Number(n, 0), p + |IntText(n)|)
  {
    hide *;
    IntIs(n);
    if n < 0 {
      SplitText(mem, p, "-", Decimal(-n));
      CharAt(mem, p, "-", 0);
      WholeRead(mem, p + 1, -n);
      WholeAlone(mem, p, -n, p + |IntText(n)|);
    } else {
      WholeRead(mem, p, n);
      DigitIsNoSign(mem[p]);
      WholeAlone(mem, p, n, p + |IntText(n)|);
    }
  }

  lemma DigitIsNoSign(c: char)
    requires IsDigit(c)
    ensures c != '-'
  {
  }

  // ---------------------------------------------------------------- strings

  /** The control characters without a letter of their own. */
  lemma ControlRead(mem: string, p: nat, c: char)
    requires Terminated(mem) && c != NUL && TextAt(mem, p, EscapeChar(c)) && |EscapeChar(c)| == 6
    ensures mem[p] == '\\' && EscapeAt(mem, p) == Parsed([c], p + 6)
  {
    var e := EscapeChar(c);
    CharAt(mem, p, e, 0);
    CharAt(mem, p, e, 1);
    CharAt(mem, p, e, 2);
    CharAt(mem, p, e, 3);
    CharAt(mem, p, e, 4);
    CharAt(mem, p, e, 5);
    assert Hex4(mem, p + 2) == c as int;
  }

  lemma LetterRead(mem: string, p: nat, c: char)
    requires Terminated(mem) && c != NUL && TextAt(mem, p, EscapeChar(c)) && |EscapeChar(c)| == 2
    ensures mem[p] == '\\' && EscapeAt(mem, p) == Parsed([c], p + 2)
  {
    CharAt(mem, p, EscapeChar(c), 0);
    CharAt(mem, p, EscapeChar(c), 1);
  }

  lemma EscapeCharRead(mem: string, p: nat, c: char)
    requires Terminated(mem) && c != NUL && TextAt(mem, p, EscapeChar(c))
    ensures Body(mem, p) == Prepend([c], Body(mem, p + |EscapeChar(c)|))
  {
    hide TextAt, EscapeAt;
    match |EscapeChar(c)|
    case 6 => ControlRead(mem, p, c);
    case 2 => LetterRead(mem, p, c);
    case _ => CharAt(mem, p, EscapeChar(c), 0);
  }

  lemma {:induction false} EscapeRead(mem: string, p: nat, s: string)
    requires Terminated(mem) && NUL !in s && TextAt(mem, p, Escape(s)) && mem[p + |Escape(s)|] == '\"'
    ensures Body(mem, p) == Parsed(s, p + |Escape(s)| + 1)
    decreases |s|
  {
    hide TextAt, EscapeChar, EscapeAt;
    if s != "" {
      hide Body;
      SplitText(mem, p, EscapeChar(s[0]), Escape(s[1..]));
      EscapeCharRead(mem, p, s[0]);
      EscapeRead(mem, p + |EscapeChar(s[0])|, s[1..]);
      assert s == [s[0]] + s[1..];
    }
  }

  lemma QuoteIs(s: string)
    ensures Quote(s) == "\"" + (Escape(s) + "\"")
  {
    hide Escape;
  }

  /** How a printed string lies in memory. */
  lemma QuoteLayout(mem: string, p: nat, s: string)
    requires TextAt(mem, p, Quote(s))
    ensures |Quote(s)| == |Escape(s)| + 2 && TextAt(mem, p + 1, Escape(s))
    ensures mem[p] == '\"' && mem[p + 1 + |Escape(s)|] == '\"'
  {
    hide *;
    QuoteIs(s);
    SplitText(mem, p, "\"", Escape(s) + "\"");
    SplitText(mem, p + 1, Escape(s), "\"");
    CharAt(mem, p, "\"", 0);
    CharAt(mem, p + 1 + |Escape(s)|, "\"", 0);
  }

  /** Unescaping undoes print_string_ptr on every string without NUL. */
  lemma QuoteRead(mem: string, p: nat, s: string)
    requires Terminated(mem) && NUL !in s && TextAt(mem, p, Quote(s))
    ensures mem[p] == '\"'
    ensures StringAt(mem, p) == Parsed(s, p + |Quote(s)|)
  {
    hide TextAt, Escape, Quote, Body;
    QuoteLayout(mem, p, s);
    EscapeRead(mem, p + 1, s);
  }

  // ---------------------------------------------------------------- values

  /** Printed values start with a character that is no space, no comma and no closing bracket. */
  lemma FirstChar(v: Value, depth: nat, fmt: bool)
    ensures |Print(v, depth, fmt)| > 0
    ensures var c := Print(v, depth, fmt)[0];
            !IsSpace(c) && c != ']' && c != '}' && c != ',' && c != NUL
  {
  }

  lemma NotALiteral(mem: string, p: nat)
    requires Terminated(mem) && p < |mem| && mem[p] != 'n' && mem[p] != 'f' && mem[p] != 't'
    ensures ValueAt(mem, p) == StructureAt(mem, p)
  {
  }

  lemma {:induction false} CompareReads(mem: string, p: nat, lit: string)
    requires Terminated(mem) && NUL !in lit && TextAt(mem, p, lit) && mem[p + |lit|] != NUL
    ensures Compare(mem, p, lit) == Parsed(true, p + |lit|)
    decreases |lit|
  {
    if lit != [] {
      CharAt(mem, p, lit, 0);
      assert TextAt(mem, p + 1, lit[1..]) by {
        forall i | 0 <= i < |lit| - 1 ensures mem[p + 1 + i] == lit[1..][i] { assert lit[1..][i] == lit[i + 1]; }
      }
      CompareReads(mem, p + 1, lit[1..]);
    }
  }

  lemma LiteralReads(mem: string, p: nat, v: Value, depth: nat, fmt: bool)
    requires v.Null? || v.False? || v.True?
    requires Terminated(mem) && TextAt(mem, p, Print(v, depth, fmt)) && mem[p + |Print(v, depth, fmt)|] != NUL
    ensures ValueAt(mem, p) == Parsed(v, p + |Print(v, depth, fmt)|)
  {
    var s := Print(v, depth, fmt);
    CharAt(mem, p, s, 0);
    CompareReads(mem, p, s);
  }

  lemma NumberReads(m: int, depth: nat, fmt: bool, mem: string, p: nat)
    requires Terminated(mem) && TextAt(mem, p, Print(Number(m, 0), depth, fmt)) && Stops(mem[p + |Print(Number(m, 0), depth, fmt)|])
    ensures ValueAt(mem, p) == Parsed(Number(m, 0), p + |Print(Number(m, 0), depth, fmt)|)
  {
    hide ValueAt, NumberAt, TextAt, Stops;
    IntRead(mem, p, m);
    NotALiteral(mem, p);
  }

  lemma StringReads(t: string, depth: nat, fmt: bool, mem: string, p: nat)
    requires Terminated(mem) && NUL !in t && TextAt(mem, p, Print(Str(t), depth, fmt))
    ensures ValueAt(mem, p) == Parsed(Str(t), p + |Print(Str(t), depth, fmt)|)
  {
    hide ValueAt, StringAt, TextAt;
    QuoteRead(mem, p, t);
    NotALiteral(mem, p);
  }

  lemma PrintableParts(v: Value)
    requires Printable(v)
    ensures v.Number? ==> v.exponent == 0
    ensures v.Str? ==> NUL !in v.text
    ensures v.Array? ==> forall x :: x in v.items ==> Printable(x)
    ensures v.Object? ==> forall m: Member :: m in v.members ==> NUL !in m.name && Printable(m.value)
    ensures IsContainer(v) <==> v.Array? || v.Object?
    ensures forall c :: Stops(c) ==> c != NUL
  {
  }

  /** Round trip for any value standing anywhere in a terminated memory. */
  lemma {:induction false} ValueReads(v: Value, depth: nat, fmt: bool, mem: string, p: nat)
    requires Terminated(mem) && Printable(v) && TextAt(mem, p, Print(v, depth, fmt))
    requires IsContainer(v) || Stops(mem[p + |Print(v, depth, fmt)|])
    ensures ValueAt(mem, p) == Parsed(v, p + |Print(v, depth, fmt)|)
    decreases v, 1
  {
    hide *;
    PrintableParts(v);
    match v
    case Number(m, _) => NumberReads(m, depth, fmt, mem, p);
    case Str(t) => StringReads(t, depth, fmt, mem, p);
    case Array(items) => ArrayReads(items, depth, fmt, mem, p); NotALiteral(mem, p);
    case Object(members) => ObjectReads(members, depth, fmt, mem, p); NotALiteral(mem, p);
    case _ => LiteralReads(mem, p, v, depth, fmt);
  }

  lemma PrintArray(items: seq<Value>, depth: nat, fmt: bool)
    ensures Print(Array(items), depth, fmt) == "[" + (PrintItems(items, depth + 1, fmt) + "]")
  {
  }

  /** How a printed array lies in memory. */
  lemma ArrayLayout(items: seq<Value>, depth: nat, fmt: bool, mem: string, p: nat)
    requires TextAt(mem, p, Print(Array(items), depth, fmt))
    ensures var r := p + 1 + |PrintItems(items, depth + 1, fmt)|;
            && r + 1 == p + |Print(Array(items), depth, fmt)|
            && mem[p] == '[' && TextAt(mem, p + 1, PrintItems(items, depth + 1, fmt)) && mem[r] == ']'
            && (items == [] ==> r == p + 1)
  {
    var body := PrintItems(items, depth + 1, fmt);
    PrintArray(items, depth, fmt);
    assert items == [] ==> body == "";
    hide *;
    SplitText(mem, p, "[", body + "]");
    SplitText(mem, p + 1, body, "]");
    CharAt(mem, p, "[", 0);
    CharAt(mem, p + 1 + |body|, "]", 0);
  }

  lemma {:induction false} ArrayReads(items: seq<Value>, depth: nat, fmt: bool, mem: string, p: nat)
    requires Terminated(mem) && TextAt(mem, p, Print(Array(items), depth, fmt))
    requires forall x :: x in items ==> Printable(x)
    ensures mem[p] == '['
    ensures StructureAt(mem, p) == Parsed(Array(items), p + |Print(Array(items), depth, fmt)|)
    decreases items, 1
  {
    hide *;
    ArrayLayout(items, depth, fmt, mem, p);
    OpenArray(mem, p);
    if items == [] {
      SkipNothing(mem, p + 1);
    } else {
      ItemsText(items, depth + 1, fmt, mem, p + 1);
      SkipNothing(mem, p + 1);
      ItemsRead(items, depth + 1, fmt, mem, p + 1, []);
      assert [] + items == items;
    }
  }

  lemma ItemsAre(items: seq<Value>, depth: nat, fmt: bool)
    requires items != []
    ensures PrintItems(items, depth, fmt) ==
            Print(items[0], depth, fmt) + (if |items| > 1 then (if fmt then ", " else ",") else "")
            + PrintItems(items[1..], depth, fmt)
    ensures |items| == 1 ==> PrintItems(items[1..], depth, fmt) == ""
  {
    hide Print;
  }

  /** How the printed entries of an array lie in memory. */
  lemma ItemsText(items: seq<Value>, depth: nat, fmt: bool, mem: string, p: nat)
    requires items != [] && TextAt(mem, p, PrintItems(items, depth, fmt))
    ensures var first := Print(items[0], depth, fmt);
            var tail := PrintItems(items[1..], depth, fmt);
            var sep := if |items| == 1 then 0 else if fmt then 2 else 1;
            && TextAt(mem, p, first)
            && !IsSpace(mem[p]) && mem[p] != ']'
            && |PrintItems(items, depth, fmt)| == |first| + sep + |tail|
            && TextAt(mem, p + |first| + sep, tail)
            && (|items| == 1 ==> tail == "")
            && (|items| > 1 ==> mem[p + |first|] == ',' && (fmt ==> mem[p + |first| + 1] == ' '))
  {
    var first := Print(items[0], depth, fmt);
    var tail := PrintItems(items[1..], depth, fmt);
    var sep := if |items| > 1 then (if fmt then ", " else ",") else "";
    hide *;
    ItemsAre(items, depth, fmt);
    FirstChar(items[0], depth, fmt);
    SplitText(mem, p, first + sep, tail);
    SplitText(mem, p, first, sep);
    CharAt(mem, p, first, 0);
    if |items| > 1 { CharAt(mem, p + |first|, sep, 0); }
    if fmt && |items| > 1 { CharAt(mem, p + |first|, sep, 1); }
  }

  lemma CommaFollows(mem: string, e: nat, t: nat, close: char)
    requires Terminated(mem) && e < |mem| && t < |mem| && (close == ']' || close == '}')
    requires mem[e] == ',' && Skip(mem, e + 1) == t && mem[t] != close
    ensures AfterEntry(mem, e, close) == More(t)
  {
    assert Skip(mem, e) == e;
  }

  lemma {:induction false} ItemsRead(items: seq<Value>, depth: nat, fmt: bool, mem: string, p: nat, done: seq<Value>)
    requires items != [] && Terminated(mem) && TextAt(mem, p, PrintItems(items, depth, fmt))
    requires mem[p + |PrintItems(items, depth, fmt)|] == ']'
    requires forall x :: x in items ==> Printable(x)
    ensures ItemsAt(mem, p, done) == Parsed(Array(done + items), p + |PrintItems(items, depth, fmt)| + 1)
    decreases items, 0
  {
    hide *;
    ItemsText(items, depth, fmt, mem, p);
    var e := p + |Print(items[0], depth, fmt)|;
    ItemStops(mem, e);
    ValueReads(items[0], depth, fmt, mem, p);
    ItemsUnfold(mem, p, done);
    if |items| == 1 {
      assert done + [items[0]] == done + items;
    } else {
      var q := if fmt then e + 2 else e + 1;
      ItemsText(items[1..], depth, fmt, mem, q);
      SkipBlank(mem, e + 1, q);
      CommaFollows(mem, e, q, ']');
      ItemsRead(items[1..], depth, fmt, mem, q, done + [items[0]]);
      assert done + [items[0]] + items[1..] == done + items;
    }
  }

  lemma ItemStops(mem: string, e: nat)
    requires Terminated(mem) && e < |mem| && (mem[e] == ',' || mem[e] == ']')
    ensures Stops(mem[e])
    ensures mem[e] == ']' ==> AfterEntry(mem, e, ']') == Close(e + 1)
  {
  }

  lemma SkipBlank(mem: string, p: nat, q: nat)
    requires Terminated(mem) && q < |mem| && !IsSpace(mem[q]) && (p == q || (p + 1 == q && mem[p] == ' '))
    ensures Skip(mem, p) == q
  {
  }

  lemma ClosingBrace(mem: string, p: nat, indent: string)
    requires Terminated(mem) && TextAt(mem, p, indent) && mem[p + |indent|] == '}'
    requires forall i :: 0 <= i < |indent| ==> IsSpace(indent[i])
    ensures Skip(mem, p) == p + |indent|
  {
    SkipText(mem, p, indent);
  }

  function NewLine(fmt: bool): (s: string)
    ensures forall i :: 0 <= i < |s| ==> IsSpace(s[i])
  {
    if fmt then "\n" else ""
  }

  function Indent(depth: nat, fmt: bool): (s: string)
    ensures forall i :: 0 <= i < |s| ==> IsSpace(s[i])
  {
    if fmt then Tabs(depth) else ""
  }

  lemma NoMembers(depth: nat, fmt: bool)
    ensures PrintMembers([], depth, fmt) == ""
  {
  }

  lemma PrintObject(members: seq<Member>, depth: nat, fmt: bool)
    ensures Print(Object(members), depth, fmt)
         == "{" + NewLine(fmt) + PrintMembers(members, depth + 1, fmt) + Indent(depth, fmt) + "}"
    ensures |Print(Object(members), depth, fmt)|
         == |NewLine(fmt)| + |PrintMembers(members, depth + 1, fmt)| + |Indent(depth, fmt)| + 2
  {
  }

  /** How a printed object lies in memory. */
  lemma ObjectLayout(members: seq<Member>, depth: nat, fmt: bool, mem: string, p: nat)
    requires Terminated(mem) && TextAt(mem, p, Print(Object(members), depth, fmt))
    ensures var q := p + 1 + |NewLine(fmt)|;
            var r := q + |PrintMembers(members, depth + 1, fmt)|;
            var s := r + |Indent(depth, fmt)|;
            && s + 1 == p + |Print(Object(members), depth, fmt)|
            && mem[p] == '{' && Skip(mem, p + 1) == Skip(mem, q)
            && TextAt(mem, q, PrintMembers(members, depth + 1, fmt))
            && TextAt(mem, r, Indent(depth, fmt)) && mem[s] == '}'
            && (members == [] ==> r == q)
  {
    hide *;
    PrintObject(members, depth, fmt);
    NoMembers(depth + 1, fmt);
    ObjectText(NewLine(fmt), PrintMembers(members, depth + 1, fmt), Indent(depth, fmt), mem, p);
    SkipText(mem, p + 1, NewLine(fmt));
  }

  lemma ObjectText(nl: string, body: string, indent: string, mem: string, p: nat)
    requires TextAt(mem, p, "{" + nl + body + indent + "}")
    ensures var q := p + 1 + |nl|;
            && q + |body| + |indent| < |mem| && mem[p] == '{' && mem[q + |body| + |indent|] == '}'
            && TextAt(mem, p + 1, nl) && TextAt(mem, q, body) && TextAt(mem, q + |body|, indent)
  {
    hide *;
    SplitFive(mem, p, "{", nl, body, indent, "}");
    CharAt(mem, p, "{", 0);
    CharAt(mem, p + 1 + |nl| + |body| + |indent|, "}", 0);
  }

  lemma {:induction false} ObjectReads(members: seq<Member>, depth: nat, fmt: bool, mem: string, p: nat)
    requires Terminated(mem) && TextAt(mem, p, Print(Object(members), depth, fmt))
    requires forall m: Member :: m in members ==> NUL !in m.name && Printable(m.value)
    ensures mem[p] == '{'
    ensures StructureAt(mem, p) == Parsed(Object(members), p + |Print(Object(members), depth, fmt)|)
    decreases members, 1
  {
    hide *;
    ObjectLayout(members, depth, fmt, mem, p);
    var q := p + 1 + |NewLine(fmt)|;
    if members == [] {
      ClosingBrace(mem, q, Indent(depth, fmt));
    } else {
      MembersRead(members, depth + 1, fmt, Indent(depth, fmt), mem, q, []);
      assert [] + members == members;
    }
    OpenObject(mem, p);
  }

  /** A printed member up to and including its value. */
  function MemberText(m: Member, depth: nat, fmt: bool): string {
    Indent(depth, fmt) + Quote(m.name) + (if fmt then ":\t" else ":") + Print(m.value, depth, fmt)
  }

  lemma PrintMembersSplit(members: seq<Member>, depth: nat, fmt: bool)
    requires members != []
    ensures PrintMembers(members, depth, fmt)
         == MemberText(members[0], depth, fmt) + (if |members| == 1 then "" else ",") + NewLine(fmt)
            + PrintMembers(members[1..], depth, fmt)
  {
    hide Print, Quote;
    assert PrintMember(members[0], |members| == 1, depth, fmt)
        == MemberText(members[0], depth, fmt) + (if |members| == 1 then "" else ",") + NewLine(fmt);
  }

  /** How the printed members of an object lie in memory. */
  lemma FourTexts(mem: string, p: nat, a: string, b: string, c: string, d: string)
    requires TextAt(mem, p, a + b + c + d)
    ensures TextAt(mem, p, a) && TextAt(mem, p + |a|, b) && TextAt(mem, p + |a| + |b|, c) && TextAt(mem, p + |a| + |b| + |c|, d)
  {
    hide *;
    SplitText(mem, p, a + b + c, d);
    SplitText(mem, p, a + b, c);
    SplitText(mem, p, a, b);
  }

  lemma FirstText(mem: string, p: nat, first: string, last: bool, nl: string, tail: string)
    requires TextAt(mem, p, first + (if last then "" else ",") + nl + tail)
    ensures var comma := if last then 0 else 1;
            && |first + (if last then "" else ",") + nl + tail| == |first| + comma + |nl| + |tail|
            && TextAt(mem, p, first)
            && TextAt(mem, p + |first| + comma, nl)
            && TextAt(mem, p + |first| + comma + |nl|, tail)
            && (!last ==> mem[p + |first|] == ',' && Stops(mem[p + |first|]))
  {
    hide *;
    var comma := if last then "" else ",";
    FourTexts(mem, p, first, comma, nl, tail);
    if !last {
      CharAt(mem, p + |first|, comma, 0);
      CommaStops();
    }
  }

  lemma CommaStops()
    ensures Stops(',')
  {
  }

  lemma NoTail(members: seq<Member>, depth: nat, fmt: bool)
    requires members != []
    ensures |members| == 1 ==> PrintMembers(members[1..], depth, fmt) == ""
  {
  }

  lemma MembersText(members: seq<Member>, depth: nat, fmt: bool, mem: string, p: nat)
    requires members != [] && TextAt(mem, p, PrintMembers(members, depth, fmt))
    ensures var first := MemberText(members[0], depth, fmt);
            var tail := PrintMembers(members[1..], depth, fmt);
            var comma := if |members| == 1 then 0 else 1;
            && TextAt(mem, p, first)
            && |PrintMembers(members, depth, fmt)| == |first| + comma + |NewLine(fmt)| + |tail|
            && TextAt(mem, p + |first| + comma, NewLine(fmt))
            && TextAt(mem, p + |first| + comma + |NewLine(fmt)|, tail)
            && (|members| == 1 ==> tail == "")
            && (|members| > 1 ==> mem[p + |first|] == ',' && Stops(mem[p + |first|]))
  {
    hide *;
    PrintMembersSplit(members, depth, fmt);
    NoTail(members, depth, fmt);
    FirstText(mem, p, MemberText(members[0], depth, fmt), |members| == 1, NewLine(fmt), PrintMembers(members[1..], depth, fmt));
  }

  lemma {:induction false} MembersRead(members: seq<Member>, depth: nat, fmt: bool, indent: string, mem: string, p: nat, done: seq<Member>)
    requires members != [] && Terminated(mem) && TextAt(mem, p, PrintMembers(members, depth, fmt))
    requires var q := p + |PrintMembers(members, depth, fmt)|; TextAt(mem, q, indent) && mem[q + |indent|] == '}'
    requires forall i :: 0 <= i < |indent| ==> IsSpace(indent[i])
    requires forall m: Member :: m in members ==> NUL !in m.name && Printable(m.value)
    ensures mem[Skip(mem, p)] == '\"'
    ensures MembersAt(mem, Skip(mem, p), done)
         == Parsed(Object(done + members), p + |PrintMembers(members, depth, fmt)| + |indent| + 1)
    decreases members, 0
  {
    hide *;
    MembersText(members, depth, fmt, mem, p);
    var m := members[0];
    var e := p + |MemberText(m, depth, fmt)|;
    if |members| == 1 {
      LastMemberCloses(fmt, indent, mem, e);
      MemberReads(m, depth, fmt, mem, p);
      MembersUnfold(mem, Skip(mem, p), done);
      assert done + [m] == done + members;
    } else {
      var r := e + 1 + |NewLine(fmt)|;
      SkipText(mem, e + 1, NewLine(fmt));
      MemberReads(m, depth, fmt, mem, p);
      MembersUnfold(mem, Skip(mem, p), done);
      MembersRead(members[1..], depth, fmt, indent, mem, r, done + [m]);
      CommaFollows(mem, e, Skip(mem, r), '}');
      assert done + [m] + members[1..] == done + members;
    }
  }

  lemma LastMemberCloses(fmt: bool, indent: string, mem: string, e: nat)
    requires Terminated(mem) && TextAt(mem, e, NewLine(fmt))
    requires var r := e + |NewLine(fmt)|; TextAt(mem, r, indent) && mem[r + |indent|] == '}'
    requires forall i :: 0 <= i < |indent| ==> IsSpace(indent[i])
    ensures Stops(mem[e]) && AfterEntry(mem, e, '}') == Close(e + |NewLine(fmt)| + |indent| + 1)
  {
    hide TextAt, NewLine;
    SkipText(mem, e, NewLine(fmt));
    ClosingBrace(mem, e + |NewLine(fmt)|, indent);
    assert IsSpace(mem[e]) || mem[e] == '}';
  }

  /** How one printed member lies in memory: its name is read back, and its value follows the colon. */
  lemma MemberLayout(m: Member, depth: nat, fmt: bool, mem: string, p: nat)
    requires Terminated(mem) && NUL !in m.name && TextAt(mem, p, MemberText(m, depth, fmt))
    ensures var p1 := p + |Indent(depth, fmt)|;
            var p2 := p1 + |Quote(m.name)|;
            var p3 := p2 + (if fmt then 2 else 1);
            && p3 + |Print(m.value, depth, fmt)| == p + |MemberText(m, depth, fmt)|
            && TextAt(mem, p3, Print(m.value, depth, fmt))
            && Skip(mem, p) == p1 && mem[p1] == '\"' && StringAt(mem, p1) == Parsed(m.name, p2)
            && mem[p2] == ':' && Skip(mem, p2 + 1) == p3
  {
    var tabs, name, value := Indent(depth, fmt), Quote(m.name), Print(m.value, depth, fmt);
    var colon := if fmt then ":\t" else ":";
    FirstChar(m.value, depth, fmt);
    hide TextAt, Quote, Print, Indent, StringAt;
    SplitText(mem, p, tabs + name + colon, value);
    SplitText(mem, p, tabs + name, colon);
    SplitText(mem, p, tabs, name);
    hide MemberText;
    var p2 := p + |tabs| + |name|;
    CharAt(mem, p2, colon, 0);
    if fmt { CharAt(mem, p2, colon, 1); }
    CharAt(mem, p2 + |colon|, value, 0);
    SkipText(mem, p, tabs);
    QuoteRead(mem, p + |tabs|, m.name);
  }

  lemma MemberStep(mem: string, p: nat, name: string, e: nat, t: nat, v: Value, e': nat)
    requires Terminated(mem) && p < |mem| && e < |mem| && t < |mem|
    requires StringAt(mem, p) == Parsed(name, e) && mem[e] == ':'
    requires Skip(mem, e + 1) == t && ValueAt(mem, t) == Parsed(v, e')
    ensures MemberAt(mem, p) == Parsed(Member(name, v), e')
  {
    hide StringAt, ValueAt;
    assert Skip(mem, e) == e;
  }

  lemma {:induction false} MemberReads(m: Member, depth: nat, fmt: bool, mem: string, p: nat)
    requires Terminated(mem) && NUL !in m.name && Printable(m.value)
    requires TextAt(mem, p, MemberText(m, depth, fmt)) && Stops(mem[p + |MemberText(m, depth, fmt)|])
    ensures mem[Skip(mem, p)] == '\"'
    ensures MemberAt(mem, Skip(mem, p)) == Parsed(m, p + |MemberText(m, depth, fmt)|)
    decreases m, 2
  {
    hide *;
    MemberLayout(m, depth, fmt, mem, p);
    var p1 := p + |Indent(depth, fmt)|;
    var p2 := p1 + |Quote(m.name)|;
    var p3 := p2 + (if fmt then 2 else 1);
    ValueReads(m.value, depth, fmt, mem, p3);
    MemberStep(mem, p1, m.name, p2, p3, m.value, p3 + |Print(m.value, depth, fmt)|);
  }

  /**
   * The law of the codec: the print of any array or object, formatted or not, is read back
   * as an equal tree, and the reader stops exactly at the end of the print, whatever follows.
   */
  lemma PrintThenParse(v: Value, fmt: bool, after: string)
    requires Printable(v) && Terminated(after) && (IsContainer(v) || Stops(after[0]))
    ensures ParseStream(Print(v, 0, fmt) + after) == Parsed(v, |Print(v, 0, fmt)|)
  {
    var s := Print(v, 0, fmt);
    var mem := s + after;
    FirstChar(v, 0, fmt);
    CharAt(mem, 0, s, 0);
    ValueReads(v, 0, fmt, mem, 0);
  }

  lemma {:induction false} CompareOverruns(mem: string, p: nat, lit: string)
    requires Terminated(mem) && NUL !in lit && TextAt(mem, p, lit) && mem[p + |lit|] == NUL
    ensures Compare(mem, p, lit) == Undefined
    decreases |lit|
  {
    if lit != [] {
      CharAt(mem, p, lit, 0);
      assert TextAt(mem, p + 1, lit[1..]) by {
        forall i | 0 <= i < |lit| - 1 ensures mem[p + 1 + i] == lit[1..][i] { assert lit[1..][i] == lit[i + 1]; }
      }
      CompareOverruns(mem, p + 1, lit[1..]);
    }
  }

  /**
   * A literal alone is read back if and only if another byte follows it: when it ends the text,
   * the comparison of the two terminators succeeds and runs on past both.
   */
  lemma LiteralAlone(v: Value, fmt: bool, after: string)
    requires (v.Null? || v.False? || v.True?) && Terminated(after)
    ensures ParseStream(Print(v, 0, fmt) + after) == Parsed(v, |Print(v, 0, fmt)|) <==> after[0] != NUL
    ensures after[0] == NUL ==> ParseStream(Print(v, 0, fmt) + after) == Undefined
  {
    hide *;
    var s := Print(v, 0, fmt);
    LiteralStarts(v, fmt, after);
    if after[0] != NUL {
      LiteralReads(s + after, 0, v, 0, fmt);
    } else {
      LiteralOverruns(s + after, v, fmt);
    }
  }

  lemma LiteralStarts(v: Value, fmt: bool, after: string)
    requires (v.Null? || v.False? || v.True?) && Terminated(after)
    ensures var s := Print(v, 0, fmt);
            && Terminated(s + after) && TextAt(s + after, 0, s) && (s + after)[|s|] == after[0]
            && ParseStream(s + after) == ValueAt(s + after, 0)
  {
    hide ValueAt;
    var s := Print(v, 0, fmt);
    assert (s + after)[0] == s[0];
    assert Skip(s + after, 0) == 0;
  }

  lemma LiteralOverruns(mem: string, v: Value, fmt: bool)
    requires (v.Null? || v.False? || v.True?) && Terminated(mem)
    requires TextAt(mem, 0, Print(v, 0, fmt)) && mem[|Print(v, 0, fmt)|] == NUL
    ensures ValueAt(mem, 0) == Undefined
  {
    CharAt(mem, 0, Print(v, 0, fmt), 0);
    hide TextAt, StructureAt;
    CompareOverruns(mem, 0, Print(v, 0, fmt));
  }

  // ---------------------------------------------------------------- the print is one C string

  lemma {:induction false} EscapeHasNoNul(s: string)
    ensures NUL !in Escape(s)
  {
    if s != "" { EscapeHasNoNul(s[1..]); }
  }

  lemma {:induction false} PrintHasNoNul(v: Value, depth: nat, fmt: bool)
    ensures NUL !in Print(v, depth, fmt)
    decreases v
  {
    match v
    case Null =>
    case False =>
    case True =>
    case Number(m, _) => assert forall i :: 0 <= i < |IntText(m)| ==> IntText(m)[i] != NUL;
    case Str(s) => EscapeHasNoNul(s);
    case Array(items) => ItemsHaveNoNul(items, depth + 1, fmt);
    case Object(members) => MembersHaveNoNul(members, depth + 1, fmt);
  }

  lemma {:induction false} ItemsHaveNoNul(items: seq<Value>, depth: nat, fmt: bool)
    ensures NUL !in PrintItems(items, depth, fmt)
    decreases items
  {
    hide Print;
    if items != [] {
      PrintHasNoNul(items[0], depth, fmt);
      ItemsHaveNoNul(items[1..], depth, fmt);
    }
  }

  lemma {:induction false} MembersHaveNoNul(members: seq<Member>, depth: nat, fmt: bool)
    ensures NUL !in PrintMembers(members, depth, fmt)
    decreases members
  {
    hide Print, Quote;
    if members != [] {
      PrintHasNoNul(members[0].value, depth, fmt);
      QuoteHasNoNul(members[0].name);
      MembersHaveNoNul(members[1..], depth, fmt);
    }
  }

  lemma QuoteHasNoNul(s: string)
    ensures NUL !in Quote(s)
  {
    EscapeHasNoNul(s);
  }

  // ---------------------------------------------------------------- what was parsed can be printed

  /** No string and no name holds a NUL. */
  predicate NulFree(v: Value)
    decreases v
  {
    match v
    case Str(s) => NUL !in s
    case Array(items) => forall x :: x in items ==> NulFree(x)
    case Object(members) => forall m: Member :: m in members ==> NUL !in m.name && NulFree(m.value)
    case _ => true
  }

  /** Every number is an integer written without point and exponent, in the range of int. */
  predicate IntsOnly(v: Value)
    decreases v
  {
    match v
    case Number(m, e) => e == 0 && INT_MIN <= m <= INT_MAX
    case Array(items) => forall x :: x in items ==> IntsOnly(x)
    case Object(members) => forall m: Member :: m in members ==> IntsOnly(m.value)
    case _ => true
  }

  lemma {:induction false} PrintableIs(v: Value)
    ensures Printable(v) <==> NulFree(v) && IntsOnly(v)
    decreases v
  {
    match v
    case Array(items) => forall x | x in items ensures Printable(x) <==> NulFree(x) && IntsOnly(x) { PrintableIs(x); }
    case Object(members) =>
      forall m: Member | m in members ensures Printable(m.value) <==> NulFree(m.value) && IntsOnly(m.value) {
        PrintableIs(m.value);
      }
    case _ =>
  }

  lemma {:induction false} ParsedNulFree(mem: string, p: nat)
    requires Terminated(mem) && p < |mem|
    ensures ValueAt(mem, p).Parsed? ==> NulFree(ValueAt(mem, p).value)
    decreases |mem| - p, 2
  {
    hide StructureAt, Compare, Skip;
    var p1 := Compare(mem, p, "null");
    if p1.Parsed? {
      var p2 := Compare(mem, p1.end, "false");
      if p2.Parsed? {
        var p3 := Compare(mem, p2.end, "true");
        if p3.Parsed? { StructureNulFree(mem, p3.end); }
      }
    }
  }

  lemma {:induction false} StructureNulFree(mem: string, p: nat)
    requires Terminated(mem) && p < |mem|
    ensures StructureAt(mem, p).Parsed? ==> NulFree(StructureAt(mem, p).value)
    decreases |mem| - p, 1
  {
    hide ItemsAt, MembersAt, NumberAt, Body, Skip;
    var q := if p + 1 < |mem| then Skip(mem, p + 1) else p;
    if q > p {
      ItemsNulFree(mem, q, []);
      MembersNulFree(mem, q, []);
    }
  }

  lemma {:induction false} ItemsNulFree(mem: string, p: nat, done: seq<Value>)
    requires Terminated(mem) && p < |mem| && forall x :: x in done ==> NulFree(x)
    ensures ItemsAt(mem, p, done).Parsed? ==> NulFree(ItemsAt(mem, p, done).value)
    decreases |mem| - p, 3
  {
    hide ValueAt, ItemsAt, AfterEntry;
    ItemsUnfold(mem, p, done);
    ParsedNulFree(mem, p);
    if ValueAt(mem, p).Parsed? {
      var all := done + [ValueAt(mem, p).value];
      var f := AfterEntry(mem, ValueAt(mem, p).end, ']');
      if f.More? { ItemsNulFree(mem, f.next, all); }
    }
  }

  lemma {:induction false} MembersNulFree(mem: string, p: nat, done: seq<Member>)
    requires Terminated(mem) && p < |mem| && forall m: Member :: m in done ==> NUL !in m.name && NulFree(m.value)
    ensures MembersAt(mem, p, done).Parsed? ==> NulFree(MembersAt(mem, p, done).value)
    decreases |mem| - p, 1
  {
    hide MemberAt, MembersAt, AfterEntry;
    MembersUnfold(mem, p, done);
    MemberNulFree(mem, p);
    if MemberAt(mem, p).Parsed? {
      var all := done + [MemberAt(mem, p).value];
      var f := AfterEntry(mem, MemberAt(mem, p).end, '}');
      if f.More? { MembersNulFree(mem, f.next, all); }
    }
  }

  lemma {:induction false} MemberNulFree(mem: string, p: nat)
    requires Terminated(mem) && p < |mem|
    ensures var o := MemberAt(mem, p); o.Parsed? ==> NUL !in o.value.name && NulFree(o.value.value)
    decreases |mem| - p, 0
  {
    hide ValueAt, Body, Skip;
    if NameAt(mem, p).Parsed? { ParsedNulFree(mem, NameAt(mem, p).end); }
  }

  /**
   * Whatever the parser returned for any text, if its numbers are ints: printing it and parsing that
   * gives the same tree, formatted or not.
   */
  lemma ParsePrintParse(mem: string, fmt: bool, after: string)
    requires Terminated(mem) && ParseStream(mem).Parsed? && IntsOnly(ParseStream(mem).value)
    requires Terminated(after) && (IsContainer(ParseStream(mem).value) || Stops(after[0]))
    ensures var v := ParseStream(mem).value; ParseStream(Print(v, 0, fmt) + after) == Parsed(v, |Print(v, 0, fmt)|)
  {
    hide ValueAt, Print, Stops;
    var v := ParseStream(mem).value;
    ParsedNulFree(mem, Skip(mem, 0));
    PrintableIs(v);
    PrintThenParse(v, fmt, after);
  }
}
