/** Texts that may be cut anywhere: no escapes, no fractions, no literals. The print of plain requests is of this kind. */
module JsonPlain {
  import opened Json
  import opened JsonPlace

  /** A byte that may come before a cut outside strings. */
  predicate PlainChar(c: char) {
    c != '.' && c != 'l' && c != 'e' && c != '\"' && c != NUL
  }

  /** Plain bytes outside strings and strings without escapes, read byte by byte; `inside` tells whether a string is open. */
  predicate Plain(s: string, inside: bool)
    decreases |s|
  {
    if s == "" then !inside
    else if s[0] == '\"' then Plain(s[1..], !inside)
    else if inside then s[0] != '\\' && s[0] != NUL && Plain(s[1..], inside)
    else PlainChar(s[0]) && Plain(s[1..], inside)
  }

  lemma {:induction false} PlainConcat(a: string, b: string, inside: bool)
    requires Plain(a, inside) && Plain(b, false)
    ensures Plain(a + b, inside)
    decreases |a|
  {
    if a == "" {
      assert a + b == b;
    } else {
      assert (a + b)[1..] == a[1..] + b;
      PlainConcat(a[1..], b, if a[0] == '\"' then !inside else inside);
    }
  }

  /** Numbers, strings that need no escapes, and containers of such. */
  predicate PlainValue(v: Value)
    decreases v
  {
    match v
    case Null => false
    case False => false
    case True => false
    case Number(_, _) => true
    case Str(s) => Unescaped(s)
    case Array(items) => forall x :: x in items ==> PlainValue(x)
    case Object(members) => forall m: Member :: m in members ==> Unescaped(m.name) && PlainValue(m.value)
  }

  predicate Unescaped(s: string) {
    forall i :: 0 <= i < |s| ==> s[i] != '\"' && s[i] != '\\' && s[i] as int >= 32
  }

  lemma {:induction false} EscapeSame(s: string)
    requires Unescaped(s)
    ensures Escape(s) == s
  {
    if s != "" {
      assert Unescaped(s[1..]);
      EscapeSame(s[1..]);
    }
  }

  lemma {:induction false} PlainInside(s: string)
    requires Unescaped(s)
    ensures Plain(s + "\"", true)
  {
    if s == "" {
      assert (s + "\"")[1..] == "";
    } else {
      assert Unescaped(s[1..]);
      PlainInside(s[1..]);
      assert (s + "\"")[1..] == s[1..] + "\"";
    }
  }

  lemma PlainQuote(s: string)
    requires Unescaped(s)
    ensures Plain(Quote(s), false)
  {
    EscapeSame(s);
    PlainInside(s);
    assert Quote(s)[1..] == s + "\"";
  }

  /** A run of plain bytes. */
  lemma {:induction false} PlainRunOf(s: string)
    requires forall i :: 0 <= i < |s| ==> PlainChar(s[i])
    ensures Plain(s, false)
  {
    if s != "" { PlainRunOf(s[1..]); }
  }

  lemma PlainInt(n: int)
    ensures Plain(IntText(n), false)
  {
    PlainRunOf(IntText(n));
  }

  /** The print of a plain value is plain text. */
  lemma {:induction false} PlainPrint(v: Value, depth: nat, fmt: bool)
    requires PlainValue(v)
    ensures Plain(Print(v, depth, fmt), false)
    decreases v, 1
  {
    hide Plain;
    match v {
      case Number(m, _) => PlainInt(m);
      case Str(s) => PlainQuote(s);
      case Array(items) =>
        PlainItems(items, depth + 1, fmt);
        PlainRunOf("[");
        PlainRunOf("]");
        PlainConcat("[", PrintItems(items, depth + 1, fmt), false);
        PlainConcat("[" + PrintItems(items, depth + 1, fmt), "]", false);
      case Object(members) =>
        PlainMembers(members, depth + 1, fmt);
        var open, close := "{" + (if fmt then "\n" else ""), (if fmt then Tabs(depth) else "") + "}";
        var body := PrintMembers(members, depth + 1, fmt);
        PlainRunOf(open);
        PlainRunOf(close);
        PlainConcat(open, body, false);
        PlainConcat(open + body, close, false);
        assert Print(v, depth, fmt) == open + body + close;
    }
  }

  lemma {:induction false} PlainItems(items: seq<Value>, depth: nat, fmt: bool)
    requires forall x :: x in items ==> PlainValue(x)
    ensures Plain(PrintItems(items, depth, fmt), false)
    decreases items, 0
  {
    if items != [] {
      hide Plain;
      var first, rest := Print(items[0], depth, fmt), PrintItems(items[1..], depth, fmt);
      var comma := if |items| > 1 then (if fmt then ", " else ",") else "";
      PlainPrint(items[0], depth, fmt);
      PlainItems(items[1..], depth, fmt);
      PlainRunOf(comma);
      PlainConcat(first, comma, false);
      PlainConcat(first + comma, rest, false);
    }
  }

  lemma {:induction false} PlainMembers(members: seq<Member>, depth: nat, fmt: bool)
    requires forall m: Member :: m in members ==> Unescaped(m.name) && PlainValue(m.value)
    ensures Plain(PrintMembers(members, depth, fmt), false)
    decreases members, 0
  {
    if members != [] {
      hide Plain;
      PlainMember(members[0], |members| == 1, depth, fmt);
      PlainMembers(members[1..], depth, fmt);
      PlainConcat(PrintMember(members[0], |members| == 1, depth, fmt), PrintMembers(members[1..], depth, fmt), false);
    }
  }

  /** The pieces of a printed member. */
  lemma MemberIs(m: Member, last: bool, depth: nat, fmt: bool)
    ensures PrintMember(m, last, depth, fmt) ==
            (if fmt then Tabs(depth) else "") + Quote(m.name) + (if fmt then ":\t" else ":") + Print(m.value, depth, fmt)
            + ((if last then "" else ",") + (if fmt then "\n" else ""))
  {
    hide Tabs, Quote, Print;
  }

  lemma PlainMarks(last: bool, depth: nat, fmt: bool)
    ensures Plain(if fmt then Tabs(depth) else "", false) && Plain(if fmt then ":\t" else ":", false)
    ensures Plain((if last then "" else ",") + (if fmt then "\n" else ""), false)
  {
    hide Plain;
    PlainRunOf(if fmt then Tabs(depth) else "");
    PlainRunOf(if fmt then ":\t" else ":");
    PlainRunOf((if last then "" else ",") + (if fmt then "\n" else ""));
  }

  lemma PlainMember(m: Member, last: bool, depth: nat, fmt: bool)
    requires Unescaped(m.name) && PlainValue(m.value)
    ensures Plain(PrintMember(m, last, depth, fmt), false)
    decreases m, 1
  {
    hide *;
    var tabs, colon := if fmt then Tabs(depth) else "", if fmt then ":\t" else ":";
    var value, tail := Print(m.value, depth, fmt), (if last then "" else ",") + (if fmt then "\n" else "");
    PlainQuote(m.name);
    PlainPrint(m.value, depth, fmt);
    PlainMarks(last, depth, fmt);
    PlainConcat(tabs, Quote(m.name), false);
    PlainConcat(tabs + Quote(m.name), colon, false);
    PlainConcat(tabs + Quote(m.name) + colon, value, false);
    PlainConcat(tabs + Quote(m.name) + colon + value, tail, false);
    MemberIs(m, last, depth, fmt);
  }

  // ---------------------------------------------------------------- every cut is clean

  /** From position p on, with a string open or not; the byte before p is no reason not to cut. */
  lemma {:induction false} PlainPlace(t: string, p: nat, k: nat, inside: bool)
    requires p <= k <= |t| && Plain(t[p..], inside)
    requires p > 0 && !inside ==> PlainChar(t[p - 1]) || t[p - 1] == '\"'
    ensures var m := t + [NUL];
            && (!inside ==> CleanFrom(m, p, k))
            && (inside ==> match TextPlace(m, p, k) case Outside => CleanEdge(m, k) case InText => true case InEscape => false)
    decreases k - p
  {
    hide CleanEdge, EscapeEnd;
    var m := t + [NUL];
    if p == k {
      if !inside { PlainEdge(m, k); }
    } else {
      assert t[p..][1..] == t[p + 1..] && m[p] == t[p];
      PlainPlace(t, p + 1, k, if t[p] == '\"' then !inside else inside);
    }
  }

  lemma PlainEdge(m: string, k: nat)
    requires k < |m| && (k > 0 ==> PlainChar(m[k - 1]) || m[k - 1] == '\"')
    ensures CleanEdge(m, k)
  {
    if k > 0 { QuoteIsClean(m, k); }
  }

  /** Plain text may be cut anywhere. */
  lemma PlainIsClean(t: string, k: nat)
    requires Plain(t, false) && k <= |t|
    ensures CleanCut(t + [NUL], k)
  {
    assert t[0..] == t;
    PlainPlace(t, 0, k, false);
  }
}
