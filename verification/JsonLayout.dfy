/**
 * The printer's layout: what it writes is a text of the grammar that means the printed value,
 * and the formatted text is the compact one with blanks at fixed places.
 */
module JsonLayout {
  import opened Json
  import opened JsonText
  import opened JsonNumber
  import opened JsonStringLiteral
  import opened JsonGrammar
  import opened Arithmetic

  // ---------------------------------------------------------------- literals

  /** The shortest way the grammar has to write a character: two characters where there is a letter, digits for other controls. */
  function UnitFor(c: char): Unit {
    if c == '\"' || c == '\\' then Short(c)
    else if c == BACKSPACE then Short('b')
    else if c == FORMFEED then Short('f')
    else if c == '\n' then Short('n')
    else if c == '\r' then Short('r')
    else if c == '\t' then Short('t')
    else if c as int < 16 then Code("000" + ["0123456789abcdef"[c as int]])
    else if c as int < 32 then Code("001" + ["0123456789abcdef"[c as int - 16]])
    else Plain(c)
  }

  function UnitsFor(s: string): seq<Unit> {
    if s == "" then [] else [UnitFor(s[0])] + UnitsFor(s[1..])
  }

  lemma UnitPrinted(c: char)
    requires c != NUL
    ensures WellFormed(UnitFor(c)) && Source(UnitFor(c)) == EscapeChar(c)
    ensures !IsHigh(UnitFor(c)) && !IsLow(UnitFor(c)) && JsonStringLiteral.Number(UnitFor(c)) != 0
    ensures JsonStringLiteral.TextOf(UnitFor(c)) == [c]
  {
    if UnitFor(c).Code? { CodePrinted(c); }
  }

  lemma CodePrinted(c: char)
    requires UnitFor(c).Code? && c != NUL
    ensures Source(UnitFor(c)) == EscapeChar(c) && IsHex4(UnitFor(c).hex) && HexNumber(UnitFor(c).hex) == c as int
  {
    var high, low := c as int / 16, c as int % 16;
    HexPrinted(high);
    HexPrinted(low);
    HexPrinted(0);
    hide HexDigitOf, HexValue, IsHex, EscapeChar;
    CodeEscaped(c);
    CodeIs(c);
  }

  /** The digits of a control character without a letter of its own. */
  lemma CodeIs(c: char)
    requires UnitFor(c).Code?
    ensures c as int < 32
    ensures UnitFor(c).hex == ['0', '0', "0123456789abcdef"[c as int / 16], "0123456789abcdef"[c as int % 16]]
  {
  }

  lemma CodeEscaped(c: char)
    requires UnitFor(c).Code? && c != NUL
    ensures c as int < 32 && EscapeChar(c) == "\\u00" + [HexDigitOf(c as int / 16), HexDigitOf(c as int % 16)]
  {
  }

  lemma HexPrinted(n: nat)
    requires n < 16
    ensures var d := "0123456789abcdef"[n]; HexDigitOf(n) == d && IsHex(d) && HexValue(d) == n
  {
  }

  /** The literal of a string is well formed, spelled as printed, and stored as the string. */
  lemma {:induction false} LiteralPrinted(s: string)
    requires NUL !in s
    ensures AllWellFormed(UnitsFor(s)) && SourceOf(UnitsFor(s)) == Escape(s) && WrittenOf(UnitsFor(s)) == s
  {
    hide UnitFor, EscapeChar, Source, WellFormed;
    if s != "" {
      UnitPrinted(s[0]);
      LiteralPrinted(s[1..]);
      var us := UnitsFor(s);
      assert us[0] == UnitFor(s[0]) && us[1..] == UnitsFor(s[1..]);
      assert Taken(us) == 1 && Written(us) == [s[0]];
    }
  }

  // ---------------------------------------------------------------- numbers

  function NumeralFor(m: int): Numeral {
    Numeral(m < 0, Decimal(if m < 0 then -m else m), "", None)
  }

  lemma NoneSpelled()
    ensures AllDigits("") && Spelled("") == 0 && Power10(0) == 1
  {
  }

  lemma NumberPrinted(m: int)
    ensures IsNumeral(NumeralFor(m)) && NumeralFor(m).whole != "" && Text(NumeralFor(m)) == IntText(m)
    ensures Mantissa(NumeralFor(m)) == m && Exponent10(NumeralFor(m)) == 0
  {
    var n := if m < 0 then -m else m;
    hide Decimal, Spelled, Power10, IsWhole, AllDigits;
    NoneSpelled();
    DecimalIsWhole(n);
    SpelledDecimal(n);
  }

  // ---------------------------------------------------------------- layout

  /**
   * The tokens of a value, and the blanks between them when formatted: a space before each entry of an array but the first,
   * a line of its own for each member, indented by its depth, and a tab behind each colon.
   */
  function Layout(v: Value, depth: nat, fmt: bool): Doc
    decreases v
  {
    match v
    case Null => Word(v)
    case False => Word(v)
    case True => Word(v)
    case Number(m, _) => Numeric(NumeralFor(m))
    case Str(s) => Literal(UnitsFor(s))
    case Array(items) => List("", Entries(items, depth + 1, fmt, ""))
    case Object(members) => Record(Line(depth, fmt), Fields(members, depth + 1, fmt))
  }

  function Entries(items: seq<Value>, depth: nat, fmt: bool, before: string): (r: seq<Entry>)
    ensures |r| == |items|
    decreases items
  {
    if items == [] then []
    else [Entry(before, Layout(items[0], depth, fmt), "")] + Entries(items[1..], depth, fmt, if fmt then " " else "")
  }

  /** A new line and its indentation. */
  function Line(depth: nat, fmt: bool): string {
    if fmt then "\n" + Tabs(depth) else ""
  }

  function Fields(members: seq<Member>, depth: nat, fmt: bool): (r: seq<Field>)
    requires depth > 0
    ensures |r| == |members|
    decreases members
  {
    if members == [] then []
    else [FieldOf(members[0], |members| == 1, depth, fmt)] + Fields(members[1..], depth, fmt)
  }

  /** The field of a member: its line, its name, a colon, its value, and behind the last one the line of the brace. */
  function FieldOf(m: Member, last: bool, depth: nat, fmt: bool): Field
    requires depth > 0
    decreases m
  {
    Field(Line(depth, fmt), UnitsFor(m.name), "", if fmt then "\t" else "", Layout(m.value, depth, fmt),
          if last then Line(depth - 1, fmt) else "")
  }

  lemma LineIsBlank(depth: nat, fmt: bool)
    ensures IsBlank(Line(depth, fmt)) && IsBlank("") && IsBlank(" ") && IsBlank("\t")
  {
  }

  // ---------------------------------------------------------------- what the print means

  /** A text of the grammar stands for the value. */
  ghost predicate Writes(doc: Doc, text: string, v: Value) {
    IsDoc(doc) && JsonGrammar.TextOf(doc) == text && Meaning(doc) == v
  }

  lemma WordConforms(v: Value, depth: nat, fmt: bool)
    requires v.Null? || v.False? || v.True?
    ensures Writes(Layout(v, depth, fmt), Print(v, depth, fmt), v)
  {
  }

  lemma NumberConforms(m: int, depth: nat, fmt: bool)
    ensures Writes(Layout(Number(m, 0), depth, fmt), Print(Number(m, 0), depth, fmt), Number(m, 0))
  {
    hide IsNumeral, Text, Mantissa, Exponent10, NumeralFor, IntText;
    NumberPrinted(m);
  }

  lemma StringConforms(s: string, depth: nat, fmt: bool)
    requires NUL !in s
    ensures Writes(Layout(Str(s), depth, fmt), Print(Str(s), depth, fmt), Str(s))
  {
    hide AllWellFormed, SourceOf, WrittenOf, Escape, UnitsFor;
    LiteralPrinted(s);
  }

  /** Entries that stand for values. */
  ghost predicate WritesItems(es: seq<Entry>, text: string, items: seq<Value>) {
    AreEntries(es) && (es != [] ==> EntriesText(es) == text) && Items(es) == items
  }

  lemma ArrayConforms(items: seq<Value>, depth: nat, fmt: bool)
    requires WritesItems(Entries(items, depth + 1, fmt, ""), PrintItems(items, depth + 1, fmt), items)
    ensures Writes(Layout(Array(items), depth, fmt), Print(Array(items), depth, fmt), Array(items))
  {
    hide AreEntries, EntriesText, Items, Entries;
    NoItemsPrinted(depth + 1, fmt);
  }

  lemma NoItemsPrinted(depth: nat, fmt: bool)
    ensures PrintItems([], depth, fmt) == ""
  {
  }

  lemma EntriesJoined(e: Entry, rest: seq<Entry>)
    requires IsBlank(e.before) && IsDoc(e.doc) && IsBlank(e.after) && AreEntries(rest)
    ensures var es := [e] + rest;
            && AreEntries(es) && Items(es) == [Meaning(e.doc)] + Items(rest)
            && EntriesText(es) == EntryText(e) + if rest == [] then "" else "," + EntriesText(rest)
  {
    hide IsBlank, IsDoc, Meaning, EntryText;
    assert ([e] + rest)[1..] == rest;
  }

  lemma ItemsPrinted(items: seq<Value>, depth: nat, fmt: bool)
    requires items != []
    ensures PrintItems(items, depth, fmt) ==
            Print(items[0], depth, fmt)
            + if |items| == 1 then "" else "," + ((if fmt then " " else "") + PrintItems(items[1..], depth, fmt))
  {
    hide Print;
    if |items| == 1 { NoItemsPrinted(depth, fmt); }
  }

  lemma EntryTextIs(e: Entry, text: string, v: Value)
    requires Writes(e.doc, text, v) && e.after == ""
    ensures EntryText(e) == e.before + text && IsDoc(e.doc) && Meaning(e.doc) == v
  {
    hide IsDoc, Meaning, JsonGrammar.TextOf;
  }

  lemma {:induction false} EntriesConform(items: seq<Value>, depth: nat, fmt: bool, before: string)
    requires IsBlank(before) && forall x :: x in items ==> Printable(x)
    ensures WritesItems(Entries(items, depth, fmt, before), before + PrintItems(items, depth, fmt), items)
    decreases items
  {
    hide *;
    EntriesUnfold(items, depth, fmt, before);
    if items != [] {
      var e := Entry(before, Layout(items[0], depth, fmt), "");
      var space := if fmt then " " else "";
      var rest := Entries(items[1..], depth, fmt, space);
      LineIsBlank(depth, fmt);
      Conforms(items[0], depth, fmt);
      EntryTextIs(e, Print(items[0], depth, fmt), items[0]);
      EntriesConform(items[1..], depth, fmt, space);
      WritesRest(rest, space + PrintItems(items[1..], depth, fmt), items[1..]);
      EntriesJoined(e, rest);
      ItemsPrinted(items, depth, fmt);
      EntriesWritten([e] + rest, before + PrintItems(items, depth, fmt), items);
    }
  }

  lemma WritesRest(es: seq<Entry>, text: string, items: seq<Value>)
    requires WritesItems(es, text, items)
    ensures AreEntries(es) && (es != [] ==> EntriesText(es) == text) && Items(es) == items
  {
    hide AreEntries, EntriesText, Items;
  }

  lemma EntriesWritten(es: seq<Entry>, text: string, items: seq<Value>)
    requires AreEntries(es) && (es != [] ==> EntriesText(es) == text) && Items(es) == items
    ensures WritesItems(es, text, items)
  {
    hide AreEntries, EntriesText, Items;
  }

  lemma EntriesUnfold(items: seq<Value>, depth: nat, fmt: bool, before: string)
    ensures items == [] ==> WritesItems(Entries(items, depth, fmt, before), before + PrintItems(items, depth, fmt), items)
    ensures items != [] ==>
              Entries(items, depth, fmt, before) ==
              [Entry(before, Layout(items[0], depth, fmt), "")] + Entries(items[1..], depth, fmt, if fmt then " " else "")
  {
    hide Layout, PrintItems, EntriesText;
  }

  lemma {:induction false} Conforms(v: Value, depth: nat, fmt: bool)
    requires Printable(v)
    ensures Writes(Layout(v, depth, fmt), Print(v, depth, fmt), v)
    decreases v
  {
    hide *;
    PrintableParts(v);
    match v
    case Null => WordConforms(v, depth, fmt);
    case False => WordConforms(v, depth, fmt);
    case True => WordConforms(v, depth, fmt);
    case Number(m, _) => NumberConforms(m, depth, fmt);
    case Str(s) => StringConforms(s, depth, fmt);
    case Array(items) =>
      LineIsBlank(depth, fmt);
      EntriesConform(items, depth + 1, fmt, "");
      assert "" + PrintItems(items, depth + 1, fmt) == PrintItems(items, depth + 1, fmt);
      ArrayConforms(items, depth, fmt);
    case Object(members) =>
      FieldsConform(members, depth + 1, fmt);
      ObjectConforms(members, depth, fmt);
  }

  lemma PrintableParts(v: Value)
    requires Printable(v)
    ensures v.Number? ==> v.exponent == 0
    ensures v.Str? ==> NUL !in v.text
    ensures v.Array? ==> forall x :: x in v.items ==> Printable(x)
    ensures v.Object? ==> forall m: Member :: m in v.members ==> NUL !in m.name && Printable(m.value)
  {
  }

  // ---------------------------------------------------------------- members

  /** Fields that stand for members. */
  ghost predicate WritesMembers(fs: seq<Field>, text: string, members: seq<Member>) {
    AreFields(fs) && (fs != [] ==> FieldsText(fs) == text) && Members(fs) == members
  }

  /** The members of an object with the new line before and the indentation behind. */
  function MembersText(members: seq<Member>, depth: nat, fmt: bool): string
    requires depth > 0
  {
    (if fmt then "\n" else "") + PrintMembers(members, depth, fmt) + (if fmt then Tabs(depth - 1) else "")
  }

  lemma ObjectConforms(members: seq<Member>, depth: nat, fmt: bool)
    requires WritesMembers(Fields(members, depth + 1, fmt), MembersText(members, depth + 1, fmt), members)
    ensures Writes(Layout(Object(members), depth, fmt), Print(Object(members), depth, fmt), Object(members))
  {
    hide AreFields, FieldsText, Members, Fields, PrintMembers, Tabs;
    LineIsBlank(depth, fmt);
    NoMembersPrinted(depth + 1, fmt);
  }

  lemma NoMembersPrinted(depth: nat, fmt: bool)
    ensures PrintMembers([], depth, fmt) == ""
  {
  }

  lemma FieldsJoined(f: Field, rest: seq<Field>)
    requires IsDoc(f.doc) && IsField(f) && AreFields(rest)
    ensures AllWellFormed(f.name)
    ensures var fs := [f] + rest;
            && AreFields(fs) && Members(fs) == [Member(WrittenOf(f.name), Meaning(f.doc))] + Members(rest)
            && FieldsText(fs) == FieldText(f) + if rest == [] then "" else "," + FieldsText(rest)
  {
    hide IsBlank, IsDoc, Meaning, FieldText, WrittenOf, AllWellFormed;
    assert ([f] + rest)[1..] == rest;
  }

  lemma FieldPrinted(m: Member, last: bool, depth: nat, fmt: bool)
    requires depth > 0 && NUL !in m.name && Writes(Layout(m.value, depth, fmt), Print(m.value, depth, fmt), m.value)
    ensures var f := FieldOf(m, last, depth, fmt);
            && IsDoc(f.doc) && Meaning(f.doc) == m.value && IsField(f) && AllWellFormed(f.name) && WrittenOf(f.name) == m.name
            && FieldText(f) == Line(depth, fmt) + Quote(m.name) + ":" + (if fmt then "\t" else "") + Print(m.value, depth, fmt)
                               + (if last then Line(depth - 1, fmt) else "")
  {
    hide IsBlank, IsDoc, Meaning, JsonGrammar.TextOf, WrittenOf, AllWellFormed, SourceOf, UnitsFor, Escape, Print, Layout, Line;
    LineIsBlank(depth, fmt);
    LineIsBlank(depth - 1, fmt);
    LiteralPrinted(m.name);
  }

  lemma MemberSpread(nl: string, tabs: string, name: string, tab: string, v: string, comma: string, rest: string, below: string)
    ensures nl + ((tabs + name + (":" + tab) + v + comma + nl) + rest) + below ==
            ((nl + tabs) + name + ":" + tab + v) + (comma + (nl + rest + below))
  {
  }

  lemma MembersPrinted(members: seq<Member>, depth: nat, fmt: bool)
    requires members != [] && depth > 0
    ensures var m := members[0];
            var text := Line(depth, fmt) + Quote(m.name) + ":" + (if fmt then "\t" else "") + Print(m.value, depth, fmt);
            MembersText(members, depth, fmt) ==
            text + if |members| == 1 then Line(depth - 1, fmt) else "," + MembersText(members[1..], depth, fmt)
  {
    hide Print, Tabs, Quote;
    var m, last := members[0], |members| == 1;
    var nl := if fmt then "\n" else "";
    var tab := if fmt then "\t" else "";
    var tabs, below := if fmt then Tabs(depth) else "", if fmt then Tabs(depth - 1) else "";
    assert (if fmt then ":\t" else ":") == ":" + tab;
    MemberSpread(nl, tabs, Quote(m.name), tab, Print(m.value, depth, fmt), if last then "" else ",",
                 PrintMembers(members[1..], depth, fmt), below);
    var comma := if last then "" else ",";
    assert PrintMember(m, last, depth, fmt) == tabs + Quote(m.name) + (":" + tab) + Print(m.value, depth, fmt) + comma + nl;
    assert PrintMembers(members, depth, fmt) == PrintMember(m, last, depth, fmt) + PrintMembers(members[1..], depth, fmt);
    assert nl + tabs == Line(depth, fmt) && nl + "" + below == Line(depth - 1, fmt);
    if last {
      NoMembersPrinted(depth, fmt);
      assert members[1..] == [];
      assert "" + (nl + "" + below) == Line(depth - 1, fmt);
    }
  }

  lemma {:induction false} FieldsConform(members: seq<Member>, depth: nat, fmt: bool)
    requires depth > 0 && forall m: Member :: m in members ==> NUL !in m.name && Printable(m.value)
    ensures WritesMembers(Fields(members, depth, fmt), MembersText(members, depth, fmt), members)
    decreases members
  {
    hide *;
    FieldsUnfold(members, depth, fmt);
    if members != [] {
      var m := members[0];
      var f := FieldOf(m, |members| == 1, depth, fmt);
      var rest := Fields(members[1..], depth, fmt);
      Conforms(m.value, depth, fmt);
      FieldPrinted(m, |members| == 1, depth, fmt);
      FieldsConform(members[1..], depth, fmt);
      MembersRest(rest, MembersText(members[1..], depth, fmt), members[1..]);
      FieldsJoined(f, rest);
      MembersPrinted(members, depth, fmt);
      FieldsWritten([f] + rest, MembersText(members, depth, fmt), members);
    }
  }

  lemma MembersRest(fs: seq<Field>, text: string, members: seq<Member>)
    requires WritesMembers(fs, text, members)
    ensures AreFields(fs) && (fs != [] ==> FieldsText(fs) == text) && Members(fs) == members
  {
    hide AreFields, FieldsText, Members;
  }

  lemma FieldsWritten(fs: seq<Field>, text: string, members: seq<Member>)
    requires AreFields(fs) && (fs != [] ==> FieldsText(fs) == text) && Members(fs) == members
    ensures WritesMembers(fs, text, members)
  {
    hide AreFields, FieldsText, Members;
  }

  lemma FieldsUnfold(members: seq<Member>, depth: nat, fmt: bool)
    requires depth > 0
    ensures members == [] ==> WritesMembers(Fields(members, depth, fmt), MembersText(members, depth, fmt), members)
    ensures members != [] ==>
              Fields(members, depth, fmt) ==
              [FieldOf(members[0], |members| == 1, depth, fmt)] + Fields(members[1..], depth, fmt)
  {
    hide MembersText, FieldsText;
  }
}
