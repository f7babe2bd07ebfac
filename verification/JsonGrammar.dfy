/**
 * Every text that the grammar of JSON allows (RFC 8259), spaces anywhere between its tokens, is read as what it means.
 */
module JsonGrammar {
  import opened Json
  import opened JsonText
  import opened JsonRoundTrip
  import opened JsonNumber
  import opened JsonStringLiteral
  import opened Sequences

  /** A text of the grammar, token by token; the spaces of an empty container are its own. */
  datatype Doc =
    | Word(v: Value)
    | Numeric(n: Numeral)
    | Literal(us: seq<Unit>)
    | List(blank: string, entries: seq<Entry>)
    | Record(blank: string, fields: seq<Field>)

  datatype Entry = Entry(before: string, doc: Doc, after: string)

  datatype Field = Field(before: string, name: seq<Unit>, beforeColon: string, afterColon: string, doc: Doc, after: string)

  /** The white space of section 2. */
  predicate IsBlank(s: string) {
    forall i :: 0 <= i < |s| ==> s[i] == ' ' || s[i] == '\t' || s[i] == '\n' || s[i] == '\r'
  }

  predicate IsDoc(doc: Doc)
    decreases doc
  {
    match doc
    case Word(v) => v.Null? || v.False? || v.True?
    case Numeric(n) => IsNumeral(n) && n.whole != ""
    case Literal(us) => AllWellFormed(us)
    case List(blank, entries) => IsBlank(blank) && AreEntries(entries)
    case Record(blank, fields) => IsBlank(blank) && AreFields(fields)
  }

  predicate AreEntries(entries: seq<Entry>)
    decreases entries
  {
    forall e: Entry :: e in entries ==> IsBlank(e.before) && IsDoc(e.doc) && IsBlank(e.after)
  }

  predicate AreFields(fields: seq<Field>)
    decreases fields
  {
    forall f: Field :: f in fields ==> IsDoc(f.doc) && IsField(f)
  }

  predicate IsField(f: Field) {
    IsBlank(f.before) && AllWellFormed(f.name) && IsBlank(f.beforeColon) && IsBlank(f.afterColon) && IsBlank(f.after)
  }

  function WordText(v: Value): string {
    if v.Null? then "null" else if v.False? then "false" else "true"
  }

  function TextOf(doc: Doc): string
    decreases doc
  {
    match doc
    case Word(v) => WordText(v)
    case Numeric(n) => Text(n)
    case Literal(us) => "\"" + SourceOf(us) + "\""
    case List(blank, entries) => "[" + (if entries == [] then blank else EntriesText(entries)) + "]"
    case Record(blank, fields) => "{" + (if fields == [] then blank else FieldsText(fields)) + "}"
  }

  function EntriesText(entries: seq<Entry>): string
    requires entries != []
    decreases entries
  {
    EntryText(entries[0]) + if |entries| == 1 then "" else "," + EntriesText(entries[1..])
  }

  function EntryText(e: Entry): string
    decreases e
  {
    e.before + TextOf(e.doc) + e.after
  }

  function FieldsText(fields: seq<Field>): string
    requires fields != []
    decreases fields
  {
    FieldText(fields[0]) + if |fields| == 1 then "" else "," + FieldsText(fields[1..])
  }

  function FieldText(f: Field): string
    decreases f
  {
    NameText(f) + TextOf(f.doc) + f.after
  }

  /** A field up to its value. */
  function NameText(f: Field): string {
    f.before + ("\"" + SourceOf(f.name) + "\"") + f.beforeColon + ":" + f.afterColon
  }

  /** What the text stands for; a string is what parse_string stores for its literal. */
  function Meaning(doc: Doc): Value
    requires IsDoc(doc)
    decreases doc
  {
    match doc
    case Word(v) => v
    case Numeric(n) => Number(Mantissa(n), Exponent10(n))
    case Literal(us) => Str(WrittenOf(us))
    case List(_, entries) => Array(Items(entries))
    case Record(_, fields) => Object(Members(fields))
  }

  function Items(entries: seq<Entry>): seq<Value>
    requires AreEntries(entries)
    decreases entries
  {
    if entries == [] then [] else [Meaning(entries[0].doc)] + Items(entries[1..])
  }

  function Members(fields: seq<Field>): seq<Member>
    requires AreFields(fields)
    decreases fields
  {
    if fields == [] then [] else [Member(WrittenOf(fields[0].name), Meaning(fields[0].doc))] + Members(fields[1..])
  }

  /** What may follow: words and numbers do not tell their own end. */
  predicate Closed(doc: Doc, mem: string, e: nat)
    requires Terminated(mem) && e < |mem|
  {
    match doc
    case Word(_) => mem[e] != NUL
    case Numeric(n) => Ends(n, mem, e)
    case _ => true
  }

  // ---------------------------------------------------------------- spaces and separators

  lemma BlankIsSpace(s: string)
    requires IsBlank(s)
    ensures forall i :: 0 <= i < |s| ==> IsSpace(s[i])
  {
  }

  /** Blanks at p, and the byte behind them. */
  lemma BlankSkipped(mem: string, p: nat, blank: string)
    requires Terminated(mem) && IsBlank(blank) && TextAt(mem, p, blank) && !IsSpace(mem[p + |blank|])
    ensures Skip(mem, p) == p + |blank|
  {
    hide TextAt, IsSpace;
    BlankIsSpace(blank);
    SkipText(mem, p, blank);
    NoBlank(mem, p + |blank|);
  }

  lemma NoBlank(mem: string, p: nat)
    requires Terminated(mem) && p < |mem| && !IsSpace(mem[p])
    ensures Skip(mem, p) == p
  {
  }

  /** Blanks, or one of the bytes that stand between tokens, end any value. */
  lemma ClosedBy(doc: Doc, mem: string, e: nat, blank: string)
    requires Terminated(mem) && IsBlank(blank) && TextAt(mem, e, blank)
    requires var c := mem[e + |blank|]; c == ',' || c == ']' || c == '}'
    ensures Closed(doc, mem, e)
  {
    hide TextAt;
    if blank != "" { CharAt(mem, e, blank, 0); }
  }

  /** No text starts with a space or a closing bracket. */
  lemma FirstByte(doc: Doc)
    requires IsDoc(doc)
    ensures TextOf(doc) != "" && var c := TextOf(doc)[0]; !IsSpace(c) && c != ']' && c != '}'
  {
    hide EntriesText, FieldsText, SourceOf, AllWellFormed;
    if doc.Numeric? {
      assert Text(doc.n)[0] == '-' || IsDigit(Text(doc.n)[0]) by { FirstOfNumeral(doc.n); }
    }
  }

  lemma FirstOfNumeral(n: Numeral)
    requires IsNumeral(n) && n.whole != ""
    ensures Text(n) != "" && (Text(n)[0] == '-' || IsDigit(Text(n)[0]))
  {
    hide PointText, PowerText;
  }

  // ---------------------------------------------------------------- entries

  lemma EntryAt(mem: string, p: nat, e: Entry)
    requires TextAt(mem, p, EntryText(e))
    ensures var q := p + |e.before|;
            var r := q + |TextOf(e.doc)|;
            && TextAt(mem, p, e.before) && TextAt(mem, q, TextOf(e.doc)) && TextAt(mem, r, e.after)
            && r + |e.after| == p + |EntryText(e)|
  {
    hide TextAt, TextOf;
    SplitText(mem, p, e.before + TextOf(e.doc), e.after);
    SplitText(mem, p, e.before, TextOf(e.doc));
  }

  /** The first of some texts that commas separate. */
  lemma FirstAt(mem: string, p: nat, first: string, rest: string)
    requires TextAt(mem, p, first + if rest == "" then "" else "," + rest)
    ensures TextAt(mem, p, first)
    ensures rest != "" ==> mem[p + |first|] == ',' && TextAt(mem, p + |first| + 1, rest)
    ensures |first + if rest == "" then "" else "," + rest| == |first| + if rest == "" then 0 else 1 + |rest|
  {
    hide TextAt;
    if rest == "" {
      assert first + "" == first;
    } else {
      SplitText(mem, p, first, "," + rest);
      SplitText(mem, p + |first|, ",", rest);
      CharAt(mem, p + |first|, ",", 0);
    }
  }

  lemma EntriesLonger(entries: seq<Entry>)
    requires entries != [] && AreEntries(entries)
    ensures EntriesText(entries) != ""
    ensures IsBlank(entries[0].before) && IsDoc(entries[0].doc) && IsBlank(entries[0].after) && AreEntries(entries[1..])
    ensures var rest := if |entries| == 1 then "" else EntriesText(entries[1..]);
            EntriesText(entries) == EntryText(entries[0]) + if rest == "" then "" else "," + rest
    ensures Items(entries) == [Meaning(entries[0].doc)] + Items(entries[1..])
    decreases |entries|
  {
    hide TextOf, Meaning, IsDoc, IsBlank;
    FirstByte(entries[0].doc);
    if |entries| > 1 { EntriesLonger(entries[1..]); }
  }

  /** A value, the spaces after it, and the closing bracket. */
  lemma CloseAfter(mem: string, e: nat, s: nat, close: char)
    requires Terminated(mem) && e < |mem| && s < |mem| && (close == ']' || close == '}')
    requires Skip(mem, e) == s && mem[s] == close
    ensures AfterEntry(mem, e, close) == Close(s + 1)
  {
  }

  /** A value, the spaces after it, a comma, and what comes next. */
  lemma MoreAfter(mem: string, e: nat, s: nat, t: nat, close: char)
    requires Terminated(mem) && e < |mem| && s < |mem| && t < |mem| && (close == ']' || close == '}')
    requires Skip(mem, e) == s && mem[s] == ',' && Skip(mem, s + 1) == t && mem[t] != close
    ensures AfterEntry(mem, e, close) == More(t)
  {
  }

  lemma NoSpaces()
    ensures !IsSpace(',') && !IsSpace(']') && !IsSpace('}') && !IsSpace(':') && !IsSpace('\"')
  {
  }

  lemma EntryReads(x: Entry, mem: string, p: nat)
    requires Terminated(mem) && IsBlank(x.before) && IsDoc(x.doc) && IsBlank(x.after) && TextAt(mem, p, EntryText(x))
    requires var c := mem[p + |EntryText(x)|]; c == ',' || c == ']'
    ensures var q, e := p + |x.before|, p + |EntryText(x)| - |x.after|;
            && Skip(mem, p) == q && mem[q] != ']' && e < |mem| && Skip(mem, e) == p + |EntryText(x)|
            && ValueAt(mem, q) == Parsed(Meaning(x.doc), e)
    decreases x, 0
  {
    hide *;
    EntryAt(mem, p, x);
    NoSpaces();
    var q := p + |x.before|;
    var e := q + |TextOf(x.doc)|;
    FirstByte(x.doc);
    CharAt(mem, q, TextOf(x.doc), 0);
    BlankSkipped(mem, p, x.before);
    ClosedBy(x.doc, mem, e, x.after);
    DocReads(x.doc, mem, q);
    BlankSkipped(mem, e, x.after);
  }

  lemma LastEntry(mem: string, q: nat, v: Value, e: nat, s: nat, done: seq<Value>)
    requires Terminated(mem) && q < |mem| && e < |mem| && s < |mem|
    requires ValueAt(mem, q) == Parsed(v, e) && Skip(mem, e) == s && mem[s] == ']'
    ensures ItemsAt(mem, q, done) == Parsed(Array(done + [v]), s + 1)
  {
    hide *;
    ItemsUnfold(mem, q, done);
    CloseAfter(mem, e, s, ']');
  }

  lemma EntryAndMore(mem: string, q: nat, v: Value, e: nat, s: nat, t: nat, done: seq<Value>)
    requires Terminated(mem) && q < |mem| && e < |mem| && s < |mem| && t < |mem|
    requires ValueAt(mem, q) == Parsed(v, e) && Skip(mem, e) == s && mem[s] == ',' && Skip(mem, s + 1) == t && mem[t] != ']'
    ensures ItemsAt(mem, q, done) == ItemsAt(mem, t, done + [v])
  {
    hide *;
    ItemsUnfold(mem, q, done);
    MoreAfter(mem, e, s, t, ']');
  }

  lemma {:induction false} EntriesRead(entries: seq<Entry>, mem: string, p: nat, done: seq<Value>)
    requires Terminated(mem) && entries != [] && AreEntries(entries) && TextAt(mem, p, EntriesText(entries))
    requires mem[p + |EntriesText(entries)|] == ']'
    ensures var q := p + |entries[0].before|;
            && Skip(mem, p) == q && mem[q] != ']'
            && ItemsAt(mem, q, done) == Parsed(Array(done + Items(entries)), p + |EntriesText(entries)| + 1)
    decreases entries, 0
  {
    hide *;
    EntriesLonger(entries);
    var first, next := entries[0], entries[1..];
    var rest := if |entries| == 1 then "" else EntriesText(next);
    FirstAt(mem, p, EntryText(first), rest);
    if |entries| > 1 { EntriesLonger(next); }
    EntryReads(first, mem, p);
    var q, e, s := p + |first.before|, p + |EntryText(first)| - |first.after|, p + |EntryText(first)|;
    if |entries| == 1 {
      LastEntry(mem, q, Meaning(first.doc), e, s, done);
      NoItems(next);
      assert done + [Meaning(first.doc)] == done + Items(entries);
    } else {
      EntriesRead(next, mem, s + 1, done + [Meaning(first.doc)]);
      EntryAndMore(mem, q, Meaning(first.doc), e, s, s + 1 + |next[0].before|, done);
      Regroup(done, [Meaning(first.doc)], Items(next));
    }
  }

  lemma NoItems(entries: seq<Entry>)
    requires entries == []
    ensures AreEntries(entries) && Items(entries) == []
  {
  }

  lemma ListParts(blank: string, entries: seq<Entry>)
    requires IsDoc(List(blank, entries))
    ensures IsBlank(blank) && AreEntries(entries) && Meaning(List(blank, entries)) == Array(Items(entries))
    ensures var body := if entries == [] then blank else EntriesText(entries);
            TextOf(List(blank, entries)) == "[" + (body + "]") && |TextOf(List(blank, entries))| == |body| + 2
  {
    hide EntriesText, Items, AreEntries;
  }

  lemma ListReads(blank: string, entries: seq<Entry>, mem: string, p: nat)
    requires Terminated(mem) && IsDoc(List(blank, entries)) && TextAt(mem, p, TextOf(List(blank, entries)))
    ensures ValueAt(mem, p) == Parsed(Meaning(List(blank, entries)), p + |TextOf(List(blank, entries))|)
    decreases entries, 1
  {
    hide *;
    ListParts(blank, entries);
    var body := if entries == [] then blank else EntriesText(entries);
    SplitText(mem, p, "[", body + "]");
    SplitText(mem, p + 1, body, "]");
    CharAt(mem, p, "[", 0);
    CharAt(mem, p + 1 + |body|, "]", 0);
    OpenArray(mem, p);
    NotALiteral(mem, p);
    if entries == [] {
      NoSpaces();
      NoItems(entries);
      BlankSkipped(mem, p + 1, blank);
    } else {
      EntriesRead(entries, mem, p + 1, []);
      assert [] + Items(entries) == Items(entries);
    }
  }

  // ---------------------------------------------------------------- fields

  lemma FieldAt(mem: string, p: nat, f: Field)
    requires TextAt(mem, p, FieldText(f))
    ensures var quoted := "\"" + SourceOf(f.name) + "\"";
            var q := p + |f.before|;
            var r := q + |quoted|;
            var t := r + |f.beforeColon| + 1;
            var v := t + |f.afterColon|;
            var e := v + |TextOf(f.doc)|;
            && v == p + |NameText(f)|
            && TextAt(mem, p, f.before) && TextAt(mem, q, quoted) && TextAt(mem, r, f.beforeColon) && mem[t - 1] == ':'
            && TextAt(mem, t, f.afterColon) && TextAt(mem, v, TextOf(f.doc)) && TextAt(mem, e, f.after)
            && e + |f.after| == p + |FieldText(f)|
  {
    var quoted := "\"" + SourceOf(f.name) + "\"";
    hide TextAt, TextOf, SourceOf;
    SplitText(mem, p, NameText(f) + TextOf(f.doc), f.after);
    SplitText(mem, p, NameText(f), TextOf(f.doc));
    SplitFive(mem, p, f.before, quoted, f.beforeColon, ":", f.afterColon);
    CharAt(mem, p + |f.before| + |quoted| + |f.beforeColon|, ":", 0);
  }

  lemma FieldsLonger(fields: seq<Field>)
    requires fields != [] && AreFields(fields)
    ensures FieldsText(fields) != "" && IsField(fields[0]) && IsDoc(fields[0].doc) && AreFields(fields[1..])
    ensures var rest := if |fields| == 1 then "" else FieldsText(fields[1..]);
            FieldsText(fields) == FieldText(fields[0]) + if rest == "" then "" else "," + rest
    ensures Members(fields) == [Member(WrittenOf(fields[0].name), Meaning(fields[0].doc))] + Members(fields[1..])
    decreases |fields|
  {
    hide TextOf, Meaning, IsDoc, IsField, WrittenOf, SourceOf;
    FirstByte(fields[0].doc);
    if |fields| > 1 { FieldsLonger(fields[1..]); }
  }

  lemma NameStands(mem: string, p: nat, name: string, e: nat, s: nat, t: nat)
    requires Terminated(mem) && p < |mem| && e < |mem| && s < |mem| && t < |mem|
    requires StringAt(mem, p) == Parsed(name, e) && Skip(mem, e) == s && mem[s] == ':' && Skip(mem, s + 1) == t
    ensures NameAt(mem, p) == Parsed(name, t)
  {
    hide StringAt;
  }

  lemma ValueStands(mem: string, p: nat, name: string, t: nat, v: Value, e: nat)
    requires Terminated(mem) && p < |mem| && t < |mem| && NameAt(mem, p) == Parsed(name, t) && ValueAt(mem, t) == Parsed(v, e)
    ensures MemberAt(mem, p) == Parsed(Member(name, v), e)
  {
    hide NameAt, ValueAt;
  }

  lemma FieldParts(f: Field)
    requires IsField(f)
    ensures IsBlank(f.before) && AllWellFormed(f.name) && IsBlank(f.beforeColon) && IsBlank(f.afterColon) && IsBlank(f.after)
  {
    hide AllWellFormed;
  }

  /** The name of a field and the colon; where its value stands. */
  lemma NameReads(f: Field, mem: string, p: nat)
    requires Terminated(mem) && IsField(f) && IsDoc(f.doc) && TextAt(mem, p, FieldText(f))
    ensures AllWellFormed(f.name)
    ensures var q, v := p + |f.before|, p + |NameText(f)|;
            && v + |TextOf(f.doc)| + |f.after| == p + |FieldText(f)|
            && Skip(mem, p) == q && mem[q] == '\"' && TextAt(mem, v, TextOf(f.doc)) && TextAt(mem, v + |TextOf(f.doc)|, f.after)
            && NameAt(mem, q) == Parsed(WrittenOf(f.name), v)
  {
    hide *;
    FieldAt(mem, p, f);
    FieldParts(f);
    NoSpaces();
    var q := p + |f.before|;
    var r := q + |SourceOf(f.name)| + 2;
    var t := r + |f.beforeColon| + 1;
    var v := t + |f.afterColon|;
    LiteralAt(f.name, mem, q);
    FirstByte(f.doc);
    CharAt(mem, v, TextOf(f.doc), 0);
    BlankSkipped(mem, p, f.before);
    BlankSkipped(mem, r, f.beforeColon);
    BlankSkipped(mem, t, f.afterColon);
    NameStands(mem, q, WrittenOf(f.name), r, t - 1, v);
  }

  lemma FieldReads(f: Field, mem: string, p: nat)
    requires Terminated(mem) && IsField(f) && IsDoc(f.doc) && TextAt(mem, p, FieldText(f))
    requires var c := mem[p + |FieldText(f)|]; c == ',' || c == '}'
    ensures AllWellFormed(f.name)
    ensures var q, e := p + |f.before|, p + |FieldText(f)| - |f.after|;
            && Skip(mem, p) == q && mem[q] == '\"' && e < |mem| && Skip(mem, e) == p + |FieldText(f)|
            && MemberAt(mem, q) == Parsed(Member(WrittenOf(f.name), Meaning(f.doc)), e)
    decreases f, 0
  {
    hide *;
    NameReads(f, mem, p);
    FieldParts(f);
    NoSpaces();
    var v := p + |NameText(f)|;
    var e := v + |TextOf(f.doc)|;
    ClosedBy(f.doc, mem, e, f.after);
    DocReads(f.doc, mem, v);
    BlankSkipped(mem, e, f.after);
    ValueStands(mem, p + |f.before|, WrittenOf(f.name), v, Meaning(f.doc), e);
  }

  lemma LastField(mem: string, q: nat, m: Member, e: nat, s: nat, done: seq<Member>)
    requires Terminated(mem) && q < |mem| && e < |mem| && s < |mem|
    requires MemberAt(mem, q) == Parsed(m, e) && Skip(mem, e) == s && mem[s] == '}'
    ensures MembersAt(mem, q, done) == Parsed(Object(done + [m]), s + 1)
  {
    hide *;
    MembersUnfold(mem, q, done);
    CloseAfter(mem, e, s, '}');
  }

  lemma FieldAndMore(mem: string, q: nat, m: Member, e: nat, s: nat, t: nat, done: seq<Member>)
    requires Terminated(mem) && q < |mem| && e < |mem| && s < |mem| && t < |mem|
    requires MemberAt(mem, q) == Parsed(m, e) && Skip(mem, e) == s && mem[s] == ',' && Skip(mem, s + 1) == t && mem[t] != '}'
    ensures MembersAt(mem, q, done) == MembersAt(mem, t, done + [m])
  {
    hide *;
    MembersUnfold(mem, q, done);
    MoreAfter(mem, e, s, t, '}');
  }

  lemma {:induction false} FieldsRead(fields: seq<Field>, mem: string, p: nat, done: seq<Member>)
    requires Terminated(mem) && fields != [] && AreFields(fields) && TextAt(mem, p, FieldsText(fields))
    requires mem[p + |FieldsText(fields)|] == '}'
    ensures var q := p + |fields[0].before|;
            && Skip(mem, p) == q && mem[q] == '\"'
            && MembersAt(mem, q, done) == Parsed(Object(done + Members(fields)), p + |FieldsText(fields)| + 1)
    decreases fields, 0
  {
    hide *;
    FieldsLonger(fields);
    var first, next := fields[0], fields[1..];
    var rest := if |fields| == 1 then "" else FieldsText(next);
    FirstAt(mem, p, FieldText(first), rest);
    if |fields| > 1 { FieldsLonger(next); }
    FieldReads(first, mem, p);
    var q, e, s := p + |first.before|, p + |FieldText(first)| - |first.after|, p + |FieldText(first)|;
    FieldParts(first);
    var m := Member(WrittenOf(first.name), Meaning(first.doc));
    if |fields| == 1 {
      LastField(mem, q, m, e, s, done);
      NoMember(next);
      assert done + [m] == done + Members(fields);
    } else {
      FieldsRead(next, mem, s + 1, done + [m]);
      FieldAndMore(mem, q, m, e, s, s + 1 + |next[0].before|, done);
      Regroup(done, [m], Members(next));
    }
  }

  lemma NoMember(fields: seq<Field>)
    requires fields == []
    ensures AreFields(fields) && Members(fields) == []
  {
  }

  lemma RecordParts(blank: string, fields: seq<Field>)
    requires IsDoc(Record(blank, fields))
    ensures IsBlank(blank) && AreFields(fields) && Meaning(Record(blank, fields)) == Object(Members(fields))
    ensures var body := if fields == [] then blank else FieldsText(fields);
            TextOf(Record(blank, fields)) == "{" + (body + "}") && |TextOf(Record(blank, fields))| == |body| + 2
  {
    hide FieldsText, Members, AreFields;
  }

  lemma RecordReads(blank: string, fields: seq<Field>, mem: string, p: nat)
    requires Terminated(mem) && IsDoc(Record(blank, fields)) && TextAt(mem, p, TextOf(Record(blank, fields)))
    ensures ValueAt(mem, p) == Parsed(Meaning(Record(blank, fields)), p + |TextOf(Record(blank, fields))|)
    decreases fields, 1
  {
    hide *;
    RecordParts(blank, fields);
    var body := if fields == [] then blank else FieldsText(fields);
    SplitText(mem, p, "{", body + "}");
    SplitText(mem, p + 1, body, "}");
    CharAt(mem, p, "{", 0);
    CharAt(mem, p + 1 + |body|, "}", 0);
    OpenObject(mem, p);
    NotALiteral(mem, p);
    if fields == [] {
      NoSpaces();
      NoMember(fields);
      BlankSkipped(mem, p + 1, blank);
    } else {
      FieldsRead(fields, mem, p + 1, []);
      assert [] + Members(fields) == Members(fields);
    }
  }

  // ---------------------------------------------------------------- values

  lemma WordReads(v: Value, mem: string, p: nat)
    requires v.Null? || v.False? || v.True?
    requires Terminated(mem) && TextAt(mem, p, WordText(v)) && mem[p + |WordText(v)|] != NUL
    ensures ValueAt(mem, p) == Parsed(v, p + |WordText(v)|)
  {
    hide TextAt, ValueAt;
    LiteralReads(mem, p, v, 0, false);
  }

  /** A literal at p, quotes included. */
  lemma LiteralAt(us: seq<Unit>, mem: string, p: nat)
    requires Terminated(mem) && AllWellFormed(us) && TextAt(mem, p, "\"" + SourceOf(us) + "\"")
    ensures mem[p] == '\"' && StringAt(mem, p) == Parsed(WrittenOf(us), p + |SourceOf(us)| + 2)
  {
    hide *;
    LiteralStored(us, mem, p);
    CharAt(mem, p, "\"" + SourceOf(us) + "\"", 0);
  }

  lemma StringReads(us: seq<Unit>, mem: string, p: nat)
    requires Terminated(mem) && AllWellFormed(us) && TextAt(mem, p, "\"" + SourceOf(us) + "\"")
    ensures ValueAt(mem, p) == Parsed(Str(WrittenOf(us)), p + |SourceOf(us)| + 2)
  {
    hide TextAt, SourceOf, WrittenOf, AllWellFormed, ValueAt, StringAt;
    LiteralAt(us, mem, p);
    NotALiteral(mem, p);
  }

  /** Any text of the grammar, wherever it stands, is read as what it means, to its own end. */
  lemma {:induction false} DocReads(doc: Doc, mem: string, p: nat)
    requires Terminated(mem) && IsDoc(doc) && TextAt(mem, p, TextOf(doc)) && Closed(doc, mem, p + |TextOf(doc)|)
    ensures ValueAt(mem, p) == Parsed(Meaning(doc), p + |TextOf(doc)|)
    decreases doc, 1
  {
    hide ValueAt, TextAt, Text, SourceOf, WrittenOf, AllWellFormed, EntriesText, FieldsText, Items, Ends, IsNumeral;
    match doc
    case Word(v) => WordReads(v, mem, p);
    case Numeric(n) => NumeralIsValue(mem, p, n);
    case Literal(us) => StringReads(us, mem, p);
    case List(blank, entries) => ListReads(blank, entries, mem, p);
    case Record(blank, fields) => RecordReads(blank, fields, mem, p);
  }

  /** From the start of a text: leading spaces are passed over, and the reading ends where the value does. */
  lemma TextIsRead(blank: string, doc: Doc, after: string)
    requires IsBlank(blank) && IsDoc(doc) && Terminated(after)
    requires var text := blank + TextOf(doc) + after; Closed(doc, text, |blank| + |TextOf(doc)|)
    ensures ParseStream(blank + TextOf(doc) + after) == Parsed(Meaning(doc), |blank| + |TextOf(doc)|)
  {
    hide *;
    var text := blank + TextOf(doc) + after;
    InText(blank, TextOf(doc), after);
    FirstByte(doc);
    CharAt(text, |blank|, TextOf(doc), 0);
    BlankSkipped(text, 0, blank);
    DocReads(doc, text, |blank|);
    StreamIs(text);
  }

  lemma StreamIs(mem: string)
    requires Terminated(mem)
    ensures ParseStream(mem) == ValueAt(mem, Skip(mem, 0))
  {
    hide ValueAt, Skip;
  }

  lemma InText(a: string, b: string, c: string)
    requires Terminated(c)
    ensures Terminated(a + b + c) && TextAt(a + b + c, 0, a) && TextAt(a + b + c, |a|, b)
  {
  }
}
