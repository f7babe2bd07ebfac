/**
 * The printer: each routine first measures its text, allocates a buffer of that size,
 * and then fills it. That every store lands inside the buffer is what the array bounds below check.
 */
module JsonPrinter {
  import opened Json
  import opened JsonNode
  import opened JsonChain
  import opened Sequences

  // ---------------------------------------------------------------- stores

  /** strcpy: the text and its terminator. */
  method Put(out: array<char>, p: nat, s: string) returns (q: nat)
    requires p + |s| < out.Length
    modifies out
    ensures q == p + |s| && out[..q] == old(out[..p]) + s && out[q] == NUL
  {
    var i := 0;
    while i < |s|
      invariant 0 <= i <= |s|
      invariant out[..p + i] == old(out[..p]) + s[..i]
    {
      out[p + i] := s[i];
      i := i + 1;
      assert out[..p + i] == out[..p + i - 1] + [s[i - 1]];
      assert s[..i] == s[..i - 1] + [s[i - 1]];
    }
    assert s[..i] == s;
    q := p + i;
    out[q] := NUL;
    assert out[..q] == old(out[..p]) + s;
  }

  method PutTabs(out: array<char>, p: nat, n: nat) returns (q: nat)
    requires p + n < out.Length
    modifies out
    ensures q == p + n && out[..q] == old(out[..p]) + Tabs(n)
  {
    var j := 0;
    while j < n
      invariant 0 <= j <= n
      invariant out[..p + j] == old(out[..p]) + Tabs(j)
    {
      out[p + j] := '\t';
      j := j + 1;
      assert out[..p + j] == out[..p + j - 1] + ['\t'];
      assert Tabs(j) == Tabs(j - 1) + ['\t'];
    }
    q := p + n;
  }

  // ---------------------------------------------------------------- strings

  /** The bytes that the counting pass of print_string_ptr allows for one character. */
  function Allowance(token: char): nat {
    if token in ['\"', '\\', BACKSPACE, FORMFEED, '\n', '\r', '\t'] then 2
    else if token as int < 32 then 6
    else 1
  }

  function CountEscaped(s: string): nat {
    if s == "" then 0 else Allowance(s[0]) + CountEscaped(s[1..])
  }

  /** The counting pass is exact. */
  lemma {:induction false} CountIsExact(s: string)
    ensures CountEscaped(s) == |Escape(s)|
  {
    if s != "" { CountIsExact(s[1..]); }
  }

  /** The counting pass. */
  method CountChars(s: string) returns (len: nat)
    ensures len == CountEscaped(s)
  {
    var i := 0;
    len := 0;
    while i < |s|
      invariant 0 <= i <= |s| && len + CountEscaped(s[i..]) == CountEscaped(s)
    {
      assert s[i..][1..] == s[i + 1..];
      len := len + Allowance(s[i]);
      i := i + 1;
    }
    assert s[i..] == "";
  }

  /** print_string_ptr: the buffer is filled to its last byte. */
  method PrintStringPtr(str: Option<string>) returns (text: string)
    requires str.Some? ==> NUL !in str.value
    ensures text == match str case None => "" case Some(s) => Quote(s)
  {
    if str == None { return ""; }
    var s := str.value;
    var len := CountChars(s);
    CountIsExact(s);
    var out := new char[len + 3];
    out[0] := '\"';
    assert out[..1] == "\"";
    var p := EscapeInto(out, s);
    out[p] := '\"';
    out[p + 1] := NUL;
    text := out[..p + 1];
  }

  lemma EscapeStep(s: string, i: nat)
    requires i < |s|
    ensures Escape(s[i..]) == EscapeChar(s[i]) + Escape(s[i + 1..])
  {
    assert s[i..][1..] == s[i + 1..];
  }

  /** The writing pass, after the opening quote. */
  method EscapeInto(out: array<char>, s: string) returns (p: nat)
    requires out.Length == |Escape(s)| + 3
    modifies out
    ensures p == 1 + |Escape(s)| && out[..p] == old(out[..1]) + Escape(s)
  {
    hide EscapeChar;
    var i := 0;
    p := 1;
    ghost var rest := Escape(s);
    assert s[0..] == s;
    while i < |s|
      invariant 0 <= i <= |s| && rest == Escape(s[i..]) && p + |rest| == 1 + |Escape(s)|
      invariant out[..p] + rest == old(out[..1]) + Escape(s)
    {
      EscapeStep(s, i);
      ghost var before, after := out[..p], Escape(s[i + 1..]);
      p := PutChar(out, p, s[i]);
      assert before + (EscapeChar(s[i]) + after) == before + EscapeChar(s[i]) + after;
      i, rest := i + 1, after;
    }
    assert s[i..] == "" && out[..p] + "" == out[..p];
  }

  predicate IsShort(c: char) {
    c in ['\\', '\"', BACKSPACE, FORMFEED, '\n', '\r', '\t']
  }

  /** The letter of an escape of two characters. */
  function Letter(c: char): char {
    if c == BACKSPACE then 'b' else if c == FORMFEED then 'f' else if c == '\n' then 'n'
    else if c == '\r' then 'r' else if c == '\t' then 't' else c
  }

  /** The three kinds of characters. */
  lemma EscapeIs(c: char)
    ensures IsShort(c) ==> EscapeChar(c) == ['\\', Letter(c)]
    ensures !IsShort(c) && c as int > 31 ==> EscapeChar(c) == [c]
    ensures !IsShort(c) && c as int <= 31 ==>
              EscapeChar(c) == ['\\'] + ['u', '0', '0', HexDigitOf(c as int / 16), HexDigitOf(c as int % 16)]
  {
  }

  /** One character of a string, escaped if need be. */
  method PutChar(out: array<char>, p: nat, c: char) returns (q: nat)
    requires p + |EscapeChar(c)| < out.Length
    modifies out
    ensures q == p + |EscapeChar(c)| && out[..q] == old(out[..p]) + EscapeChar(c)
  {
    EscapeIs(c);
    hide EscapeChar;
    if c as int > 31 && c != '\"' && c != '\\' {
      out[p] := c;
      return p + 1;
    }
    out[p] := '\\';
    if c == '\\' || c == '\"' { out[p + 1] := c; }
    else if c == BACKSPACE { out[p + 1] := 'b'; }
    else if c == FORMFEED { out[p + 1] := 'f'; }
    else if c == '\n' { out[p + 1] := 'n'; }
    else if c == '\r' { out[p + 1] := 'r'; }
    else if c == '\t' { out[p + 1] := 't'; }
    else {
      PutControl(out, p + 1, c);
      return p + 6;
    }
    q := p + 2;
    assert out[p + 1] == Letter(c);
    assert out[..q] == out[..p] + ['\\', out[p + 1]];
  }

  /** sprintf(ptr2, "u%04x", token) */
  method PutControl(out: array<char>, p: nat, c: char)
    requires p + 5 < out.Length && c as int < 32
    modifies out
    ensures out[..p + 5] == old(out[..p]) + ['u', '0', '0', HexDigitOf(c as int / 16), HexDigitOf(c as int % 16)]
    ensures p > 0 ==> out[p - 1] == old(out[p - 1])
  {
    out[p], out[p + 1], out[p + 2] := 'u', '0', '0';
    out[p + 3], out[p + 4] := HexDigitOf(c as int / 16), HexDigitOf(c as int % 16);
    assert out[..p + 5] == out[..p] + out[p..p + 5];
  }

  // ---------------------------------------------------------------- values

  /** print_value */
  method PrintValue(item: Node, depth: nat, fmt: bool, ghost v: Value) returns (text: string)
    requires item.Valid() && item.Shows(v) && Printable(v)
    ensures text == Print(v, depth, fmt)
    decreases v, 2
  {
    match item.kind
    case NullNode => text := "null";
    case FalseNode => text := "false";
    case TrueNode => text := "true";
    case NumberNode => text := IntText(item.mantissa);
    case StringNode => text := PrintStringPtr(item.valuestring);
    case ArrayNode => text := PrintArray(item, depth, fmt, v);
    case ObjectNode => text := PrintObject(item, depth, fmt, v);
  }

  /** What print_array adds up for its entries, on top of the initial 5. */
  function ItemsRoom(items: seq<Value>, depth: nat, fmt: bool): nat {
    if items == [] then 0
    else |Print(items[0], depth, fmt)| + 2 + (if fmt then 1 else 0) + ItemsRoom(items[1..], depth, fmt)
  }

  /** The length print_array computes covers what it writes. */
  lemma {:induction false} ItemsFit(items: seq<Value>, depth: nat, fmt: bool)
    ensures |PrintItems(items, depth, fmt)| <= ItemsRoom(items, depth, fmt)
  {
    if items != [] { ItemsFit(items[1..], depth, fmt); }
  }

  /** print_array: the texts of the entries, then the buffer, then the copies. */
  method PrintArray(item: Node, depth: nat, fmt: bool, ghost v: Value) returns (text: string)
    requires item.Valid() && item.Shows(v) && v.Array? && Printable(v)
    ensures text == Print(v, depth, fmt)
    decreases v, 1
  {
    var numentries := GetArraySize(item);
    var entries := new string[numentries];
    var len := MeasureItems(item, depth + 1, fmt, v.items, entries);
    text := ComposeArray(entries, len, fmt, v.items, depth + 1);
  }

  lemma ItemsStep(items: seq<Value>, i: nat, depth: nat, fmt: bool)
    requires i < |items|
    ensures PrintItems(items[i..], depth, fmt)
         == Print(items[i], depth, fmt) + Separator(i + 1 == |items|, fmt) + PrintItems(items[i + 1..], depth, fmt)
    ensures ItemsRoom(items[i..], depth, fmt)
         == |Print(items[i], depth, fmt)| + 2 + (if fmt then 1 else 0) + ItemsRoom(items[i + 1..], depth, fmt)
  {
    hide Print;
    assert items[i..][1..] == items[i + 1..];
  }

  function Separator(last: bool, fmt: bool): (s: string)
    ensures |s| <= 1 + (if fmt then 1 else 0)
  {
    if last then "" else if fmt then ", " else ","
  }

  /** The i-th node of an array's chain. */
  lemma ItemNode(item: Node, items: seq<Value>, i: nat)
    requires item.Valid() && item.Shows(Array(items)) && i <= |items|
    ensures |item.kids| == |items|
    ensures i < |items| ==> item.kids[i].Valid() && item.kids[i].Shows(items[i]) && items[i] in items
    ensures i < |items| ==> item.kids[i].next == if i + 1 == |items| then null else item.kids[i + 1]
    ensures item.child == if items == [] then null else item.kids[0]
  {
  }

  /** Collects the printed entries and adds up the length of the buffer. */
  method MeasureItems(item: Node, depth: nat, fmt: bool, ghost items: seq<Value>, entries: array<string>) returns (len: nat)
    requires item.Valid() && item.Shows(Array(items)) && forall x :: x in items ==> Printable(x)
    requires entries.Length == |items|
    modifies entries
    ensures forall j :: 0 <= j < |items| ==> entries[j] == Print(items[j], depth, fmt)
    ensures len == 5 + ItemsRoom(items, depth, fmt)
    decreases items, 3
  {
    hide Print, ItemsRoom, Printable, Node.Valid, Node.Shows;
    len := 5;
    var child, i := item.child, 0;
    ItemNode(item, items, 0);
    ghost var rest := ItemsRoom(items, depth, fmt);
    assert items[0..] == items;
    while child != null
      invariant 0 <= i <= |items| == |item.kids| && child == if i == |items| then null else item.kids[i]
      invariant forall j :: 0 <= j < i ==> entries[j] == Print(items[j], depth, fmt)
      invariant rest == ItemsRoom(items[i..], depth, fmt) && len + rest == 5 + ItemsRoom(items, depth, fmt)
      decreases |items| - i
    {
      ItemNode(item, items, i);
      ItemsStep(items, i, depth, fmt);
      var ret := PrintValue(child, depth, fmt, items[i]);
      entries[i] := ret;
      len := len + |ret| + 2 + (if fmt then 1 else 0);
      child, i := child.next, i + 1;
      rest := ItemsRoom(items[i..], depth, fmt);
    }
    assert items[i..] == [];
    NoRoom(depth, fmt);
  }

  lemma NoRoom(depth: nat, fmt: bool)
    ensures ItemsRoom([], depth, fmt) == 0 && MembersRoom([], depth, fmt) == 0
    ensures PrintItems([], depth, fmt) == "" && PrintMembers([], depth, fmt) == ""
  {
  }

  method PutItem(out: array<char>, p: nat, entry: string, last: bool, fmt: bool) returns (q: nat)
    requires p + |entry| + 2 < out.Length
    modifies out
    ensures q == p + |entry| + |Separator(last, fmt)| && out[..q] == old(out[..p]) + (entry + Separator(last, fmt))
  {
    q := Put(out, p, entry);
    q := Put(out, q, Separator(last, fmt));
  }

  /** The second half of print_array: no store leaves the measured buffer. */
  method ComposeArray(entries: array<string>, len: nat, fmt: bool, ghost items: seq<Value>, ghost depth: nat) returns (text: string)
    requires entries.Length == |items| && len == 5 + ItemsRoom(items, depth, fmt)
    requires forall j :: 0 <= j < |items| ==> entries[j] == Print(items[j], depth, fmt)
    ensures text == "[" + PrintItems(items, depth, fmt) + "]"
  {
    var out := new char[len];
    out[0] := '[';
    var p: nat, i: nat := 1, 0;
    assert out[..1] == "[" && items[0..] == items;
    ghost var all := PrintItems(items, depth, fmt);
    ghost var rest := all;
    ghost var room: nat := ItemsRoom(items, depth, fmt);
    hide Print, PrintItems, ItemsRoom, Separator;
    while i < entries.Length
      invariant 0 <= i <= |items| && 0 <= room && p + 3 + room <= len
      invariant rest == PrintItems(items[i..], depth, fmt) && room == ItemsRoom(items[i..], depth, fmt)
      invariant out[..p] + rest == "[" + all
      modifies out
    {
      hide *;
      ItemsStep(items, i, depth, fmt);
      ghost var before, after := out[..p], PrintItems(items[i + 1..], depth, fmt);
      p := PutItem(out, p, entries[i], i + 1 == entries.Length, fmt);
      Regroup(before, entries[i] + Separator(i + 1 == |items|, fmt), after);
      i, rest := i + 1, after;
      room := ItemsRoom(items[i..], depth, fmt);
    }
    NoRoom(depth, fmt);
    assert items[i..] == [] && out[..p] + "" == out[..p];
    p := Put(out, p, "]");
    text := out[..p];
  }

  // ---------------------------------------------------------------- objects

  /** What print_object adds up for its members, on top of the initial 7 and the closing indent. */
  function MembersRoom(members: seq<Member>, depth: nat, fmt: bool): nat {
    if members == [] then 0 else MemberRoom(members[0], depth, fmt) + MembersRoom(members[1..], depth, fmt)
  }

  function MemberRoom(m: Member, depth: nat, fmt: bool): nat {
    |Print(m.value, depth, fmt)| + |Quote(m.name)| + 2 + (if fmt then 2 + depth else 0)
  }

  /** The length print_object computes covers what it writes. */
  lemma {:induction false} MembersFit(members: seq<Member>, depth: nat, fmt: bool)
    ensures |PrintMembers(members, depth, fmt)| <= MembersRoom(members, depth, fmt)
  {
    if members != [] { MembersFit(members[1..], depth, fmt); }
  }

  lemma MembersStep(members: seq<Member>, i: nat, depth: nat, fmt: bool)
    requires i < |members|
    ensures PrintMembers(members[i..], depth, fmt)
         == PrintMember(members[i], i + 1 == |members|, depth, fmt) + PrintMembers(members[i + 1..], depth, fmt)
    ensures MembersRoom(members[i..], depth, fmt) == MemberRoom(members[i], depth, fmt) + MembersRoom(members[i + 1..], depth, fmt)
  {
    hide Print, MemberRoom, PrintMember;
    assert members[i..][1..] == members[i + 1..];
  }

  lemma MemberNode(item: Node, members: seq<Member>, i: nat)
    requires item.Valid() && item.Shows(Object(members)) && i <= |members|
    ensures |item.kids| == |members|
    ensures i < |members| ==> item.kids[i].Valid() && item.kids[i].Shows(members[i].value) && members[i] in members
    ensures i < |members| ==> item.kids[i].name == Some(members[i].name)
    ensures i < |members| ==> item.kids[i].next == if i + 1 == |members| then null else item.kids[i + 1]
    ensures item.child == if members == [] then null else item.kids[0]
  {
  }

  lemma ObjectParts(item: Node, v: Value, depth: nat, fmt: bool)
    requires item.Valid() && item.Shows(v) && v.Object? && Printable(v)
    ensures !item.isReference && |item.kids| == |v.members|
    ensures forall m: Member :: m in v.members ==> NUL !in m.name && Printable(m.value)
    ensures Print(v, depth, fmt) == "{" + (if fmt then "\n" else "") + PrintMembers(v.members, depth + 1, fmt)
                                    + (if fmt then Tabs(depth) else "") + "}"
  {
  }

  /** print_object */
  method PrintObject(item: Node, depth: nat, fmt: bool, ghost v: Value) returns (text: string)
    requires item.Valid() && item.Shows(v) && v.Object? && Printable(v)
    ensures text == Print(v, depth, fmt)
    decreases v, 1
  {
    hide Node.Valid, Node.Shows, Printable, PrintMembers, MembersRoom, HoldMembers;
    ObjectParts(item, v, depth, fmt);
    var numentries := GetArraySize(item);
    var names, entries := new string[numentries], new string[numentries];
    var len := MeasureMembers(item, depth + 1, fmt, v.members, names, entries);
    text := ComposeObject(names, entries, len, fmt, v.members, depth + 1);
  }

  /** Names and entries hold the two halves of each printed member. */
  ghost predicate HoldMembers(names: array<string>, entries: array<string>, n: nat, members: seq<Member>, depth: nat, fmt: bool)
    reads names, entries
  {
    && names.Length == entries.Length == |members| && n <= |members|
    && forall j :: 0 <= j < n ==> names[j] == Quote(members[j].name) && entries[j] == Print(members[j].value, depth, fmt)
  }

  method MeasureMembers(item: Node, depth: nat, fmt: bool, ghost members: seq<Member>, names: array<string>, entries: array<string>)
    returns (len: nat)
    requires item.Valid() && item.Shows(Object(members))
    requires forall m: Member :: m in members ==> NUL !in m.name && Printable(m.value)
    requires names.Length == entries.Length == |members| && names != entries
    modifies names, entries
    ensures HoldMembers(names, entries, |members|, members, depth, fmt)
    ensures len == 7 + (if fmt then depth else 0) + MembersRoom(members, depth, fmt)
    decreases members, 3
  {
    hide Print, Quote, MembersRoom, MemberRoom, Node.Valid, Node.Shows, Printable;
    len := 7 + (if fmt then depth else 0);
    var child, i := item.child, 0;
    MemberNode(item, members, 0);
    ghost var total := len + MembersRoom(members, depth, fmt);
    assert members[0..] == members;
    while child != null
      invariant 0 <= i <= |members| == |item.kids| && child == if i == |members| then null else item.kids[i]
      invariant HoldMembers(names, entries, i, members, depth, fmt)
      invariant len + MembersRoom(members[i..], depth, fmt) == total
      decreases |members| - i
    {
      MemberNode(item, members, i);
      MembersStep(members, i, depth, fmt);
      var n := MeasureMember(child, depth, fmt, members, i, names, entries);
      len := len + n;
      child, i := child.next, i + 1;
    }
    assert members[i..] == [];
    NoRoom(depth, fmt);
  }

  /** Prints one member into its two slots and returns the room it needs. */
  method MeasureMember(child: Node, depth: nat, fmt: bool, ghost members: seq<Member>, i: nat, names: array<string>, entries: array<string>)
    returns (n: nat)
    requires i < |members| && HoldMembers(names, entries, i, members, depth, fmt) && names != entries
    requires child.Valid() && child.name == Some(members[i].name) && child.Shows(members[i].value)
    requires NUL !in members[i].name && Printable(members[i].value)
    modifies names, entries
    ensures HoldMembers(names, entries, i + 1, members, depth, fmt) && n == MemberRoom(members[i], depth, fmt)
    decreases members[i], 4
  {
    hide Print, Quote;
    var str := PrintStringPtr(child.name);
    var ret := PrintValue(child, depth, fmt, members[i].value);
    names[i] := str;
    entries[i] := ret;
    n := |ret| + |str| + 2 + (if fmt then 2 + depth else 0);
  }

  /** One member, as print_object writes it. */
  method PutMember(out: array<char>, p: nat, name: string, entry: string, last: bool, depth: nat, fmt: bool, ghost m: Member) returns (q: nat)
    requires name == Quote(m.name) && entry == Print(m.value, depth, fmt)
    requires p + MemberRoom(m, depth, fmt) < out.Length
    modifies out
    ensures q <= p + MemberRoom(m, depth, fmt) && out[..q] == old(out[..p]) + PrintMember(m, last, depth, fmt)
  {
    hide Print, Quote, Tabs;
    ghost var before := out[..p];
    q := PutName(out, p, name, depth, fmt);
    ghost var head := Head(name, depth, fmt);
    q := Put(out, q, entry);
    var tail := Tail(last, fmt);
    q := Put(out, q, tail);
    hide *;
    assert out[..q] == before + head + entry + tail;
    MemberParts(m, last, depth, fmt);
    assert before + head + entry + tail == before + (head + entry + tail);
  }

  function Head(name: string, depth: nat, fmt: bool): (s: string)
    ensures |s| == |name| + 1 + (if fmt then depth + 1 else 0)
  {
    (if fmt then Tabs(depth) else "") + name + (if fmt then ":\t" else ":")
  }

  function Tail(last: bool, fmt: bool): (s: string)
    ensures |s| <= 1 + (if fmt then 1 else 0)
  {
    (if last then "" else ",") + (if fmt then "\n" else "")
  }

  lemma MemberParts(m: Member, last: bool, depth: nat, fmt: bool)
    ensures PrintMember(m, last, depth, fmt) == Head(Quote(m.name), depth, fmt) + Print(m.value, depth, fmt) + Tail(last, fmt)
  {
    hide Print, Quote, Tabs;
  }

  /** The indent, the name and the colon. */
  method PutName(out: array<char>, p: nat, name: string, depth: nat, fmt: bool) returns (q: nat)
    requires p + |Head(name, depth, fmt)| < out.Length
    modifies out
    ensures q == p + |Head(name, depth, fmt)| && out[..q] == old(out[..p]) + Head(name, depth, fmt)
  {
    hide Tabs;
    q := p;
    if fmt { q := PutTabs(out, q, depth); }
    q := Put(out, q, name);
    q := Put(out, q, if fmt then ":\t" else ":");
  }

  /** The loop of print_object that writes the members. */
  method PutMembers(out: array<char>, p: nat, names: array<string>, entries: array<string>, fmt: bool, ghost members: seq<Member>, depth: nat)
    returns (q: nat)
    requires HoldMembers(names, entries, |members|, members, depth, fmt)
    requires p + MembersRoom(members, depth, fmt) < out.Length
    modifies out
    ensures q <= p + MembersRoom(members, depth, fmt)
    ensures out[..q] == old(out[..p]) + PrintMembers(members, depth, fmt)
  {
    hide Print, Quote, PrintMembers, PrintMember, MembersRoom, MemberRoom;
    q := p;
    ghost var limit := p + MembersRoom(members, depth, fmt);
    assert members[0..] == members;
    var i := 0;
    while i < entries.Length
      invariant 0 <= i <= |members| && q + MembersRoom(members[i..], depth, fmt) <= limit
      invariant out[..q] + PrintMembers(members[i..], depth, fmt) == old(out[..p]) + PrintMembers(members, depth, fmt)
      modifies out
    {
      hide *;
      MembersStep(members, i, depth, fmt);
      ghost var before := out[..q];
      q := PutMember(out, q, names[i], entries[i], i + 1 == entries.Length, depth, fmt, members[i]);
      Regroup(before, PrintMember(members[i], i + 1 == |members|, depth, fmt), PrintMembers(members[i + 1..], depth, fmt));
      i := i + 1;
    }
    NoRoom(depth, fmt);
    assert members[i..] == [] && out[..q] + "" == out[..q];
  }

  /** The second half of print_object: no store leaves the measured buffer. */
  method ComposeObject(names: array<string>, entries: array<string>, len: nat, fmt: bool, ghost members: seq<Member>, depth: nat)
    returns (text: string)
    requires depth > 0 && HoldMembers(names, entries, |members|, members, depth, fmt)
    requires len == 7 + (if fmt then depth else 0) + MembersRoom(members, depth, fmt)
    ensures text == "{" + (if fmt then "\n" else "") + PrintMembers(members, depth, fmt)
                    + (if fmt then Tabs(depth - 1) else "") + "}"
  {
    hide HoldMembers, PrintMembers, MembersRoom, Tabs;
    var out := new char[len];
    var start := "{" + (if fmt then "\n" else "");
    assert out[..0] == "" && "" + start == start;
    var p := Put(out, 0, start);
    p := PutMembers(out, p, names, entries, fmt, members, depth);
    p := PutBrace(out, p, depth - 1, fmt);
    text := out[..p];
  }

  /** The closing brace, on a line of its own when formatted. */
  method PutBrace(out: array<char>, p: nat, depth: nat, fmt: bool) returns (q: nat)
    requires p + (if fmt then depth else 0) + 1 < out.Length
    modifies out
    ensures q <= out.Length && out[..q] == old(out[..p]) + (if fmt then Tabs(depth) else "") + "}"
  {
    q := p;
    if fmt { q := PutTabs(out, q, depth); }
    q := Put(out, q, "}");
  }

  /** cJSON_Print and cJSON_PrintUnformatted */
  method PrintTree(item: Node, fmt: bool, ghost v: Value) returns (text: string)
    requires item.Valid() && item.Shows(v) && Printable(v)
    ensures text == Print(v, 0, fmt)
  {
    text := PrintValue(item, 0, fmt, v);
  }
}
