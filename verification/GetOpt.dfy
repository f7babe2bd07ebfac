/** getopt32: the table of options, the conditions of opt_complementary, and the flags a command line ends with. */
module GetOpt {
  import opened Json
  import opened Bits
  import opened Sequences

  datatype Param = StringParam | ListParam | IntParam

  /** One row of the table: masks of the options to set, to clear, to refuse together with, and to ask for. */
  datatype Row = Row(letter: char, param: Param, switchOn: bv32, switchOff: bv32, incongruously: bv32, needs: bv32,
                     takesArg: bool, counts: bool)

  type Table = seq<Row>

  /** What the two strings say, and the flags that are set from the start. */
  datatype Config = Config(table: Table, needsOne: bv32, flags: bv32, showUsage: bool, allAreOptions: bool, firstIsOption: bool,
                           minArgs: int, maxArgs: int)

  function At(s: string, i: nat): char {
    if i < |s| then s[i] else NUL
  }

  /** The first row of the letter, or the number of rows. */
  function IndexOf(table: Table, c: char): (k: nat)
    ensures k <= |table| && (k < |table| ==> table[k].letter == c)
    ensures forall i :: 0 <= i < k ==> table[i].letter != c
  {
    if table == [] || table[0].letter == c then 0 else 1 + IndexOf(table[1..], c)
  }

  method Search(table: Table, c: char) returns (k: nat)
    ensures k == IndexOf(table, c)
  {
    k := 0;
    while k < |table| && table[k].letter != c
      invariant 0 <= k <= |table| && IndexOf(table, c) == k + IndexOf(table[k..], c)
    {
      assert table[k..][1..] == table[k + 1..];
      k := k + 1;
    }
  }

  // ---------------------------------------------------------------- the option letters

  function NewRow(c: char, n: nat, arg: bool): Row
    requires n < 32
  {
    Row(c, StringParam, Bit(n), 0, 0, 0, arg, false)
  }

  /** The place after the colons at i. */
  function AfterColons(s: string, i: nat): (j: nat)
    requires i <= |s|
    ensures i <= j <= |s|
    decreases |s| - i
  {
    if At(s, i) == ':' then AfterColons(s, i + 1) else i
  }

  /** The rows of the letters from i on; letters after the thirty-second are dropped. */
  function Rows(s: string, i: nat, n: nat): (rows: Table)
    requires i <= |s| && n <= 32
    ensures n + |rows| <= 32
    decreases |s| - i
  {
    if At(s, i) == NUL || n == 32 then []
    else [NewRow(s[i], n, At(s, i + 1) == ':')] + Rows(s, AfterColons(s, i + 1), n + 1)
  }

  function FirstLetter(s: string): nat {
    var i := if At(s, 0) == '!' then 1 else 0;
    if At(s, i) == '+' || At(s, i) == '-' then i + 1 else i
  }

  method BuildTable(opts: string) returns (table: Table)
    ensures FirstLetter(opts) <= |opts| && table == Rows(opts, FirstLetter(opts), 0)
  {
    var i, c := FirstLetter(opts), 0;
    table := [];
    assert i <= |opts|;
    hide FirstLetter, Rows, AfterColons, Bit;
    assert table + Rows(opts, i, c) == Rows(opts, i, c);
    while At(opts, i) != NUL && c < 32
      invariant 0 <= i <= |opts| && c == |table| <= 32
      invariant table + Rows(opts, i, c) == Rows(opts, FirstLetter(opts), 0)
      decreases |opts| - i
    {
      RowsOn(opts, i, c, table);
      var row := NewRow(opts[i], c, false);
      i := i + 1;
      if At(opts, i) == ':' { row := row.(takesArg := true); }
      i := SkipColons(opts, i);
      table := table + [row];
      c := c + 1;
    }
    NoRows(opts, i, c);
    assert table + [] == table;
  }

  method SkipColons(opts: string, start: nat) returns (i: nat)
    requires start <= |opts|
    ensures i == AfterColons(opts, start)
  {
    i := start;
    while At(opts, i) == ':'
      invariant start <= i <= |opts| && AfterColons(opts, i) == AfterColons(opts, start)
      decreases |opts| - i
    {
      i := i + 1;
    }
  }

  lemma RowsStep(s: string, i: nat, n: nat)
    requires i < |s| && s[i] != NUL && n < 32
    ensures Rows(s, i, n) == [NewRow(s[i], n, false).(takesArg := At(s, i + 1) == ':')] + Rows(s, AfterColons(s, i + 1), n + 1)
  {
    hide Bit, AfterColons;
  }

  lemma RowsOn(s: string, i: nat, n: nat, before: Table)
    requires i < |s| && s[i] != NUL && n < 32
    ensures before + Rows(s, i, n)
         == before + [NewRow(s[i], n, false).(takesArg := At(s, i + 1) == ':')] + Rows(s, AfterColons(s, i + 1), n + 1)
  {
    hide *;
    RowsStep(s, i, n);
    Regroup(before, [NewRow(s[i], n, false).(takesArg := At(s, i + 1) == ':')], Rows(s, AfterColons(s, i + 1), n + 1));
  }

  lemma NoRows(s: string, i: nat, n: nat)
    requires i <= |s| && n <= 32 && (At(s, i) == NUL || n == 32)
    ensures Rows(s, i, n) == []
  {
  }

  // ---------------------------------------------------------------- the conditions

  datatype Column = OnColumn | OffColumn | ExclusionColumn | NeedColumn

  function OrInto(row: Row, column: Column, mask: bv32): Row {
    match column
    case OnColumn => row.(switchOn := Or(row.switchOn, mask))
    case OffColumn => row.(switchOff := Or(row.switchOff, mask))
    case ExclusionColumn => row.(incongruously := Or(row.incongruously, mask))
    case NeedColumn => row.(needs := Or(row.needs, mask))
  }

  /** The rest of a group, from i on, for row k: letters go into the column that the last dashes or question mark chose. */
  function Pairs(s: string, i: nat, table: Table, k: nat, column: Column): (r: (Table, nat))
    requires i <= |s| && k < |table|
    ensures |r.0| == |table| && i <= r.1 <= |s|
    decreases |s| - i
  {
    var c := At(s, i);
    if c == NUL || c == ':' then (table, i)
    else if c == '?' then Pairs(s, i + 1, table, k, NeedColumn)
    else if c == '-' then Pairs(s, i + 1, table, k, if column == OffColumn then ExclusionColumn else OffColumn)
    else
      var o := IndexOf(table, c);
      var next := if o < |table| then table[k := OrInto(table[k], column, table[o].switchOn)] else table;
      Pairs(s, i + 1, next, k, column)
  }

  /** c - '0' */
  function Digit(c: char): int {
    c as int - '0' as int
  }

  /** A group that starts with a question mark, a dash or an equal sign: what it says and where reading goes on. */
  function Special(s: string, i: nat, g: Config): (r: (Config, nat))
    requires i < |s| && (s[i] == '?' || s[i] == '-' || (s[i] == '=' && At(s, i + 1) != NUL))
    ensures i < r.1 <= |s| && r.0.table == g.table
  {
    var x, c := s[i], At(s, i + 1);
    if x == '=' then (g.(minArgs := Digit(c), maxArgs := Digit(c)), i + 2)
    else if x == '?' then if IsDigit(c) then (g.(maxArgs := Digit(c)), i + 2) else (g.(showUsage := true), i + 1)
    else if IsDigit(c) then (g.(minArgs := Digit(c)), i + 2)
    else if c == '-' then (g.(firstIsOption := true), i + 2)
    else (g.(allAreOptions := true), i + 1)
  }

  predicate SameLetters(t: Table, u: Table) {
    |t| == |u| && forall i :: 0 <= i < |t| ==> t[i].letter == u[i].letter
  }

  function SetParam(g: Config, k: nat, param: Param): (h: Config)
    requires k < |g.table|
    ensures SameLetters(g.table, h.table)
  {
    g.(table := g.table[k := g.table[k].(param := param)])
  }

  function SetNeeded(g: Config, k: nat): (h: Config)
    requires k < |g.table|
    ensures SameLetters(g.table, h.table)
  {
    g.(needsOne := Or(g.needsOne, g.table[k].switchOn))
  }

  /** An option that only asks for the usage text: its flag is set from the start, so that giving it is an error. */
  function SetUsage(g: Config, k: nat): (h: Config)
    requires k < |g.table|
    ensures SameLetters(g.table, h.table)
  {
    var row := g.table[k];
    g.(flags := Or(g.flags, row.switchOn), table := g.table[k := OrInto(row, ExclusionColumn, row.switchOn)])
  }

  function SetCounts(g: Config, k: nat): (h: Config)
    requires k < |g.table|
    ensures SameLetters(g.table, h.table)
  {
    g.(table := g.table[k := g.table[k].(counts := true)])
  }

  /** A group that starts with the letter of row k. */
  function Group(s: string, i: nat, g: Config, k: nat): (r: (Config, nat))
    requires i < |s| && s[i] != NUL && k < |g.table|
    ensures i < r.1 <= |s| && |r.0.table| == |g.table|
  {
    var c, d := At(s, i + 1), At(s, i + 2);
    if c == ':' && d == ':' then (SetParam(g, k, ListParam), i + 1)
    else if c == '+' && (d == ':' || d == NUL) then (SetParam(g, k, IntParam), i + 2)
    else if c == ':' || c == NUL then (SetNeeded(g, k), i + 1)
    else if c == '-' && (d == ':' || d == NUL) then (SetUsage(g, k), i + 2)
    else if c == s[i] then PairsInto(s, i + 2, SetCounts(g, k), k)
    else PairsInto(s, i + 1, g, k)
  }

  function PairsInto(s: string, i: nat, g: Config, k: nat): (r: (Config, nat))
    requires i <= |s| && k < |g.table|
    ensures i <= r.1 <= |s| && |r.0.table| == |g.table|
  {
    var (table, j) := Pairs(s, i, g.table, k, OnColumn);
    (g.(table := table), j)
  }

  /** The conditions from i on; None when a group starts with an unknown letter, which ends the program. */
  function Conditions(s: string, i: nat, g: Config): (r: Option<Config>)
    requires i <= |s|
    ensures r.Some? ==> |r.value.table| == |g.table|
    decreases |s| - i
  {
    if At(s, i) == NUL then Some(g)
    else if s[i] == ':' then Conditions(s, i + 1, g)
    else if s[i] == '=' && At(s, i + 1) == NUL then
      // an equal sign that ends the string is read past; it has no meaning here
      None
    else if s[i] == '?' || s[i] == '-' || s[i] == '=' then
      var (h, j) := Special(s, i, g);
      Conditions(s, j, h)
    else
      var k := IndexOf(g.table, s[i]);
      if k == |g.table| then None
      else
        var (h, j) := Group(s, i, g, k);
        Conditions(s, j, h)
  }

  method ReadPairs(s: string, start: nat, g: Config, k: nat) returns (h: Config, i: nat)
    requires start <= |s| && k < |g.table|
    ensures (h, i) == PairsInto(s, start, g, k)
  {
    hide IndexOf;
    var table := g.table;
    i := start;
    var column := OnColumn;
    while At(s, i) != NUL && At(s, i) != ':'
      invariant start <= i <= |s| && |table| == |g.table|
      invariant Pairs(s, i, table, k, column) == Pairs(s, start, g.table, k, OnColumn)
      decreases |s| - i
    {
      if s[i] == '?' {
        column := NeedColumn;
      } else if s[i] == '-' {
        column := if column == OffColumn then ExclusionColumn else OffColumn;
      } else {
        var o := Search(table, s[i]);
        if o < |table| { table := table[k := OrInto(table[k], column, table[o].switchOn)]; }
      }
      i := i + 1;
    }
    h := g.(table := table);
  }

  method ReadGroup(s: string, i: nat, g: Config, k: nat) returns (h: Config, j: nat)
    requires i < |s| && s[i] != NUL && k < |g.table|
    ensures (h, j) == Group(s, i, g, k)
  {
    hide PairsInto, SetParam, SetNeeded, SetUsage, SetCounts;
    var c, d := At(s, i + 1), At(s, i + 2);
    if c == ':' && d == ':' {
      h, j := SetParam(g, k, ListParam), i + 1;
    } else if c == '+' && (d == ':' || d == NUL) {
      h, j := SetParam(g, k, IntParam), i + 2;
    } else if c == ':' || c == NUL {
      h, j := SetNeeded(g, k), i + 1;
    } else if c == '-' && (d == ':' || d == NUL) {
      h, j := SetUsage(g, k), i + 2;
    } else {
      h, j := g, i + 1;
      if c == s[i] {
        h, j := SetCounts(g, k), i + 2;
      }
      h, j := ReadPairs(s, j, h, k);
    }
  }

  /** The loop over opt_complementary. */
  method ReadConditions(s: string, start: Config) returns (r: Option<Config>)
    ensures r == Conditions(s, 0, start)
  {
    hide IndexOf, Group;
    var g, i := start, 0;
    while At(s, i) != NUL
      invariant 0 <= i <= |s| && Conditions(s, i, g) == Conditions(s, 0, start)
      decreases |s| - i
    {
      var x, c := s[i], At(s, i + 1);
      if x == ':' {
        i := i + 1;
      } else if x == '=' {
        if c == NUL { return None; }
        g, i := g.(minArgs := Digit(c), maxArgs := Digit(c)), i + 2;
      } else if (x == '?' || x == '-') && IsDigit(c) {
        g, i := if x == '?' then g.(maxArgs := Digit(c)) else g.(minArgs := Digit(c)), i + 2;
      } else if x == '-' && c == '-' {
        g, i := g.(firstIsOption := true), i + 2;
      } else if x == '?' || x == '-' {
        g, i := if x == '?' then g.(showUsage := true) else g.(allAreOptions := true), i + 1;
      } else {
        var k := Search(g.table, x);
        if k == |g.table| { return None; }
        g, i := ReadGroup(s, i, g, k);
      }
    }
    r := Some(g);
  }

  // ---------------------------------------------------------------- what the conditions declare

  /** A condition, as the documentation at the head of getopt32.c lists them. */
  datatype Rule =
    | Implies(a: char, others: string)
    | Counts(a: char, others: string)
    | TurnsOff(a: char, others: string)
    | Excludes(a: char, others: string)
    | AsksFor(a: char, others: string)
    | Required(a: char)
    | ForUsage(a: char)
    | IntArgument(a: char)
    | ListArgument(a: char)
    | AtLeast(digit: char)
    | AtMost(digit: char)
    | Exactly(digit: char)
    | AllOptions
    | FirstOption

  predicate IsLetter(c: char) {
    c != NUL && c != ':' && c != '?' && c != '-' && c != '=' && c != '+'
  }

  predicate Letters(s: string) {
    s != "" && forall c :: c in s ==> IsLetter(c)
  }

  predicate Known(a: char, table: Table)
    ensures Known(a, table) ==> IndexOf(table, a) < |table|
  {
    IndexOf(table, a) < |table| && IsLetter(a)
  }

  /** The rule is written with known letters only. */
  predicate WellFormed(r: Rule, table: Table) {
    match r
    case Implies(a, s) => Known(a, table) && Letters(s) && s[0] != a
    case Counts(a, s) => Known(a, table) && (s == "" || Letters(s))
    case TurnsOff(a, s) => Known(a, table) && Letters(s)
    case Excludes(a, s) => Known(a, table) && Letters(s)
    case AsksFor(a, s) => Known(a, table) && Letters(s)
    case Required(a) => Known(a, table)
    case ForUsage(a) => Known(a, table)
    case IntArgument(a) => Known(a, table)
    case ListArgument(a) => Known(a, table)
    case AtLeast(d) => IsDigit(d)
    case AtMost(d) => IsDigit(d)
    case Exactly(d) => IsDigit(d)
    case AllOptions => true
    case FirstOption => true
  }

  function RuleText(r: Rule): string {
    match r
    case Implies(a, s) => [a] + s
    case Counts(a, s) => [a, a] + s
    case TurnsOff(a, s) => [a, '-'] + s
    case Excludes(a, s) => [a, '-', '-'] + s
    case AsksFor(a, s) => [a, '?'] + s
    case Required(a) => [a]
    case ForUsage(a) => [a, '-']
    case IntArgument(a) => [a, '+']
    case ListArgument(a) => [a, ':', ':']
    case AtLeast(d) => ['-', d]
    case AtMost(d) => ['?', d]
    case Exactly(d) => ['=', d]
    case AllOptions => ['-']
    case FirstOption => ['-', '-']
  }

  function MaskOf(c: char, table: Table): bv32 {
    var k := IndexOf(table, c);
    if k < |table| then table[k].switchOn else 0
  }

  /** The masks of the known letters of s, or-ed together. */
  function Masks(s: string, table: Table): bv32 {
    if s == "" then 0
    else Or(MaskOf(s[0], table), Masks(s[1..], table))
  }

  function OrColumn(table: Table, k: nat, column: Column, mask: bv32): (t: Table)
    requires k < |table|
    ensures |t| == |table|
  {
    table[k := OrInto(table[k], column, mask)]
  }

  function SetColumn(g: Config, k: nat, column: Column, mask: bv32): (h: Config)
    requires k < |g.table|
    ensures SameLetters(g.table, h.table)
  {
    g.(table := OrColumn(g.table, k, column, mask))
  }

  /** What a rule adds to the configuration. */
  function Declare(g: Config, r: Rule): (h: Config)
    requires WellFormed(r, g.table)
    ensures |h.table| == |g.table|
  {
    match r
    case Implies(a, s) => SetColumn(g, IndexOf(g.table, a), OnColumn, Masks(s, g.table))
    case Counts(a, s) =>
      var k := IndexOf(g.table, a);
      SetColumn(SetCounts(g, k), k, OnColumn, Masks(s, g.table))
    case TurnsOff(a, s) => SetColumn(g, IndexOf(g.table, a), OffColumn, Masks(s, g.table))
    case Excludes(a, s) => SetColumn(g, IndexOf(g.table, a), ExclusionColumn, Masks(s, g.table))
    case AsksFor(a, s) => SetColumn(g, IndexOf(g.table, a), NeedColumn, Masks(s, g.table))
    case Required(a) => SetNeeded(g, IndexOf(g.table, a))
    case ForUsage(a) => SetUsage(g, IndexOf(g.table, a))
    case IntArgument(a) => SetParam(g, IndexOf(g.table, a), IntParam)
    case ListArgument(a) => SetParam(g, IndexOf(g.table, a), ListParam)
    case AtLeast(d) => g.(minArgs := Digit(d))
    case AtMost(d) => g.(maxArgs := Digit(d))
    case Exactly(d) => g.(minArgs := Digit(d), maxArgs := Digit(d))
    case AllOptions => g.(allAreOptions := true)
    case FirstOption => g.(firstIsOption := true)
  }

  /** Rules separated by colons. */
  function RulesText(rules: seq<Rule>): string {
    if rules == [] then ""
    else if |rules| == 1 then RuleText(rules[0])
    else RuleText(rules[0]) + ":" + RulesText(rules[1..])
  }

  predicate AllWellFormed(rules: seq<Rule>, table: Table) {
    forall r :: r in rules ==> WellFormed(r, table)
  }

  lemma {:induction false} SameIndex(t: Table, u: Table, c: char)
    requires SameLetters(t, u)
    ensures IndexOf(t, c) == IndexOf(u, c)
  {
    if t != [] { SameIndex(t[1..], u[1..], c); }
  }

  lemma SameWellFormed(r: Rule, t: Table, u: Table)
    requires SameLetters(t, u) && WellFormed(r, t)
    ensures WellFormed(r, u)
  {
    hide IndexOf;
    forall c ensures IndexOf(t, c) == IndexOf(u, c) { SameIndex(t, u, c); }
  }

  lemma DeclareLetters(g: Config, r: Rule)
    requires WellFormed(r, g.table)
    ensures SameLetters(g.table, Declare(g, r).table)
  {
    hide IndexOf, Masks, SetParam, SetNeeded, SetUsage, SetColumn, SetCounts;
  }

  function DeclareAll(g: Config, rules: seq<Rule>): Config
    requires AllWellFormed(rules, g.table)
    decreases |rules|
  {
    if rules == [] then g
    else
      DeclareLetters(g, rules[0]);
      var h := Declare(g, rules[0]);
      assert AllWellFormed(rules[1..], h.table) by {
        forall r | r in rules[1..] ensures WellFormed(r, h.table) { SameWellFormed(r, g.table, h.table); }
      }
      DeclareAll(h, rules[1..])
  }

  /** The masks of more letters, when row k has had a mask or-ed in. */
  lemma {:induction false} MasksAfter(s: string, table: Table, k: nat, column: Column, mask: bv32)
    requires k < |table|
    ensures column != OnColumn ==> Masks(s, OrColumn(table, k, column, mask)) == Masks(s, table)
    ensures column == OnColumn ==>
              SameOver(Or(table[k].switchOn, mask), Masks(s, OrColumn(table, k, column, mask)), Masks(s, table))
  {
    hide Or, IndexOf;
    var after := OrColumn(table, k, column, mask);
    if s == "" {
      hide SameOver;
      SameOverRefl(Or(table[k].switchOn, mask), 0);
    } else {
      hide SameOver;
      SameIndex(table, after, s[0]);
      MasksAfter(s[1..], table, k, column, mask);
      SameOverOwn(table[k].switchOn, mask);
      SameOverRefl(Or(table[k].switchOn, mask), MaskOf(s[0], table));
      SameOverOr(Or(table[k].switchOn, mask), MaskOf(s[0], after), MaskOf(s[0], table), Masks(s[1..], after), Masks(s[1..], table));
    }
  }

  lemma OrTwice(table: Table, k: nat, column: Column, a: bv32, b: bv32, c: bv32)
    requires k < |table|
    requires if column == OnColumn then SameOver(Or(table[k].switchOn, a), b, c) else b == c
    ensures OrColumn(OrColumn(table, k, column, a), k, column, b) == OrColumn(table, k, column, Or(a, c))
  {
    hide Or;
    var row := table[k];
    OrLaws(row.switchOn, a, c);
    OrLaws(row.switchOff, a, c);
    OrLaws(row.incongruously, a, c);
    OrLaws(row.needs, a, c);
  }

  lemma OrNothing(table: Table, k: nat, column: Column)
    requires k < |table|
    ensures OrColumn(table, k, column, 0) == table
  {
    hide Or;
    OrLaws(table[k].switchOn, 0, 0);
    OrLaws(table[k].switchOff, 0, 0);
    OrLaws(table[k].incongruously, 0, 0);
    OrLaws(table[k].needs, 0, 0);
  }

  lemma PairsEnd(text: string, i: nat, table: Table, k: nat, column: Column)
    requires k < |table| && i <= |text| && (At(text, i) == NUL || At(text, i) == ':')
    ensures Pairs(text, i, table, k, column) == (OrColumn(table, k, column, Masks("", table)), i)
  {
    hide Or, OrColumn;
    OrNothing(table, k, column);
  }

  lemma FirstLetterAt(text: string, i: nat, s: string)
    requires s != "" && i + |s| <= |text| && text[i..i + |s|] == s && forall c :: c in s ==> IsLetter(c)
    ensures text[i] == s[0] && IsLetter(s[0])
    ensures text[i + 1..i + |s|] == s[1..] && forall c :: c in s[1..] ==> IsLetter(c)
  {
    hide IsLetter;
    assert text[i] == text[i..i + |s|][0];
    assert text[i + 1..i + |s|] == text[i..i + |s|][1..];
  }

  lemma MasksStep(s: string, table: Table)
    requires s != ""
    ensures Masks(s, table) == Or(MaskOf(s[0], table), Masks(s[1..], table))
  {
    hide Or, MaskOf;
  }

  /** Letters up to the end of their group. */
  lemma {:induction false} PairsRead(text: string, i: nat, s: string, table: Table, k: nat, column: Column)
    requires k < |table| && i + |s| <= |text| && text[i..i + |s|] == s && forall c :: c in s ==> IsLetter(c)
    requires At(text, i + |s|) == NUL || At(text, i + |s|) == ':'
    ensures Pairs(text, i, table, k, column) == (OrColumn(table, k, column, Masks(s, table)), i + |s|)
    decreases |s|
  {
    hide *;
    if s == "" {
      PairsEnd(text, i, table, k, column);
    } else {
      var rest, mask := s[1..], MaskOf(s[0], table);
      var next := OrColumn(table, k, column, mask);
      FirstLetterAt(text, i, s);
      LetterRead(text, i, table, k, column);
      PairsRead(text, i + 1, rest, next, k, column);
      MasksStep(s, table);
      MasksAfter(rest, table, k, column, mask);
      OrTwice(table, k, column, mask, Masks(rest, next), Masks(rest, table));
    }
  }

  lemma LetterRead(text: string, i: nat, table: Table, k: nat, column: Column)
    requires k < |table| && i < |text| && IsLetter(text[i])
    ensures Pairs(text, i, table, k, column) == Pairs(text, i + 1, OrColumn(table, k, column, MaskOf(text[i], table)), k, column)
  {
    hide Or, IndexOf;
    OrNothing(table, k, column);
  }

  /** t stands at i, and a colon that does not begin another, or the end of the text, follows it. */
  predicate StandsAt(text: string, i: nat, t: string)
    ensures StandsAt(text, i, t) ==> i + |t| <= |text|
  {
    && i + |t| <= |text| && text[i..i + |t|] == t
    && (At(text, i + |t|) == NUL || (At(text, i + |t|) == ':' && At(text, i + |t| + 1) != ':'))
  }

  lemma CharsAt(text: string, i: nat, t: string)
    requires StandsAt(text, i, t)
    ensures |t| > 0 ==> text[i] == t[0]
    ensures |t| > 1 ==> text[i + 1] == t[1]
    ensures |t| > 2 ==> text[i + 2] == t[2]
    ensures |t| > 3 ==> text[i + 3] == t[3]
  {
    forall j | 0 <= j < |t| ensures text[i + j] == t[j] { assert text[i..i + |t|][j] == text[i + j]; }
  }

  /** The letters after the first `skip` bytes of a group. */
  lemma TailAt(text: string, i: nat, t: string, skip: nat, s: string)
    requires StandsAt(text, i, t) && skip <= |t| && t[skip..] == s
    ensures i + skip + |s| == i + |t| && text[i + skip..i + |t|] == s
  {
    assert text[i + skip..i + |t|] == text[i..i + |t|][skip..];
  }

  /** A group of a known letter. */
  lemma GroupRead(text: string, i: nat, g: Config, k: nat)
    requires i < |text| && IsLetter(text[i]) && k == IndexOf(g.table, text[i]) < |g.table|
    ensures var (h, j) := Group(text, i, g, k); Conditions(text, i, g) == Conditions(text, j, h)
  {
    hide Group, IndexOf;
  }

  /** A group whose letters follow a dash or a question mark. */
  lemma MarkedGroup(text: string, i: nat, g: Config, k: nat)
    requires i + 2 < |text| && IsLetter(text[i]) && k == IndexOf(g.table, text[i]) < |g.table|
    requires text[i + 1] == '?' || (text[i + 1] == '-' && text[i + 2] != ':' && text[i + 2] != NUL)
    ensures var (h, j) := PairsInto(text, i + 1, g, k); Conditions(text, i, g) == Conditions(text, j, h)
  {
    hide IndexOf, PairsInto, Conditions;
    GroupRead(text, i, g, k);
  }

  /** Letters from j on, after the dashes or the question mark that chose the column. */
  lemma ColumnInto(text: string, i: nat, j: nat, s: string, g: Config, k: nat, column: Column)
    requires k < |g.table| && i <= j && j + |s| <= |text| && text[j..j + |s|] == s && forall c :: c in s ==> IsLetter(c)
    requires At(text, j + |s|) == NUL || At(text, j + |s|) == ':'
    requires Pairs(text, i, g.table, k, OnColumn) == Pairs(text, j, g.table, k, column)
    ensures PairsInto(text, i, g, k) == (SetColumn(g, k, column, Masks(s, g.table)), j + |s|)
  {
    hide Masks, Pairs, OrColumn;
    PairsRead(text, j, s, g.table, k, column);
  }

  /** The dashes and the question mark. */
  lemma MarksRead(text: string, i: nat, table: Table, k: nat)
    requires i < |text| && k < |table|
    ensures text[i] == '?' ==> Pairs(text, i, table, k, OnColumn) == Pairs(text, i + 1, table, k, NeedColumn)
    ensures text[i] == '-' ==> Pairs(text, i, table, k, OnColumn) == Pairs(text, i + 1, table, k, OffColumn)
    ensures text[i] == '-' && i + 1 < |text| && text[i + 1] == '-' ==>
              Pairs(text, i, table, k, OnColumn) == Pairs(text, i + 2, table, k, ExclusionColumn)
  {
    hide IndexOf, OrInto;
    if text[i] == '-' && i + 1 < |text| && text[i + 1] == '-' {
      assert Pairs(text, i + 1, table, k, OffColumn) == Pairs(text, i + 2, table, k, ExclusionColumn);
    }
  }

  /** Where the letters of such a group start, and which column they go to. */
  function Skip(r: Rule): nat {
    match r
    case Implies(_, _) => 1
    case Excludes(_, _) => 3
    case _ => 2
  }

  function ColumnOf(r: Rule): Column {
    match r
    case TurnsOff(_, _) => OffColumn
    case Excludes(_, _) => ExclusionColumn
    case AsksFor(_, _) => NeedColumn
    case _ => OnColumn
  }

  predicate HasLetters(r: Rule) {
    r.Implies? || r.Counts? || r.TurnsOff? || r.Excludes? || r.AsksFor?
  }

  lemma LettersAt(text: string, i: nat, r: Rule, table: Table)
    requires WellFormed(r, table) && StandsAt(text, i, RuleText(r)) && HasLetters(r)
    ensures i + Skip(r) + |r.others| == i + |RuleText(r)| <= |text| && text[i + Skip(r)..i + |RuleText(r)|] == r.others
    ensures (forall c :: c in r.others ==> IsLetter(c)) && (At(text, i + |RuleText(r)|) == NUL || At(text, i + |RuleText(r)|) == ':')
    ensures IndexOf(table, r.a) < |table| && IsLetter(r.a) && text[i] == r.a
  {
    hide IndexOf;
    CharsAt(text, i, RuleText(r));
    TailAt(text, i, RuleText(r), Skip(r), r.others);
  }

  lemma MarksOf(r: Rule, table: Table)
    requires WellFormed(r, table) && (r.TurnsOff? || r.Excludes? || r.AsksFor?)
    ensures var t := RuleText(r);
            && |t| > 2 && t[1] == (if r.AsksFor? then '?' else '-')
            && t[2] != ':' && t[2] != NUL && (r.Excludes? ==> t[2] == '-')
  {
    hide IndexOf;
    assert r.others[0] in r.others;
  }

  lemma MarksAt(text: string, i: nat, r: Rule, table: Table)
    requires WellFormed(r, table) && StandsAt(text, i, RuleText(r)) && (r.TurnsOff? || r.Excludes? || r.AsksFor?)
    ensures i + 2 < |text| && text[i + 1] == (if r.AsksFor? then '?' else '-')
    ensures text[i + 2] != ':' && text[i + 2] != NUL && (r.Excludes? ==> text[i + 2] == '-')
  {
    hide *;
    MarksOf(r, table);
    CharsAt(text, i, RuleText(r));
  }

  /** A group that puts letters into a column of its first letter's row. */
  lemma ColumnRead(text: string, i: nat, r: Rule, g: Config)
    requires WellFormed(r, g.table) && StandsAt(text, i, RuleText(r)) && (r.TurnsOff? || r.Excludes? || r.AsksFor?)
    ensures Conditions(text, i, g) == Conditions(text, i + |RuleText(r)|, Declare(g, r))
  {
    hide IndexOf, WellFormed, StandsAt, RuleText, Masks, Pairs, PairsInto, Conditions, Declare, SetColumn, IsLetter, At;
    LettersAt(text, i, r, g.table);
    MarksAt(text, i, r, g.table);
    var k := IndexOf(g.table, r.a);
    MarksRead(text, i + 1, g.table, k);
    MarkedGroup(text, i, g, k);
    ColumnInto(text, i + 1, i + Skip(r), r.others, g, k, ColumnOf(r));
    DeclareColumn(g, r, ColumnOf(r));
  }

  lemma DeclareColumn(g: Config, r: Rule, column: Column)
    requires WellFormed(r, g.table) && (r.TurnsOff? || r.Excludes? || r.AsksFor?)
    requires column == ColumnOf(r)
    ensures Declare(g, r) == SetColumn(g, IndexOf(g.table, r.a), column, Masks(r.others, g.table))
  {
    hide IndexOf, SetColumn, Masks;
  }

  lemma {:induction false} CountLetters(g: Config, k: nat, s: string)
    requires k < |g.table|
    ensures Masks(s, SetCounts(g, k).table) == Masks(s, g.table)
  {
    hide Or, IndexOf;
    if s != "" {
      SameIndex(g.table, SetCounts(g, k).table, s[0]);
      CountLetters(g, k, s[1..]);
    }
  }

  lemma UnmarkedAt(text: string, i: nat, r: Rule, table: Table)
    requires WellFormed(r, table) && StandsAt(text, i, RuleText(r)) && (r.Implies? || r.Counts?)
    ensures i + 1 < |text| && IsLetter(text[i + 1]) && (r.Counts? <==> text[i + 1] == text[i])
  {
    hide IndexOf;
    if r.others != "" { assert r.others[0] in r.others; }
    CharsAt(text, i, RuleText(r));
  }

  lemma UnmarkedGroup(text: string, i: nat, g: Config, k: nat)
    requires i + 1 < |text| && IsLetter(text[i]) && k == IndexOf(g.table, text[i]) < |g.table| && IsLetter(text[i + 1])
    ensures var (h, j) := if text[i + 1] == text[i] then PairsInto(text, i + 2, SetCounts(g, k), k) else PairsInto(text, i + 1, g, k);
            Conditions(text, i, g) == Conditions(text, j, h)
  {
    hide IndexOf, PairsInto, Conditions, SetCounts;
    GroupRead(text, i, g, k);
  }

  lemma ImpliesRead(text: string, i: nat, r: Rule, g: Config)
    requires WellFormed(r, g.table) && StandsAt(text, i, RuleText(r)) && (r.Implies? || r.Counts?)
    ensures Conditions(text, i, g) == Conditions(text, i + |RuleText(r)|, Declare(g, r))
  {
    hide IndexOf, WellFormed, StandsAt, RuleText, Masks, Pairs, PairsInto, Conditions, SetColumn, SetCounts, IsLetter, At;
    LettersAt(text, i, r, g.table);
    UnmarkedAt(text, i, r, g.table);
    var k := IndexOf(g.table, r.a);
    UnmarkedGroup(text, i, g, k);
    CountLetters(g, k, r.others);
    ColumnInto(text, i + Skip(r), i + Skip(r), r.others, if r.Implies? then g else SetCounts(g, k), k, OnColumn);
  }

  /** A rule that begins with a letter and names no others. */
  predicate IsAlone(r: Rule) {
    r.Required? || r.ForUsage? || r.IntArgument? || r.ListArgument?
  }

  /** What is read for such a rule; the colons of a list are left to the loop. */
  lemma AloneGroup(text: string, i: nat, r: Rule, g: Config)
    requires WellFormed(r, g.table) && StandsAt(text, i, RuleText(r)) && IsAlone(r)
    ensures i < |text| && IsLetter(text[i]) && text[i] == r.a && IndexOf(g.table, r.a) < |g.table|
    ensures Group(text, i, g, IndexOf(g.table, r.a)) == (Declare(g, r), if r.ListArgument? then i + 1 else i + |RuleText(r)|)
    ensures r.ListArgument? ==> i + 2 < |text| && text[i + 1] == text[i + 2] == ':'
  {
    CharsAt(text, i, RuleText(r));
    hide IndexOf, SetParam, SetNeeded, SetUsage;
  }

  lemma AloneRead(text: string, i: nat, r: Rule, g: Config)
    requires WellFormed(r, g.table) && StandsAt(text, i, RuleText(r)) && IsAlone(r)
    ensures Conditions(text, i, g) == Conditions(text, i + |RuleText(r)|, Declare(g, r))
  {
    hide Group, Conditions, Declare, IndexOf, WellFormed, StandsAt, RuleText;
    AloneGroup(text, i, r, g);
    GroupRead(text, i, g, IndexOf(g.table, r.a));
    if r.ListArgument? {
      ColonsRead(text, i + 1, Declare(g, r));
      ListText(r);
    }
  }

  lemma ListText(r: Rule)
    requires r.ListArgument?
    ensures |RuleText(r)| == 3
  {
  }

  lemma PlainRead(text: string, i: nat, r: Rule, g: Config)
    requires WellFormed(r, g.table) && StandsAt(text, i, RuleText(r))
    requires !(r.Implies? || r.Counts? || r.TurnsOff? || r.Excludes? || r.AsksFor?)
    ensures Conditions(text, i, g) == Conditions(text, i + |RuleText(r)|, Declare(g, r))
  {
    hide Conditions, IndexOf, SetParam, SetNeeded, SetUsage;
    if IsAlone(r) {
      AloneRead(text, i, r, g);
    } else {
      CharsAt(text, i, RuleText(r));
      SpecialRead(text, i, g);
    }
  }

  lemma ColonsRead(text: string, i: nat, g: Config)
    requires i + 1 < |text| && text[i] == text[i + 1] == ':'
    ensures Conditions(text, i, g) == Conditions(text, i + 2, g)
  {
    hide IndexOf, Group, Special;
  }

  lemma SpecialRead(text: string, i: nat, g: Config)
    requires i < |text| && (text[i] == '?' || text[i] == '-' || (text[i] == '=' && At(text, i + 1) != NUL))
    ensures var (h, j) := Special(text, i, g); Conditions(text, i, g) == Conditions(text, j, h)
  {
    hide IndexOf, Group, Special;
  }

  /** One written rule does what it declares. */
  lemma RuleRead(text: string, i: nat, r: Rule, g: Config)
    requires WellFormed(r, g.table) && StandsAt(text, i, RuleText(r))
    ensures Conditions(text, i, g) == Conditions(text, i + |RuleText(r)|, Declare(g, r))
  {
    hide *;
    if r.Implies? || r.Counts? {
      ImpliesRead(text, i, r, g);
    } else if r.TurnsOff? || r.Excludes? || r.AsksFor? {
      ColumnRead(text, i, r, g);
    } else {
      PlainRead(text, i, r, g);
    }
  }

  lemma RuleStart(r: Rule, table: Table)
    requires WellFormed(r, table)
    ensures RuleText(r) != "" && RuleText(r)[0] != ':' && RuleText(r)[0] != NUL
  {
  }

  lemma Splice(before: string, t: string, rest: string)
    ensures var text, k := before + (t + (":" + rest)), |before| + |t|;
            && text == before + t + ":" + rest && k < |text| && text[|before|..k] == t && text[k] == ':'
            && (rest != "" ==> text[k + 1] == rest[0])
  {
  }

  /** The first rule of a list, and what follows it. */
  lemma RulesLayout(before: string, rules: seq<Rule>, table: Table)
    requires rules != [] && AllWellFormed(rules, table)
    ensures var text, t := before + RulesText(rules), RuleText(rules[0]);
            && StandsAt(text, |before|, t)
            && (|rules| == 1 ==> |before| + |t| == |text|)
            && (|rules| > 1 ==> text == before + t + ":" + RulesText(rules[1..]) && text[|before| + |t|] == ':')
  {
    hide *;
    var text, t := before + RulesText(rules), RuleText(rules[0]);
    RulesUnfold(rules);
    if |rules| == 1 {
      assert text[|before|..|text|] == t;
      Stands(text, |before|, t);
    } else {
      NextWellFormed(rules, table);
      RulesStart(rules[1..], table);
      Splice(before, t, RulesText(rules[1..]));
      Stands(text, |before|, t);
    }
  }

  lemma Stands(text: string, i: nat, t: string)
    requires i + |t| <= |text| && text[i..i + |t|] == t
    requires i + |t| < |text| ==> text[i + |t|] == ':' && (i + |t| + 1 < |text| ==> text[i + |t| + 1] != ':')
    ensures StandsAt(text, i, t)
  {
  }

  lemma NextWellFormed(rules: seq<Rule>, table: Table)
    requires |rules| > 1 && AllWellFormed(rules, table)
    ensures WellFormed(rules[1..][0], table)
  {
    hide WellFormed;
    assert rules[1..][0] in rules;
  }

  lemma RulesUnfold(rules: seq<Rule>)
    requires rules != []
    ensures |rules| == 1 ==> RulesText(rules) == RuleText(rules[0])
    ensures |rules| > 1 ==> RulesText(rules) == RuleText(rules[0]) + (":" + RulesText(rules[1..]))
  {
    hide RuleText;
    if |rules| > 1 {
      assert RuleText(rules[0]) + ":" + RulesText(rules[1..]) == RuleText(rules[0]) + (":" + RulesText(rules[1..]));
    }
  }

  lemma RulesStart(rules: seq<Rule>, table: Table)
    requires rules != [] && WellFormed(rules[0], table)
    ensures RulesText(rules) != "" && RulesText(rules)[0] != ':' && RulesText(rules)[0] != NUL
  {
    hide RuleText, WellFormed;
    RuleStart(rules[0], table);
  }

  lemma ColonRead(text: string, i: nat, g: Config)
    requires i <= |text|
    ensures i == |text| ==> Conditions(text, i, g) == Some(g)
    ensures i < |text| && text[i] == ':' ==> Conditions(text, i, g) == Conditions(text, i + 1, g)
  {
    hide IndexOf, Group, Special;
  }

  lemma RestWellFormed(g: Config, rules: seq<Rule>)
    requires rules != [] && AllWellFormed(rules, g.table)
    ensures WellFormed(rules[0], g.table) && AllWellFormed(rules[1..], Declare(g, rules[0]).table)
    ensures DeclareAll(g, rules) == DeclareAll(Declare(g, rules[0]), rules[1..])
  {
    hide WellFormed, Declare, SameLetters;
    DeclareLetters(g, rules[0]);
    forall x | x in rules[1..] ensures WellFormed(x, Declare(g, rules[0]).table) {
      SameWellFormed(x, g.table, Declare(g, rules[0]).table);
    }
  }

  lemma NoRules(g: Config, before: string)
    ensures before + RulesText([]) == before && AllWellFormed([], g.table) && DeclareAll(g, []) == g
  {
  }

  /** A list of rules, written with colons between them, is read as exactly those rules. */
  lemma {:induction false} RulesRead(before: string, rules: seq<Rule>, g: Config)
    requires AllWellFormed(rules, g.table)
    ensures Conditions(before + RulesText(rules), |before|, g) == Some(DeclareAll(g, rules))
    decreases |rules|
  {
    hide *;
    if rules == [] {
      NoRules(g, before);
      ColonRead(before, |before|, g);
    } else {
      var text, t := before + RulesText(rules), RuleText(rules[0]);
      RulesLayout(before, rules, g.table);
      RestWellFormed(g, rules);
      var h := Declare(g, rules[0]);
      RuleRead(text, |before|, rules[0], g);
      ColonRead(text, |before| + |t|, h);
      if |rules| > 1 {
        RulesRead(before + t + ":", rules[1..], h);
      } else {
        assert rules[1..] == [];
        NoRules(h, "");
      }
    }
  }
}
