/** What "a--b" means: which command lines are refused because two of their options exclude each other. */
module Exclusions {
  import opened Json
  import opened Bits
  import opened GetOpt
  import opened OptionFlags

  // ---------------------------------------------------------------- the bit of an option

  /** Every option sets its own bit, and maybe others that were written after it. */
  predicate SetsOwn(table: Table) {
    |table| <= 32 && forall i :: 0 <= i < |table| ==> And(Bit(i), table[i].switchOn) == Bit(i)
  }

  function BitOf(c: char, table: Table): bv32
    requires |table| <= 32 && IndexOf(table, c) < |table|
  {
    Bit(IndexOf(table, c))
  }

  lemma KnownInMask(table: Table, c: char)
    requires SetsOwn(table) && IndexOf(table, c) < |table|
    ensures And(BitOf(c, table), MaskOf(c, table)) == BitOf(c, table)
  {
    hide And, Bit;
  }

  lemma {:induction false} KnownInMasks(table: Table, s: string, c: char)
    requires SetsOwn(table) && IndexOf(table, c) < |table| && c in s
    ensures And(BitOf(c, table), Masks(s, table)) == BitOf(c, table)
    decreases |s|
  {
    hide And, Or, MaskOf, BitOf;
    if s[0] == c {
      KnownInMask(table, c);
    } else {
      KnownInMasks(table, s[1..], c);
    }
    PartOfOr(BitOf(c, table), MaskOf(s[0], table), Masks(s[1..], table));
  }

  // ---------------------------------------------------------------- what reading more rules keeps

  /** Rows only ever gain bits to set and bits to refuse. */
  ghost predicate Grown(t: Table, u: Table) {
    && SameLetters(t, u)
    && forall i, x: bv32 :: 0 <= i < |t| ==>
         && (And(x, t[i].switchOn) == x ==> And(x, u[i].switchOn) == x)
         && (And(x, t[i].incongruously) == x ==> And(x, u[i].incongruously) == x)
  }

  lemma OrIntoGrows(row: Row, column: Column, mask: bv32, x: bv32)
    ensures var r := OrInto(row, column, mask);
            && (And(x, row.switchOn) == x ==> And(x, r.switchOn) == x)
            && (And(x, row.incongruously) == x ==> And(x, r.incongruously) == x)
  {
    hide And, Or;
    PartOfOr(x, row.switchOn, mask);
    PartOfOr(x, row.incongruously, mask);
  }

  lemma ColumnGrows(g: Config, k: nat, column: Column, mask: bv32)
    requires k < |g.table|
    ensures Grown(g.table, SetColumn(g, k, column, mask).table)
  {
    hide And, OrInto;
    forall x: bv32
      ensures var row, r := g.table[k], OrInto(g.table[k], column, mask);
              && (And(x, row.switchOn) == x ==> And(x, r.switchOn) == x)
              && (And(x, row.incongruously) == x ==> And(x, r.incongruously) == x)
    {
      OrIntoGrows(g.table[k], column, mask, x);
    }
    assert SetColumn(g, k, column, mask).table == g.table[k := OrInto(g.table[k], column, mask)];
    assert OrInto(g.table[k], column, mask).letter == g.table[k].letter by { LetterKept(g.table[k], column, mask); }
  }

  lemma LetterKept(row: Row, column: Column, mask: bv32)
    ensures OrInto(row, column, mask).letter == row.letter
  {
  }

  lemma GrownTwice(t: Table, u: Table, v: Table)
    requires Grown(t, u) && Grown(u, v)
    ensures Grown(t, v)
  {
    hide And;
  }

  lemma DeclareGrows(g: Config, r: Rule)
    requires WellFormed(r, g.table)
    ensures Grown(g.table, Declare(g, r).table)
  {
    hide IndexOf, Masks, And, Or, SetColumn, OrInto, Grown;
    DeclareLetters(g, r);
    if HasLetters(r) {
      LettersGrow(g, r);
    } else if r.ForUsage? {
      ColumnGrows(g, IndexOf(g.table, r.a), ExclusionColumn, g.table[IndexOf(g.table, r.a)].switchOn);
      UsageColumn(g, IndexOf(g.table, r.a));
    } else {
      SameGrown(g.table, Declare(g, r).table);
    }
  }

  lemma LettersGrow(g: Config, r: Rule)
    requires WellFormed(r, g.table) && HasLetters(r)
    ensures Grown(g.table, Declare(g, r).table)
  {
    hide IndexOf, Masks, And, Or, SetColumn, OrInto, Grown;
    var k := IndexOf(g.table, r.a);
    var h := if r.Counts? then SetCounts(g, k) else g;
    SameGrown(g.table, h.table);
    ColumnGrows(h, k, ColumnOf(r), Masks(r.others, g.table));
    GrownTwice(g.table, h.table, SetColumn(h, k, ColumnOf(r), Masks(r.others, g.table)).table);
  }

  lemma SameGrown(t: Table, u: Table)
    requires SameLetters(t, u)
    requires forall i :: 0 <= i < |t| ==> u[i].switchOn == t[i].switchOn && u[i].incongruously == t[i].incongruously
    ensures Grown(t, u)
  {
    hide And;
  }

  lemma UsageColumn(g: Config, k: nat)
    requires k < |g.table|
    ensures SetUsage(g, k).table == SetColumn(g, k, ExclusionColumn, g.table[k].switchOn).table
  {
  }

  lemma {:induction false} AllGrow(g: Config, rules: seq<Rule>)
    requires AllWellFormed(rules, g.table)
    ensures Grown(g.table, DeclareAll(g, rules).table)
    decreases |rules|
  {
    hide WellFormed, Declare, Grown;
    if rules == [] {
      SameGrown(g.table, g.table);
    } else {
      RestWellFormed(g, rules);
      DeclareGrows(g, rules[0]);
      AllGrow(Declare(g, rules[0]), rules[1..]);
      GrownTwice(g.table, Declare(g, rules[0]).table, DeclareAll(g, rules).table);
    }
  }

  /** What a grown table still has of an option. */
  lemma GrownOption(t: Table, u: Table, a: char, c: char)
    requires SetsOwn(t) && Grown(t, u)
    ensures |t| == |u| && SetsOwn(u) && IndexOf(t, a) == IndexOf(u, a) && IndexOf(t, c) == IndexOf(u, c)
    ensures IndexOf(t, c) < |t| && And(BitOf(c, t), ExcludedBy(t, a)) == BitOf(c, t) ==>
              And(BitOf(c, t), ExcludedBy(u, a)) == BitOf(c, t)
  {
    hide And, Bit, IndexOf;
    SameIndex(t, u, a);
    SameIndex(t, u, c);
    NotNothing(IndexOf(t, c));
  }

  lemma NotNothing(i: nat)
    ensures i < 32 ==> And(Bit(i), 0) != Bit(i)
  {
    hide Bit;
    if i < 32 {
      BitWhole(i, 0);
      AndTurns(Bit(i), 0);
      NothingInZero(Bit(i));
    }
  }

  lemma OneExclusion(g: Config, a: char, s: string, c: char)
    requires SetsOwn(g.table) && WellFormed(Excludes(a, s), g.table) && c in s && IndexOf(g.table, c) < |g.table|
    ensures And(BitOf(c, g.table), ExcludedBy(Declare(g, Excludes(a, s)).table, a)) == BitOf(c, g.table)
  {
    hide And, Bit, Or, IndexOf, Masks;
    var h := Declare(g, Excludes(a, s));
    DeclareLetters(g, Excludes(a, s));
    SameIndex(g.table, h.table, a);
    KnownInMasks(g.table, s, c);
    PartOfOr(BitOf(c, g.table), ExcludedBy(g.table, a), Masks(s, g.table));
  }

  /** An exclusion that is written is in the table, whatever other conditions stand around it. */
  lemma {:induction false} ExclusionDeclared(g: Config, rules: seq<Rule>, k: nat, c: char)
    requires SetsOwn(g.table) && AllWellFormed(rules, g.table)
    requires k < |rules| && rules[k].Excludes? && c in rules[k].others && IndexOf(g.table, c) < |g.table|
    ensures var t := DeclareAll(g, rules).table;
            && SetsOwn(t) && IndexOf(t, c) == IndexOf(g.table, c) < |t|
            && And(BitOf(c, t), ExcludedBy(t, rules[k].a)) == BitOf(c, t)
    decreases |rules|
  {
    hide WellFormed, Declare, Grown, SetsOwn, And, IndexOf, ExcludedBy;
    RestWellFormed(g, rules);
    var h, a := Declare(g, rules[0]), rules[k].a;
    DeclareGrows(g, rules[0]);
    GrownOption(g.table, h.table, a, c);
    if k == 0 {
      OneExclusion(g, a, rules[0].others, c);
      AllGrow(h, rules[1..]);
      GrownOption(h.table, DeclareAll(h, rules[1..]).table, a, c);
    } else {
      ExclusionDeclared(h, rules[1..], k - 1, c);
    }
  }

  // ---------------------------------------------------------------- what is refused

  /** One of the rules says that a is refused after c. */
  predicate RuleExcludes(rules: seq<Rule>, a: char, c: char) {
    exists k :: 0 <= k < |rules| && rules[k].Excludes? && rules[k].a == a && c in rules[k].others
  }

  lemma {:induction false} ScanPrefix(table: Table, flags: bv32, given: seq<char>, n: nat)
    requires n <= |given| && Scan(table, flags, given).Some?
    ensures Scan(table, flags, given[..n]).Some?
    decreases |given|
  {
    hide Scan, IndexOf, And, Switch;
    if n == |given| {
      assert given[..n] == given;
    } else {
      var last := |given| - 1;
      ScanLast(table, flags, given);
      ScanPrefix(table, flags, given[..last], n);
      assert given[..last][..n] == given[..n];
    }
  }

  /** A bit that nothing clears, set by an option and excluded by a later one. */
  lemma Refused(table: Table, flags: bv32, given: seq<char>, i: nat, j: nat, x: bv32)
    requires i < j < |given| && x != 0 && NeverCleared(table, x)
    requires And(x, MaskOf(given[i], table)) == x && And(x, ExcludedBy(table, given[j])) == x
    ensures Scan(table, flags, given) == None
  {
    hide Scan, IndexOf, And, Switch, MaskOf, NeverCleared;
    if Scan(table, flags, given).Some? {
      ScanPrefix(table, flags, given, j);
      ScanPrefix(table, flags, given, j + 1);
      assert given[..j + 1][..j] == given[..j] && given[..j][i] == given[i];
      ScanLast(table, flags, given[..j + 1]);
      FlagsMeet(table, flags, given[..j], x);
      AndTurns(x, MaskOf(given[i], table));
      InMask(Scan(table, flags, given[..j]).value, x, ExcludedBy(table, given[j]));
    }
  }

  /** The table that a list of conditions leaves. */
  function Final(opts: string, rules: seq<Rule>): Table
    requires AllWellFormed(rules, Start(opts).table)
  {
    DeclareAll(Start(opts), rules).table
  }

  lemma StartSetsOwn(opts: string)
    ensures SetsOwn(Start(opts).table)
  {
    hide And, Bit, Rows, FirstLetter;
    StartIsFresh(opts);
    forall i | 0 <= i < |Start(opts).table| ensures And(Bit(i), Bit(i)) == Bit(i) { XorLaws(Bit(i)); }
  }

  lemma NotScanned(opts: string, rules: seq<Rule>, given: seq<char>, args: nat)
    requires AllWellFormed(rules, Start(opts).table)
    ensures Scan(Final(opts, rules), DeclareAll(Start(opts), rules).flags, given) == None ==>
              CommandLine(opts, RulesText(rules), given, args) == None
  {
    hide WellFormed, Scan, Conditions, DeclareAll, RulesText, Rows, FirstLetter;
    RulesRead("", rules, Start(opts));
    assert "" + RulesText(rules) == RulesText(rules);
  }

  /**
   * "a--c", among any other conditions: if no option clears c's own bit, no command line with a after c goes through.
   */
  lemma ExcludedTogether(opts: string, rules: seq<Rule>, a: char, c: char, given: seq<char>, args: nat, i: nat, j: nat)
    requires AllWellFormed(rules, Start(opts).table) && RuleExcludes(rules, a, c)
    requires IndexOf(Start(opts).table, c) < |Start(opts).table|
    requires i < j < |given| && given[i] == c && given[j] == a
    ensures SetsOwn(Final(opts, rules)) && IndexOf(Final(opts, rules), c) < |Final(opts, rules)|
    ensures NeverCleared(Final(opts, rules), BitOf(c, Final(opts, rules))) ==>
              CommandLine(opts, RulesText(rules), given, args) == None
  {
    hide WellFormed, IndexOf, And, Scan, ExcludedBy, NeverCleared, DeclareAll, RulesText, Start, CommandLine;
    var g := Start(opts);
    StartSetsOwn(opts);
    NotScanned(opts, rules, given, args);
    var k :| 0 <= k < |rules| && rules[k].Excludes? && rules[k].a == a && c in rules[k].others;
    ExclusionDeclared(g, rules, k, c);
    var t := Final(opts, rules);
    KnownInMask(t, c);
    BitWhole(IndexOf(t, c), 0);
    if NeverCleared(t, BitOf(c, t)) { Refused(t, DeclareAll(g, rules).flags, given, i, j, BitOf(c, t)); }
  }

  /** All these options are known, and no option clears the own bit of any of them. */
  predicate Safe(table: Table, letters: string) {
    SetsOwn(table) && forall c :: c in letters ==> IndexOf(table, c) < |table| && NeverCleared(table, BitOf(c, table))
  }

  lemma SafeKnown(opts: string, rules: seq<Rule>, c: char)
    requires AllWellFormed(rules, Start(opts).table)
    ensures IndexOf(Final(opts, rules), c) == IndexOf(Start(opts).table, c) && |Final(opts, rules)| == |Start(opts).table|
  {
    hide WellFormed, DeclareAll, Start, IndexOf, SetsOwn, ExcludedBy;
    StartSetsOwn(opts);
    AllGrow(Start(opts), rules);
    GrownOption(Start(opts).table, Final(opts, rules), c, c);
  }

  /** Options that all exclude each other, among any other conditions: at most one of them is given, however often. */
  lemma AtMostOne(opts: string, rules: seq<Rule>, letters: string, given: seq<char>, args: nat)
    requires AllWellFormed(rules, Start(opts).table) && Safe(Final(opts, rules), letters)
    requires forall a, c :: a in letters && c in letters && a != c ==> RuleExcludes(rules, a, c)
    requires CommandLine(opts, RulesText(rules), given, args).Some?
    ensures forall i, j :: 0 <= i < j < |given| && given[i] in letters && given[j] in letters ==> given[i] == given[j]
  {
    hide WellFormed, IndexOf, NeverCleared, Final, RuleExcludes, SetsOwn, Start, CommandLine;
    forall i, j | 0 <= i < j < |given| && given[i] in letters && given[j] in letters ensures given[i] == given[j] {
      if given[i] != given[j] {
        SafeKnown(opts, rules, given[i]);
        ExcludedTogether(opts, rules, given[j], given[i], given, args, i, j);
      }
    }
  }

  /** "x--x", among any other conditions: the option is given at most once. */
  lemma AtMostOnce(opts: string, rules: seq<Rule>, x: char, given: seq<char>, args: nat)
    requires AllWellFormed(rules, Start(opts).table) && Safe(Final(opts, rules), [x]) && RuleExcludes(rules, x, x)
    requires CommandLine(opts, RulesText(rules), given, args).Some?
    ensures forall i, j :: 0 <= i < j < |given| ==> !(given[i] == x == given[j])
  {
    hide WellFormed, IndexOf, NeverCleared, Final, RuleExcludes, SetsOwn, Start, CommandLine;
    assert x in [x];
    SafeKnown(opts, rules, x);
    forall i, j | 0 <= i < j < |given| ensures !(given[i] == x == given[j]) {
      if given[i] == x == given[j] { ExcludedTogether(opts, rules, x, x, given, args, i, j); }
    }
  }

  // ---------------------------------------------------------------- conditions that are exclusions only

  /** Every option sets its own bit only. */
  predicate OwnBits(table: Table) {
    |table| <= 32 && forall i :: 0 <= i < |table| ==> table[i].switchOn == Bit(i)
  }

  /** And it clears nothing and asks for nothing. */
  predicate Bare(table: Table) {
    OwnBits(table) && forall i :: 0 <= i < |table| ==> table[i].switchOff == 0 && table[i].needs == 0
  }

  predicate OnlyExcludes(rules: seq<Rule>) {
    forall r :: r in rules ==> r.Excludes?
  }

  /** With options that set their own bit only, a list of letters has the bit of just its own members. */
  lemma {:induction false} MasksOf(table: Table, s: string, c: char)
    requires OwnBits(table) && IndexOf(table, c) < |table|
    ensures And(Masks(s, table), BitOf(c, table)) == if c in s then BitOf(c, table) else 0
    decreases |s|
  {
    hide And, Or, BitOf, Bit, MaskOf;
    var x := BitOf(c, table);
    if s == "" {
      NothingInZero(x);
    } else {
      MaskIs(table, s[0], c);
      MasksOf(table, s[1..], c);
      AndOr(MaskOf(s[0], table), Masks(s[1..], table), x);
      OrLaws(x, 0, 0);
      OrLaws(0, 0, 0);
    }
  }

  lemma MaskIs(table: Table, d: char, c: char)
    requires OwnBits(table) && IndexOf(table, c) < |table|
    ensures And(MaskOf(d, table), BitOf(c, table)) == if d == c then BitOf(c, table) else 0
  {
    hide And, Or, Bit;
    var x := BitOf(c, table);
    NothingInZero(x);
    XorLaws(x);
    if d != c && IndexOf(table, d) < |table| { BitsAnd(IndexOf(table, d), IndexOf(table, c)); }
  }

  /** A table of exclusions after one more. */
  lemma OneMore(g: Config, r: Rule, a: char, c: char)
    requires Bare(g.table) && WellFormed(r, g.table) && r.Excludes? && IndexOf(g.table, c) < |g.table|
    ensures var t := Declare(g, r).table;
            && SameLetters(g.table, t) && Bare(t) && Declare(g, r) == g.(table := t)
            && And(ExcludedBy(t, a), BitOf(c, g.table)) ==
               (if a == r.a && c in r.others then BitOf(c, g.table) else And(ExcludedBy(g.table, a), BitOf(c, g.table)))
  {
    hide And, Or, Bit, Masks, IndexOf;
    var t, x := Declare(g, r).table, BitOf(c, g.table);
    DeclareLetters(g, r);
    SameIndex(g.table, t, a);
    MasksOf(g.table, r.others, c);
    AndOr(ExcludedBy(g.table, a), Masks(r.others, g.table), x);
    InPart(ExcludedBy(g.table, a), IndexOf(g.table, c));
  }

  lemma InPart(mask: bv32, i: nat)
    ensures i < 32 ==> Or(And(mask, Bit(i)), Bit(i)) == Bit(i) && Or(And(mask, Bit(i)), 0) == And(mask, Bit(i))
  {
    hide Bit, And, Or;
    if i < 32 {
      OrLaws(And(mask, Bit(i)), 0, 0);
      OrLaws(Bit(i), 0, 0);
      OrLaws(And(mask, Bit(i)), Bit(i), 0);
      BitWhole(i, mask);
      AndTurns(Bit(i), mask);
    }
  }

  /** After exclusions only, an option's exclusions are those it had and those that were written. */
  lemma {:induction false} ExclusionsAre(g: Config, rules: seq<Rule>, a: char, c: char)
    requires Bare(g.table) && AllWellFormed(rules, g.table) && OnlyExcludes(rules) && IndexOf(g.table, c) < |g.table|
    ensures var t := DeclareAll(g, rules).table;
            && SameLetters(g.table, t) && Bare(t)
            && And(ExcludedBy(t, a), BitOf(c, g.table)) ==
               (if RuleExcludes(rules, a, c) then BitOf(c, g.table) else And(ExcludedBy(g.table, a), BitOf(c, g.table)))
    decreases |rules|
  {
    hide WellFormed, And, IndexOf, ExcludedBy, BitOf, Bare, Masks, SetColumn;
    if rules != [] {
      RestWellFormed(g, rules);
      var h := Declare(g, rules[0]);
      OneMore(g, rules[0], a, c);
      SameIndex(g.table, h.table, c);
      SameBit(g.table, h.table, c);
      ExclusionsAre(h, rules[1..], a, c);
      HeadOrTail(rules, a, c);
    }
  }

  /** And they change nothing else. */
  lemma {:induction false} ExclusionsKeep(g: Config, rules: seq<Rule>)
    requires Bare(g.table) && AllWellFormed(rules, g.table) && OnlyExcludes(rules)
    ensures var t := DeclareAll(g, rules).table; SameLetters(g.table, t) && Bare(t) && DeclareAll(g, rules) == g.(table := t)
    decreases |rules|
  {
    hide WellFormed, IndexOf, Declare, Bare, SameLetters;
    if rules == [] {
      SameAs(g.table);
    } else {
      RestWellFormed(g, rules);
      OneKeeps(g, rules[0]);
      ExclusionsKeep(Declare(g, rules[0]), rules[1..]);
    }
  }

  lemma SameAs(t: Table)
    ensures SameLetters(t, t)
  {
  }

  lemma OneKeeps(g: Config, r: Rule)
    requires Bare(g.table) && WellFormed(r, g.table) && r.Excludes?
    ensures var t := Declare(g, r).table;
            Bare(t) && Declare(g, r) == g.(table := t) && forall u :: SameLetters(t, u) ==> SameLetters(g.table, u)
  {
    hide IndexOf, Masks, Bit;
    DeclareLetters(g, r);
  }

  lemma SameBit(t: Table, u: Table, c: char)
    requires Bare(t) && Bare(u) && IndexOf(t, c) == IndexOf(u, c) < |t| == |u|
    ensures BitOf(c, t) == BitOf(c, u)
  {
  }

  lemma HeadOrTail(rules: seq<Rule>, a: char, c: char)
    requires rules != []
    ensures RuleExcludes(rules, a, c) <==>
            (rules[0].Excludes? && rules[0].a == a && c in rules[0].others) || RuleExcludes(rules[1..], a, c)
  {
    forall k | 0 < k < |rules| ensures rules[k] == rules[1..][k - 1] { }
    if RuleExcludes(rules[1..], a, c) {
      var k :| 0 <= k < |rules[1..]| && rules[1..][k].Excludes? && rules[1..][k].a == a && c in rules[1..][k].others;
      assert rules[k + 1] == rules[1..][k];
    }
  }

  lemma FreshIs(table: Table)
    requires Fresh(table)
    ensures Bare(table) && forall a :: ExcludedBy(table, a) == 0
  {
    hide IndexOf, Bit;
  }

  lemma NeverClearedIs(table: Table, mask: bv32)
    requires Bare(table)
    ensures NeverCleared(table, mask)
  {
    hide And, Bit;
    NothingInZero(mask);
  }

  /** The bit an option sets, against what another excludes. */
  lemma Meets(g: Config, rules: seq<Rule>, a: char, c: char)
    requires Fresh(g.table) && AllWellFormed(rules, g.table) && OnlyExcludes(rules) && IndexOf(g.table, c) < |g.table|
    ensures var t := DeclareAll(g, rules).table;
            IndexOf(t, c) < |t| && (And(MaskOf(c, t), ExcludedBy(t, a)) == 0 <==> !RuleExcludes(rules, a, c))
  {
    hide And, Bit, IndexOf, ExcludedBy, RuleExcludes, DeclareAll, WellFormed, OnlyExcludes;
    var t := DeclareAll(g, rules).table;
    FreshIs(g.table);
    ExclusionsAre(g, rules, a, c);
    SameIndex(g.table, t, c);
    NothingInZero(BitOf(c, g.table));
    AndTurns(MaskOf(c, t), ExcludedBy(t, a));
    BitWhole(IndexOf(t, c), 0);
  }

  /** Nothing is asked for and nothing limits the other arguments. */
  lemma AlwaysAccepted(g: Config, flags: bv32, args: nat)
    requires Bare(g.table) && g.needsOne == 0 && g.minArgs == 0 && g.maxArgs == -1
    ensures Accepted(g, flags, args)
  {
    hide And, Bit;
  }

  lemma AllowedIs(g: Config, rules: seq<Rule>, given: seq<char>, j: nat)
    requires Fresh(g.table) && AllWellFormed(rules, g.table) && OnlyExcludes(rules)
    requires j < |given| && forall i :: 0 <= i < |given| ==> IndexOf(g.table, given[i]) < |g.table|
    ensures Allowed(DeclareAll(g, rules).table, 0, given, j) <==>
            forall i :: 0 <= i < j ==> !RuleExcludes(rules, given[j], given[i])
  {
    hide WellFormed, And, IndexOf, ExcludedBy, RuleExcludes, DeclareAll, OnlyExcludes, Fresh, MaskOf;
    var t := DeclareAll(g, rules).table;
    NothingInZero(ExcludedBy(t, given[j]));
    Meets(g, rules, given[j], given[j]);
    forall i | 0 <= i < j
      ensures And(MaskOf(given[i], t), ExcludedBy(t, given[j])) == 0 <==> !RuleExcludes(rules, given[j], given[i])
    {
      Meets(g, rules, given[j], given[i]);
    }
  }

  predicate AllKnown(table: Table, given: seq<char>) {
    forall j :: 0 <= j < |given| ==> IndexOf(table, given[j]) < |table|
  }

  /** An unknown option ends the scan. */
  lemma UnknownRefused(table: Table, given: seq<char>)
    requires forall j :: 0 <= j < |given| ==> Allowed(table, 0, given, j)
    ensures AllKnown(table, given)
  {
    hide And, IndexOf;
    forall j | 0 <= j < |given| ensures IndexOf(table, given[j]) < |table| { assert Allowed(table, 0, given, j); }
  }

  lemma SameKnown(t: Table, u: Table, given: seq<char>)
    requires SameLetters(t, u)
    ensures AllKnown(t, given) <==> AllKnown(u, given)
  {
    hide IndexOf;
    forall c ensures IndexOf(t, c) == IndexOf(u, c) { SameIndex(t, u, c); }
  }

  /**
   * With any list of exclusions as the only conditions, a command line goes through if and only if it has
   * known options only and none stands after one that it is declared to exclude, itself included.
   */
  lemma OnlyExclusions(opts: string, rules: seq<Rule>, given: seq<char>, args: nat)
    requires AllWellFormed(rules, Start(opts).table) && OnlyExcludes(rules)
    ensures CommandLine(opts, RulesText(rules), given, args).Some? <==>
            && AllKnown(Start(opts).table, given)
            && (forall i, j :: 0 <= i < j < |given| ==> !RuleExcludes(rules, given[j], given[i]))
  {
    hide *;
    var g := Start(opts);
    StartIsFresh(opts);
    FreshIs(g.table);
    RulesRead("", rules, g);
    NoText(rules);
    var h := DeclareAll(g, rules);
    ExclusionsKeep(g, rules);
    forall j | 0 <= j < |given| ensures NeverCleared(h.table, ExcludedBy(h.table, given[j])) {
      NeverClearedIs(h.table, ExcludedBy(h.table, given[j]));
    }
    ExclusionExact(h.table, 0, given);
    SameKnown(g.table, h.table, given);
    if AllKnown(g.table, given) {
      KnownIs(g.table, given);
      forall j | 0 <= j < |given|
        ensures Allowed(h.table, 0, given, j) <==> forall i :: 0 <= i < j ==> !RuleExcludes(rules, given[j], given[i])
      {
        AllowedIs(g, rules, given, j);
      }
    } else if forall j :: 0 <= j < |given| ==> Allowed(h.table, 0, given, j) {
      UnknownRefused(h.table, given);
    }
    GoesThrough(opts, rules, given, args);
  }

  lemma NoText(rules: seq<Rule>)
    ensures "" + RulesText(rules) == RulesText(rules)
  {
  }

  lemma KnownIs(table: Table, given: seq<char>)
    requires AllKnown(table, given)
    ensures forall j :: 0 <= j < |given| ==> IndexOf(table, given[j]) < |table|
  {
  }

  /** With exclusions only, the scan alone decides. */
  lemma GoesThrough(opts: string, rules: seq<Rule>, given: seq<char>, args: nat)
    requires AllWellFormed(rules, Start(opts).table)
    requires var g := Start(opts);
             Conditions(RulesText(rules), 0, g) == Some(DeclareAll(g, rules))
             && DeclareAll(g, rules) == g.(table := DeclareAll(g, rules).table) && Bare(DeclareAll(g, rules).table)
    ensures CommandLine(opts, RulesText(rules), given, args).Some? <==>
            Scan(DeclareAll(Start(opts), rules).table, 0, given).Some?
  {
    hide WellFormed, IndexOf, DeclareAll, Conditions, Rows, FirstLetter, Bare, Accepted, Scan;
    var h := DeclareAll(Start(opts), rules);
    if Scan(h.table, 0, given).Some? { AlwaysAccepted(h, Scan(h.table, 0, given).value, args); }
  }

  const ONE_RULE: seq<Rule> := [Excludes('a', "b")]

  lemma OneRuleText()
    ensures RulesText(ONE_RULE) == "a--b"
    ensures OnlyExcludes(ONE_RULE) && RuleExcludes(ONE_RULE, 'a', 'b') && !RuleExcludes(ONE_RULE, 'b', 'a')
  {
    assert ONE_RULE[0].Excludes? && ONE_RULE[0].a == 'a' && 'b' in ONE_RULE[0].others;
  }

  lemma OneRuleFits(table: Table)
    requires |table| == 2 && table[0].letter == 'a' && table[1].letter == 'b'
    ensures AllWellFormed(ONE_RULE, table) && AllKnown(table, "ab") && AllKnown(table, "ba")
  {
  }

  /** "a--b" alone refuses a after b, but not b after a. */
  lemma OneSided(args: nat)
    ensures CommandLine("ab", "a--b", "ab", args).Some? && CommandLine("ab", "a--b", "ba", args) == None
  {
    hide *;
    TwoLetters();
    OneRuleText();
    OneRuleFits(Start("ab").table);
    OnlyExclusions("ab", ONE_RULE, "ab", args);
    OnlyExclusions("ab", ONE_RULE, "ba", args);
    assert "ba"[0] == 'b' && "ba"[1] == 'a';
  }

  lemma TwoLetters()
    ensures var t := Start("ab").table; |t| == 2 && t[0].letter == 'a' && t[1].letter == 'b'
  {
  }

  // ---------------------------------------------------------------- a run in which the exclusion is forgotten

  const FORGETFUL: seq<Rule> := [Excludes('a', "b"), Excludes('b', "a"), TurnsOff('c', "a")]

  predicate IsAbc(table: Table)
    ensures IsAbc(table) ==> IndexOf(table, 'a') == 0 && IndexOf(table, 'b') == 1 && IndexOf(table, 'c') == 2
  {
    |table| == 3 && table[0].letter == 'a' && table[1].letter == 'b' && table[2].letter == 'c'
  }

  lemma ThreeLetters()
    ensures var t := Start("abc").table; IsAbc(t) && FirstLetter("abc") == 0
    ensures Start("abc").table == [NewRow('a', 0, false), NewRow('b', 1, false), NewRow('c', 2, false)]
  {
    hide Bit;
    assert Rows("abc", 3, 3) == [];
    assert Rows("abc", 2, 2) == [NewRow('c', 2, false)];
    assert Rows("abc", 1, 1) == [NewRow('b', 1, false)] + Rows("abc", 2, 2);
    assert Rows("abc", 0, 0) == [NewRow('a', 0, false)] + Rows("abc", 1, 1);
  }

  lemma OneMask(table: Table, c: char)
    ensures Masks([c], table) == MaskOf(c, table)
  {
    hide Or, MaskOf;
    assert [c][1..] == [];
    assert Masks([c], table) == Or(MaskOf(c, table), Masks([], table));
    OrLaws(MaskOf(c, table), 0, 0);
  }

  /** What a rule of one letter does to the table. */
  lemma OneLetterRule(g: Config, r: Rule, k: nat, o: nat)
    requires WellFormed(r, g.table) && (r.Excludes? || r.TurnsOff?) && |r.others| == 1
    requires IndexOf(g.table, r.a) == k < |g.table| && IndexOf(g.table, r.others[0]) == o < |g.table|
    ensures var row, mask := g.table[k], g.table[o].switchOn;
            Declare(g, r) == g.(table := g.table[k := if r.Excludes? then row.(incongruously := Or(row.incongruously, mask))
                                                      else row.(switchOff := Or(row.switchOff, mask))])
  {
    hide Or, IndexOf, Masks, Declare, WellFormed;
    assert r.others == [r.others[0]];
    OneMask(g.table, r.others[0]);
    DeclareColumn(g, r, ColumnOf(r));
  }

  lemma ForgetfulFits(table: Table)
    requires IsAbc(table)
    ensures AllWellFormed(FORGETFUL, table)
    ensures WellFormed(FORGETFUL[0], table) && WellFormed(FORGETFUL[1], table) && WellFormed(FORGETFUL[2], table)
  {
    hide IndexOf;
  }

  lemma AbcKept(t: Table, u: Table)
    requires IsAbc(t) && SameLetters(t, u)
    ensures IsAbc(u)
  {
  }

  lemma ForgetfulDeclared(g: Config, h1: Config, h2: Config)
    requires IsAbc(g.table) && IsAbc(h1.table) && IsAbc(h2.table)
    requires WellFormed(FORGETFUL[0], g.table) && h1 == Declare(g, FORGETFUL[0])
    requires WellFormed(FORGETFUL[1], h1.table) && h2 == Declare(h1, FORGETFUL[1])
    ensures WellFormed(FORGETFUL[2], h2.table) && AllWellFormed(FORGETFUL, g.table)
    ensures DeclareAll(g, FORGETFUL) == Declare(h2, FORGETFUL[2])
  {
    hide WellFormed, Declare, IsAbc;
    ForgetfulFits(g.table);
    ForgetfulFits(h1.table);
    ForgetfulFits(h2.table);
    assert FORGETFUL[1..] == [FORGETFUL[1], FORGETFUL[2]];
    assert FORGETFUL[1..][1..] == [FORGETFUL[2]];
    assert [FORGETFUL[2]][1..] == [];
  }

  /** The row of an option after its one rule. */
  function ForgetfulRow(t: Table, j: nat): Row
    requires IsAbc(t) && j < 3
  {
    match j
    case 0 => t[0].(incongruously := t[1].switchOn)
    case 1 => t[1].(incongruously := t[0].switchOn)
    case _ => t[2].(switchOff := t[0].switchOn)
  }

  lemma ForgetfulRule(j: nat)
    requires j < 3
    ensures var r := FORGETFUL[j];
            && (r.Excludes? <==> j < 2) && (r.TurnsOff? <==> j == 2)
            && r.a == "abc"[j] && |r.others| == 1 && r.others[0] == (if j == 0 then 'b' else 'a')
  {
  }

  lemma ForgetfulStep(g: Config, j: nat)
    requires IsAbc(g.table) && j < 3 && g.table[j].incongruously == 0 && g.table[j].switchOff == 0
    ensures WellFormed(FORGETFUL[j], g.table)
    ensures var h := Declare(g, FORGETFUL[j]); IsAbc(h.table) && h == g.(table := g.table[j := ForgetfulRow(g.table, j)])
  {
    hide WellFormed, Declare, IndexOf, Or, AllWellFormed;
    var o := if j == 0 then 1 else 0;
    ForgetfulFits(g.table);
    ForgetfulRule(j);
    hide FORGETFUL;
    OneLetterRule(g, FORGETFUL[j], j, o);
    OrLaws(g.table[o].switchOn, 0, 0);
  }

  lemma ForgetfulRows(t: Table)
    requires IsAbc(t)
    ensures var t1 := t[0 := ForgetfulRow(t, 0)];
            var t2 := t1[1 := ForgetfulRow(t1, 1)];
            t2[2 := ForgetfulRow(t2, 2)] ==
            [t[0].(incongruously := t[1].switchOn), t[1].(incongruously := t[0].switchOn), t[2].(switchOff := t[0].switchOn)]
  {
    hide IndexOf;
  }

  lemma ForgetfulTable(g: Config)
    requires IsAbc(g.table) && forall i :: 0 <= i < 3 ==> g.table[i].incongruously == 0 && g.table[i].switchOff == 0
    ensures AllWellFormed(FORGETFUL, g.table)
    ensures DeclareAll(g, FORGETFUL) ==
            g.(table := [g.table[0].(incongruously := g.table[1].switchOn), g.table[1].(incongruously := g.table[0].switchOn),
                         g.table[2].(switchOff := g.table[0].switchOn)])
  {
    hide WellFormed, Declare, IndexOf, DeclareAll, AllWellFormed, ForgetfulRow;
    ForgetfulStep(g, 0);
    var h1 := Declare(g, FORGETFUL[0]);
    ForgetfulStep(h1, 1);
    var h2 := Declare(h1, FORGETFUL[1]);
    ForgetfulStep(h2, 2);
    ForgetfulDeclared(g, h1, h2);
    ForgetfulRows(g.table);
  }

  lemma AbcScan(table: Table)
    requires IsAbc(table) && table[0].switchOn == 1 && table[1].switchOn == 2 && table[2].switchOn == 4
    requires table[0].incongruously == 2 && table[1].incongruously == 1 && table[2].incongruously == 0
    requires table[0].switchOff == 0 && table[1].switchOff == 0 && table[2].switchOff == 1
    ensures Scan(table, 0, "ab") == None && Scan(table, 0, "acb") == Some(6)
  {
    hide IndexOf;
    assert "ab"[1..] == "b" && "acb"[1..] == "cb" && "cb"[1..] == "b" && "b"[1..] == "";
    assert Scan(table, 1, "b") == None;
    assert Scan(table, 6, "") == Some(6);
    assert Scan(table, 4, "b") == Scan(table, 6, "");
    assert Scan(table, 1, "cb") == Scan(table, 4, "b");
  }

  lemma ForgetfulRuns(g: Config, args: nat)
    requires IsAbc(g.table) && Fresh(g.table) && g == Config(g.table, 0, 0, false, false, false, 0, -1)
    ensures AllWellFormed(FORGETFUL, g.table)
    ensures Flags(DeclareAll(g, FORGETFUL), "ab", args) == None && Flags(DeclareAll(g, FORGETFUL), "acb", args) == Some(6)
  {
    ForgetfulTable(g);
    var h := DeclareAll(g, FORGETFUL);
    AbcKept(g.table, h.table);
    AbcScan(h.table);
  }

  /** "a--b:b--a:c-a": a and b are refused together, but a c in between clears a, and b goes through. */
  lemma Forgotten(args: nat)
    ensures RulesText(FORGETFUL) == "a--b:b--a:c-a"
    ensures CommandLine("abc", "a--b:b--a:c-a", "ab", args) == None
    ensures CommandLine("abc", "a--b:b--a:c-a", "acb", args) == Some(6)
  {
    hide Flags, DeclareAll, Conditions, Rows, IsAbc, Fresh;
    assert FORGETFUL[1..][1..] == [TurnsOff('c', "a")];
    ThreeLetters();
    StartIsFresh("abc");
    ForgetfulRuns(Start("abc"), args);
    RulesRead("", FORGETFUL, Start("abc"));
    assert "" + RulesText(FORGETFUL) == RulesText(FORGETFUL);
  }
}
