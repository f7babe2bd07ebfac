/** What "abc", "aa" and "V-" mean: options that bring others along, and options that only ask for the usage text. */
module Implications {
  import opened Json
  import opened Bits
  import opened GetOpt
  import opened OptionFlags
  import opened Exclusions

  // ---------------------------------------------------------------- options that bring others along

  lemma OneImplication(g: Config, r: Rule, c: char)
    requires SetsOwn(g.table) && WellFormed(r, g.table) && (r.Implies? || r.Counts?)
    requires c in r.others && IndexOf(g.table, c) < |g.table|
    ensures And(BitOf(c, g.table), MaskOf(r.a, Declare(g, r).table)) == BitOf(c, g.table)
  {
    hide And, Bit, Or, IndexOf, Masks;
    DeclareLetters(g, r);
    SameIndex(g.table, Declare(g, r).table, r.a);
    KnownInMasks(g.table, r.others, c);
    PartOfOr(BitOf(c, g.table), MaskOf(r.a, g.table), Masks(r.others, g.table));
  }

  /** A bit that an option sets is still set by it in a table that has grown. */
  lemma GrownMask(t: Table, u: Table, a: char, c: char)
    requires SetsOwn(t) && Grown(t, u) && IndexOf(t, c) < |t|
    ensures SetsOwn(u) && IndexOf(u, c) < |u| && BitOf(c, u) == BitOf(c, t)
    ensures And(BitOf(c, t), MaskOf(a, t)) == BitOf(c, t) ==> And(BitOf(c, t), MaskOf(a, u)) == BitOf(c, t)
  {
    hide And, Bit, IndexOf, ExcludedBy;
    GrownOption(t, u, a, c);
    BitIsSomething(IndexOf(t, c));
  }

  lemma BitIsSomething(i: nat)
    ensures i < 32 ==> And(Bit(i), 0) != Bit(i)
  {
    hide Bit, And;
    NotNothing(i);
  }

  /** A rule that is written is in the table, whatever other rules stand around it. */
  lemma {:induction false} ImplicationDeclared(g: Config, rules: seq<Rule>, k: nat, c: char)
    requires SetsOwn(g.table) && AllWellFormed(rules, g.table)
    requires k < |rules| && (rules[k].Implies? || rules[k].Counts?) && c in rules[k].others && IndexOf(g.table, c) < |g.table|
    ensures var t := DeclareAll(g, rules).table;
            && SetsOwn(t) && IndexOf(t, c) == IndexOf(g.table, c) < |t|
            && And(BitOf(c, t), MaskOf(rules[k].a, t)) == BitOf(c, t)
    decreases |rules|
  {
    hide WellFormed, Declare, Grown, SetsOwn, And, IndexOf, MaskOf, ExcludedBy;
    RestWellFormed(g, rules);
    var h, a := Declare(g, rules[0]), rules[k].a;
    DeclareGrows(g, rules[0]);
    GrownMask(g.table, h.table, a, c);
    GrownOption(g.table, h.table, a, c);
    if k == 0 {
      OneImplication(g, rules[0], c);
      AllGrow(h, rules[1..]);
      GrownMask(h.table, DeclareAll(h, rules[1..]).table, a, c);
      GrownOption(h.table, DeclareAll(h, rules[1..]).table, a, c);
    } else {
      ImplicationDeclared(h, rules[1..], k - 1, c);
    }
  }

  /** One of the rules says that a brings c along. */
  predicate Brings(rules: seq<Rule>, a: char, c: char) {
    exists k :: 0 <= k < |rules| && (rules[k].Implies? || rules[k].Counts?) && rules[k].a == a && c in rules[k].others
  }

  /** "abc", among any other conditions: if no option clears c's own bit, the flags have it whenever a is given. */
  lemma BroughtAlong(opts: string, rules: seq<Rule>, a: char, c: char, given: seq<char>, args: nat)
    requires AllWellFormed(rules, Start(opts).table) && Brings(rules, a, c) && a in given
    requires IndexOf(Start(opts).table, c) < |Start(opts).table|
    ensures SetsOwn(Final(opts, rules)) && IndexOf(Final(opts, rules), c) < |Final(opts, rules)|
    ensures var r, x := CommandLine(opts, RulesText(rules), given, args), BitOf(c, Final(opts, rules));
            r.Some? && NeverCleared(Final(opts, rules), x) ==> And(r.value, x) == x
  {
    hide WellFormed, IndexOf, And, Bit, Scan, NeverCleared, DeclareAll, RulesText, Start, CommandLine, MaskOf;
    var g, t := Start(opts), Final(opts, rules);
    StartSetsOwn(opts);
    var k :| 0 <= k < |rules| && (rules[k].Implies? || rules[k].Counts?) && rules[k].a == a && c in rules[k].others;
    ImplicationDeclared(g, rules, k, c);
    var x := BitOf(c, t);
    Scanned(opts, rules, given, args);
    if CommandLine(opts, RulesText(rules), given, args).Some? && NeverCleared(t, x) {
      var i :| 0 <= i < |given| && given[i] == a;
      var flags := Scan(t, DeclareAll(g, rules).flags, given).value;
      FlagsMeet(t, DeclareAll(g, rules).flags, given, x);
      AndTurns(x, MaskOf(given[i], t));
      BitWhole(IndexOf(t, c), 0);
      BitWhole(IndexOf(t, c), flags);
      AndTurns(flags, x);
    }
  }

  /** What goes through is what the scan gives. */
  lemma Scanned(opts: string, rules: seq<Rule>, given: seq<char>, args: nat)
    requires AllWellFormed(rules, Start(opts).table)
    ensures var r := CommandLine(opts, RulesText(rules), given, args);
            r.Some? ==> r == Scan(Final(opts, rules), DeclareAll(Start(opts), rules).flags, given)
  {
    hide WellFormed, Scan, Conditions, DeclareAll, RulesText, Rows, FirstLetter, Accepted;
    RulesRead("", rules, Start(opts));
    NoText(rules);
  }

  // ---------------------------------------------------------------- options that are counted

  predicate IsCounted(t: Table, a: char) {
    IndexOf(t, a) < |t| && t[IndexOf(t, a)].counts
  }

  predicate SameCounts(t: Table, u: Table) {
    |t| == |u| && forall k :: 0 <= k < |t| ==> t[k].counts == u[k].counts
  }

  lemma CountsKept(g: Config, k: nat, column: Column, mask: bv32, param: Param)
    requires k < |g.table|
    ensures SameCounts(g.table, SetColumn(g, k, column, mask).table) && SameCounts(g.table, SetParam(g, k, param).table)
    ensures SameCounts(g.table, SetUsage(g, k).table) && SameCounts(g.table, SetNeeded(g, k).table)
  {
    hide Or;
  }

  /** Row k has a counter now, if there is such a row; the others are as before. */
  predicate CountsToo(t: Table, u: Table, k: nat) {
    |t| == |u| && forall i :: 0 <= i < |t| ==> (u[i].counts <==> t[i].counts || i == k)
  }

  lemma CountsSet(g: Config, k: nat)
    requires k < |g.table|
    ensures CountsToo(g.table, SetCounts(g, k).table, k)
  {
  }

  lemma NoneToo(t: Table)
    ensures SameCounts(t, t) && forall u: Table :: SameCounts(t, u) ==> CountsToo(t, u, |t|)
  {
  }

  lemma CountsThen(t: Table, u: Table, w: Table, k: nat)
    requires CountsToo(t, u, k) && SameCounts(u, w)
    ensures CountsToo(t, w, k)
  {
  }

  /** The rows that have a counter after a rule. */
  lemma CountsAfter(g: Config, r: Rule)
    requires WellFormed(r, g.table)
    ensures r.Counts? ==> IndexOf(g.table, r.a) < |g.table|
    ensures CountsToo(g.table, Declare(g, r).table, if r.Counts? then IndexOf(g.table, r.a) else |g.table|)
  {
    hide IndexOf, Masks, SetColumn, SetParam, SetUsage, SetNeeded, SetCounts, SameCounts, CountsToo;
    NoneToo(g.table);
    match r
    case Implies(a, s) => CountsKept(g, IndexOf(g.table, a), OnColumn, Masks(s, g.table), IntParam);
    case Counts(a, s) =>
      var k := IndexOf(g.table, a);
      CountsSet(g, k);
      var h := SetCounts(g, k);
      CountsKept(h, k, OnColumn, Masks(s, g.table), IntParam);
      CountsThen(g.table, h.table, Declare(g, r).table, k);
    case TurnsOff(a, s) => CountsKept(g, IndexOf(g.table, a), OffColumn, Masks(s, g.table), IntParam);
    case Excludes(a, s) => CountsKept(g, IndexOf(g.table, a), ExclusionColumn, Masks(s, g.table), IntParam);
    case AsksFor(a, s) => CountsKept(g, IndexOf(g.table, a), NeedColumn, Masks(s, g.table), IntParam);
    case Required(a) => CountsKept(g, IndexOf(g.table, a), OnColumn, 0, IntParam);
    case ForUsage(a) => CountsKept(g, IndexOf(g.table, a), OnColumn, 0, IntParam);
    case IntArgument(a) => CountsKept(g, IndexOf(g.table, a), OnColumn, 0, IntParam);
    case ListArgument(a) => CountsKept(g, IndexOf(g.table, a), OnColumn, 0, ListParam);
    case _ =>
  }

  lemma OneCounts(g: Config, r: Rule, a: char)
    requires WellFormed(r, g.table)
    ensures IsCounted(Declare(g, r).table, a) <==> IsCounted(g.table, a) || (r.Counts? && r.a == a)
  {
    hide IndexOf, Declare, WellFormed;
    DeclareLetters(g, r);
    SameIndex(g.table, Declare(g, r).table, a);
    CountsAfter(g, r);
    if r.Counts? && IndexOf(g.table, a) == IndexOf(g.table, r.a) { LetterOf(g.table, a, r.a); }
  }

  lemma LetterOf(t: Table, a: char, b: char)
    requires IndexOf(t, a) == IndexOf(t, b) < |t|
    ensures a == b
  {
    hide IndexOf;
  }

  /** An option has a counter exactly if a rule that starts with its letter twice says so. */
  lemma {:induction false} CountsDeclared(g: Config, rules: seq<Rule>, a: char)
    requires AllWellFormed(rules, g.table)
    ensures IsCounted(DeclareAll(g, rules).table, a) <==>
            IsCounted(g.table, a) || exists k :: 0 <= k < |rules| && rules[k].Counts? && rules[k].a == a
    decreases |rules|
  {
    hide WellFormed, Declare, IsCounted;
    if rules != [] {
      RestWellFormed(g, rules);
      OneCounts(g, rules[0], a);
      CountsDeclared(Declare(g, rules[0]), rules[1..], a);
      forall k | 0 < k < |rules| ensures rules[k] == rules[1..][k - 1] { }
      if k :| 0 <= k < |rules[1..]| && rules[1..][k].Counts? && rules[1..][k].a == a { assert rules[k + 1] == rules[1..][k]; }
    }
  }

  // ---------------------------------------------------------------- options that ask for the usage text

  lemma FlagsDeclared(g: Config, r: Rule)
    requires WellFormed(r, g.table)
    ensures Declare(g, r).flags == if r.ForUsage? then Or(g.flags, MaskOf(r.a, g.table)) else g.flags
  {
    hide Or, IndexOf, Masks, SetColumn, SetParam, SetNeeded, SetCounts;
    OnlyTables(g, r);
  }

  lemma OnlyTables(g: Config, r: Rule)
    requires WellFormed(r, g.table)
    ensures !r.ForUsage? ==> Declare(g, r).flags == g.flags
  {
    hide Or, IndexOf, Masks, OrColumn;
  }

  lemma UsageExcludes(g: Config, r: Rule)
    requires WellFormed(r, g.table) && r.ForUsage?
    ensures ExcludedBy(Declare(g, r).table, r.a) == Or(ExcludedBy(g.table, r.a), MaskOf(r.a, g.table))
  {
    DeclareLetters(g, r);
    SameIndex(g.table, Declare(g, r).table, r.a);
    hide Or, IndexOf;
  }

  lemma OneFlagsGrow(g: Config, r: Rule, x: bv32)
    requires WellFormed(r, g.table)
    ensures And(x, g.flags) == x ==> And(x, Declare(g, r).flags) == x
    ensures r.ForUsage? && And(x, MaskOf(r.a, g.table)) == x ==> And(x, Declare(g, r).flags) == x
    ensures r.ForUsage? && And(x, MaskOf(r.a, g.table)) == x ==> And(x, ExcludedBy(Declare(g, r).table, r.a)) == x
  {
    hide *;
    FlagsDeclared(g, r);
    if r.ForUsage? {
      UsageExcludes(g, r);
      PartOfOr(x, g.flags, MaskOf(r.a, g.table));
      PartOfOr(x, ExcludedBy(g.table, r.a), MaskOf(r.a, g.table));
    }
  }

  lemma {:induction false} FlagsGrow(g: Config, rules: seq<Rule>, x: bv32)
    requires AllWellFormed(rules, g.table)
    ensures And(x, g.flags) == x ==> And(x, DeclareAll(g, rules).flags) == x
    decreases |rules|
  {
    hide WellFormed, Declare, And;
    if rules != [] {
      RestWellFormed(g, rules);
      OneFlagsGrow(g, rules[0], x);
      FlagsGrow(Declare(g, rules[0]), rules[1..], x);
    }
  }

  /** The option's own bit is set from the start, and it is refused while that is so. */
  lemma {:induction false} UsageDeclared(g: Config, rules: seq<Rule>, k: nat)
    requires SetsOwn(g.table) && AllWellFormed(rules, g.table) && k < |rules| && rules[k].ForUsage?
    ensures var h, a := DeclareAll(g, rules), rules[k].a;
            && SetsOwn(h.table) && IndexOf(h.table, a) < |h.table|
            && And(BitOf(a, h.table), h.flags) == BitOf(a, h.table) == And(BitOf(a, h.table), ExcludedBy(h.table, a))
    decreases |rules|
  {
    hide WellFormed, Declare, Grown, And, Bit, IndexOf, MaskOf, ExcludedBy;
    RestWellFormed(g, rules);
    var h, a := Declare(g, rules[0]), rules[k].a;
    DeclareGrows(g, rules[0]);
    if k == 0 {
      UsageIsKnown(g, rules[0]);
      GrownOption(g.table, h.table, a, a);
      KnownInMask(g.table, a);
      OneFlagsGrow(g, rules[0], BitOf(a, g.table));
      AllGrow(h, rules[1..]);
      SameBitWhole(g.table, h.table, a);
      GrownOption(h.table, DeclareAll(h, rules[1..]).table, a, a);
      SameBitWhole(h.table, DeclareAll(h, rules[1..]).table, a);
      FlagsGrow(h, rules[1..], BitOf(a, g.table));
    } else {
      GrownOption(g.table, h.table, a, a);
      UsageDeclared(h, rules[1..], k - 1);
    }
  }

  lemma UsageIsKnown(g: Config, r: Rule)
    requires WellFormed(r, g.table) && r.ForUsage?
    ensures IndexOf(g.table, r.a) < |g.table|
  {
    hide IndexOf;
  }

  lemma SameBitWhole(t: Table, u: Table, a: char)
    requires SetsOwn(t) && SetsOwn(u) && IndexOf(t, a) == IndexOf(u, a) < |t| == |u|
    ensures BitOf(a, t) == BitOf(a, u)
  {
    hide IndexOf, Bit, And;
  }

  /** "V-", among any other conditions: if no option clears V's own bit, no command line with V goes through. */
  lemma UsageRefused(opts: string, rules: seq<Rule>, v: char, given: seq<char>, args: nat)
    requires AllWellFormed(rules, Start(opts).table) && v in given
    requires exists k :: 0 <= k < |rules| && rules[k] == ForUsage(v)
    ensures SetsOwn(Final(opts, rules)) && IndexOf(Final(opts, rules), v) < |Final(opts, rules)|
    ensures NeverCleared(Final(opts, rules), BitOf(v, Final(opts, rules))) ==> CommandLine(opts, RulesText(rules), given, args) == None
  {
    hide WellFormed, IndexOf, And, Bit, Scan, NeverCleared, DeclareAll, RulesText, Start, CommandLine, MaskOf;
    var g, t := Start(opts), Final(opts, rules);
    StartSetsOwn(opts);
    var k :| 0 <= k < |rules| && rules[k] == ForUsage(v);
    UsageDeclared(g, rules, k);
    NotScanned(opts, rules, given, args);
    var flags, x := DeclareAll(g, rules).flags, BitOf(v, t);
    if NeverCleared(t, x) && Scan(t, flags, given).Some? {
      var j :| 0 <= j < |given| && given[j] == v;
      ScanPrefix(t, flags, given, j);
      ScanPrefix(t, flags, given, j + 1);
      assert given[..j + 1][..j] == given[..j];
      ScanLast(t, flags, given[..j + 1]);
      FlagsMeet(t, flags, given[..j], x);
      BitWhole(IndexOf(t, v), 0);
      AndTurns(x, flags);
      InMask(Scan(t, flags, given[..j]).value, x, ExcludedBy(t, v));
    }
  }
}
