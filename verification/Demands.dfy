/** What the conditions that ask for options or for arguments mean: which command lines they let through, and with which flags. */
module Demands {
  import opened Json
  import opened Bits
  import opened GetOpt
  import opened OptionFlags
  import opened Exclusions

  /** A rule that asks for something, or one that has no say in what is accepted. */
  predicate IsDemand(r: Rule) {
    || r.Required? || r.AsksFor? || r.AtLeast? || r.AtMost? || r.Exactly?
    || r.IntArgument? || r.ListArgument? || r.AllOptions? || r.FirstOption?
  }

  predicate OnlyDemands(rules: seq<Rule>) {
    forall r :: r in rules ==> IsDemand(r)
  }

  /** One of the rules says that a asks for c, alone or among others. */
  predicate Asks(rules: seq<Rule>, a: char, c: char) {
    exists k :: 0 <= k < |rules| && rules[k].AsksFor? && rules[k].a == a && c in rules[k].others
  }

  /** One of the rules says that c is required, alone or among others. */
  predicate Wants(rules: seq<Rule>, c: char) {
    exists k :: 0 <= k < |rules| && rules[k].Required? && rules[k].a == c
  }

  /** The fewest and the most arguments: what the last rule about them says. */
  function Least(rules: seq<Rule>, start: int): int
    decreases |rules|
  {
    if rules == [] then start
    else
      var r := rules[0];
      Least(rules[1..], if r.AtLeast? || r.Exactly? then r.digit as int - '0' as int else start)
  }

  function Most(rules: seq<Rule>, start: int): int
    decreases |rules|
  {
    if rules == [] then start
    else
      var r := rules[0];
      Most(rules[1..], if r.AtMost? || r.Exactly? then r.digit as int - '0' as int else start)
  }

  // ---------------------------------------------------------------- the table after such rules

  /** Options set their own bits, clear none and are refused after none. */
  predicate Open(table: Table) {
    OwnBits(table) && forall i :: 0 <= i < |table| ==> table[i].switchOff == 0 && table[i].incongruously == 0
  }

  function NeededBy(table: Table, a: char): bv32 {
    var k := IndexOf(table, a);
    if k < |table| then table[k].needs else 0
  }

  /** The bit of some option is among them, unless there are none at all. */
  ghost predicate Covered(mask: bv32, t: Table)
    requires OwnBits(t)
  {
    mask == 0 || exists c :: IndexOf(t, c) < |t| && And(mask, BitOf(c, t)) != 0
  }

  lemma OrKeeps(a: bv32, b: bv32, x: bv32)
    ensures And(a, x) != 0 || And(b, x) != 0 ==> And(Or(a, b), x) != 0
  {
    hide *;
    AndOr(a, b, x);
    OrIsZero(And(a, x), And(b, x));
  }

  lemma OrCovered(a: bv32, b: bv32, t: Table)
    requires OwnBits(t) && Covered(a, t) && Covered(b, t)
    ensures Covered(Or(a, b), t)
  {
    hide And, Or, Bit, BitOf, IndexOf;
    OrLaws(a, b, 0);
    OrLaws(0, 0, 0);
    if a != 0 {
      var c :| IndexOf(t, c) < |t| && And(a, BitOf(c, t)) != 0;
      OrKeeps(a, b, BitOf(c, t));
    } else if b != 0 {
      var c :| IndexOf(t, c) < |t| && And(b, BitOf(c, t)) != 0;
      OrKeeps(a, b, BitOf(c, t));
    }
  }

  lemma MaskCovered(t: Table, c: char)
    requires OwnBits(t)
    ensures Covered(MaskOf(c, t), t)
  {
    hide And, Bit, IndexOf;
    var k := IndexOf(t, c);
    if k < |t| {
      XorLaws(Bit(k));
      BitWhole(k, 0);
      assert And(MaskOf(c, t), BitOf(c, t)) != 0;
    }
  }

  lemma {:induction false} MasksCovered(t: Table, s: string)
    requires OwnBits(t)
    ensures Covered(Masks(s, t), t)
    decreases |s|
  {
    hide Covered, MaskOf, Or, Bit;
    if s == "" {
      NoneCovered(t);
    } else {
      MaskCovered(t, s[0]);
      MasksCovered(t, s[1..]);
      OrCovered(MaskOf(s[0], t), Masks(s[1..], t), t);
    }
  }

  lemma NoneCovered(t: Table)
    requires OwnBits(t)
    ensures Covered(0, t)
  {
  }

  lemma CoveredKept(mask: bv32, t: Table, u: Table)
    requires SameLetters(t, u) && Open(t) && Open(u) && Covered(mask, t)
    ensures Covered(mask, u)
  {
    hide And, Bit, BitOf, IndexOf;
    if mask != 0 {
      var c :| IndexOf(t, c) < |t| && And(mask, BitOf(c, t)) != 0;
      SameBitOf(t, u, c);
    }
  }

  /** The same letters, and in every row the same masks. */
  predicate SameMasks(t: Table, u: Table) {
    SameLetters(t, u) && forall i :: 0 <= i < |t| ==>
      && u[i].switchOn == t[i].switchOn && u[i].switchOff == t[i].switchOff
      && u[i].incongruously == t[i].incongruously && u[i].needs == t[i].needs
  }

  lemma SameMasksKeep(t: Table, u: Table, a: char)
    requires SameMasks(t, u) && Open(t)
    ensures Open(u) && NeededBy(u, a) == NeededBy(t, a)
  {
    hide Bit, IndexOf;
    SameIndex(t, u, a);
  }

  /** What one rule changes. */
  predicate Changed(g: Config, h: Config, needsOne: bv32, minArgs: int, maxArgs: int) {
    h.flags == g.flags && h.needsOne == needsOne && h.minArgs == minArgs && h.maxArgs == maxArgs
  }

  lemma RequiredDeclared(g: Config, r: Rule)
    requires WellFormed(r, g.table) && r.Required?
    ensures Changed(g, Declare(g, r), Or(g.needsOne, MaskOf(r.a, g.table)), g.minArgs, g.maxArgs) && SameMasks(g.table, Declare(g, r).table)
  {
    hide IndexOf, Or;
  }

  lemma OtherDeclared(g: Config, r: Rule)
    requires WellFormed(r, g.table) && IsDemand(r) && !r.AsksFor? && !r.Required?
    ensures Changed(g, Declare(g, r), g.needsOne, if r.AtLeast? || r.Exactly? then r.digit as int - '0' as int else g.minArgs,
                    if r.AtMost? || r.Exactly? then r.digit as int - '0' as int else g.maxArgs)
    ensures SameMasks(g.table, Declare(g, r).table)
  {
    hide IndexOf, SetParam;
    if r.IntArgument? {
      ParamKeeps(g, IndexOf(g.table, r.a), IntParam);
    } else if r.ListArgument? {
      ParamKeeps(g, IndexOf(g.table, r.a), ListParam);
    }
  }

  lemma ParamKeeps(g: Config, k: nat, param: Param)
    requires k < |g.table|
    ensures var h := SetParam(g, k, param);
            Changed(g, h, g.needsOne, g.minArgs, g.maxArgs) && SameMasks(g.table, h.table)
  {
  }

  lemma AskDeclared(g: Config, r: Rule)
    requires WellFormed(r, g.table) && r.AsksFor?
    ensures Changed(g, Declare(g, r), g.needsOne, g.minArgs, g.maxArgs) && SameLetters(g.table, Declare(g, r).table)
    ensures var t, u, k := g.table, Declare(g, r).table, IndexOf(g.table, r.a);
            k < |t| && u == t[k := t[k].(needs := Or(t[k].needs, Masks(r.others, t)))]
  {
    DeclareLetters(g, r);
    hide IndexOf, Or, Masks;
  }

  lemma AskKeeps(g: Config, r: Rule, a: char)
    requires Open(g.table) && WellFormed(r, g.table) && r.AsksFor?
    ensures Open(Declare(g, r).table)
    ensures NeededBy(Declare(g, r).table, a) ==
            if a == r.a then Or(NeededBy(g.table, a), Masks(r.others, g.table)) else NeededBy(g.table, a)
  {
    hide IndexOf, Or, Masks, Bit, Declare, WellFormed, SameLetters;
    AskDeclared(g, r);
    SameIndex(g.table, Declare(g, r).table, a);
    if IndexOf(g.table, a) == IndexOf(g.table, r.a) { SameLetter(g.table, a, r.a); }
  }

  lemma SameLetter(t: Table, a: char, b: char)
    requires IndexOf(t, a) == IndexOf(t, b) < |t|
    ensures a == b
  {
    hide IndexOf;
  }

  /** One rule more, seen at the bit of one option. */
  lemma OneDemand(g: Config, r: Rule, a: char, c: char)
    requires Open(g.table) && WellFormed(r, g.table) && IsDemand(r) && IndexOf(g.table, c) < |g.table|
    ensures var h, x := Declare(g, r), BitOf(c, g.table);
            && SameLetters(g.table, h.table) && Open(h.table) && h.flags == g.flags
            && And(NeededBy(h.table, a), x) == (if r.AsksFor? && r.a == a && c in r.others then x else And(NeededBy(g.table, a), x))
            && And(h.needsOne, x) == (if r.Required? && r.a == c then x else And(g.needsOne, x))
            && h.minArgs == Least([r], g.minArgs) && h.maxArgs == Most([r], g.maxArgs)
  {
    hide And, Or, Masks, MaskOf, IndexOf, Declare, WellFormed, NeededBy, Open, SameMasks;
    LimitsOfOne(r, g.minArgs, g.maxArgs);
    DeclareLetters(g, r);
    OpenOwns(g.table);
    if r.AsksFor? {
      AskDeclared(g, r);
      AskKeeps(g, r, a);
      MasksOf(g.table, r.others, c);
      AndOr(NeededBy(g.table, a), Masks(r.others, g.table), BitOf(c, g.table));
      InPart(NeededBy(g.table, a), IndexOf(g.table, c));
    } else if r.Required? {
      RequiredDeclared(g, r);
      SameMasksKeep(g.table, Declare(g, r).table, a);
      MaskIs(g.table, r.a, c);
      AndOr(g.needsOne, MaskOf(r.a, g.table), BitOf(c, g.table));
      InPart(g.needsOne, IndexOf(g.table, c));
    } else {
      OtherDeclared(g, r);
      SameMasksKeep(g.table, Declare(g, r).table, a);
    }
  }

  lemma OpenOwns(t: Table)
    requires Open(t)
    ensures OwnBits(t)
  {
  }

  lemma LimitsOfOne(r: Rule, start: int, end: int)
    ensures Least([r], start) == if r.AtLeast? || r.Exactly? then r.digit as int - '0' as int else start
    ensures Most([r], end) == if r.AtMost? || r.Exactly? then r.digit as int - '0' as int else end
  {
    assert [r][1..] == [];
  }

  lemma AsksStep(rules: seq<Rule>, a: char, c: char)
    requires rules != []
    ensures var r := rules[0];
            && (Asks(rules, a, c) <==> (r.AsksFor? && r.a == a && c in r.others) || Asks(rules[1..], a, c))
            && (Wants(rules, c) <==> (r.Required? && r.a == c) || Wants(rules[1..], c))
  {
    forall k | 0 < k < |rules| ensures rules[k] == rules[1..][k - 1] { }
    if Asks(rules[1..], a, c) {
      var k :| 0 <= k < |rules[1..]| && rules[1..][k].AsksFor? && rules[1..][k].a == a && c in rules[1..][k].others;
      assert rules[k + 1] == rules[1..][k];
    }
    if Wants(rules[1..], c) {
      var k :| 0 <= k < |rules[1..]| && rules[1..][k].Required? && rules[1..][k].a == c;
      assert rules[k + 1] == rules[1..][k];
    }
  }

  /** After such rules: what is asked for by a, what is required, and how many arguments. */
  lemma {:induction false} DemandsAre(g: Config, rules: seq<Rule>, a: char, c: char)
    requires Open(g.table) && AllWellFormed(rules, g.table) && OnlyDemands(rules) && IndexOf(g.table, c) < |g.table|
    ensures var h, x := DeclareAll(g, rules), BitOf(c, g.table);
            && SameLetters(g.table, h.table) && Open(h.table) && h.flags == g.flags
            && And(NeededBy(h.table, a), x) == (if Asks(rules, a, c) then x else And(NeededBy(g.table, a), x))
            && And(h.needsOne, x) == (if Wants(rules, c) then x else And(g.needsOne, x))
    decreases |rules|
  {
    hide And, BitOf, IndexOf, Declare, WellFormed, NeededBy, Open, Asks, Wants, IsDemand;
    if rules == [] {
      NoneAsk(a, c);
      SameAs(g.table);
    } else {
      var h := Declare(g, rules[0]);
      RestWellFormed(g, rules);
      OneDemand(g, rules[0], a, c);
      SameIndex(g.table, h.table, c);
      SameBitOf(g.table, h.table, c);
      DemandsAre(h, rules[1..], a, c);
      AsksStep(rules, a, c);
    }
  }

  lemma NoneAsk(a: char, c: char)
    ensures !Asks([], a, c) && !Wants([], c)
  {
  }

  lemma SameBitOf(t: Table, u: Table, c: char)
    requires SameLetters(t, u) && Open(t) && Open(u) && IndexOf(t, c) < |t|
    ensures IndexOf(u, c) < |u| && BitOf(c, t) == BitOf(c, u)
  {
    hide IndexOf, Bit;
    SameIndex(t, u, c);
  }

  /** And how many arguments; for a list of rules on its own. */
  lemma {:induction false} LimitsAre(g: Config, rules: seq<Rule>)
    requires Open(g.table) && AllWellFormed(rules, g.table) && OnlyDemands(rules)
    ensures var h := DeclareAll(g, rules);
            && SameLetters(g.table, h.table) && Open(h.table) && h.flags == g.flags
            && h.minArgs == Least(rules, g.minArgs) && h.maxArgs == Most(rules, g.maxArgs)
            && (Covered(g.needsOne, g.table) ==> Covered(h.needsOne, h.table))
            && (AllCovered(g.table) ==> AllCovered(h.table))
    decreases |rules|
  {
    hide Declare, WellFormed, IsDemand, Covered, AllCovered, Bit;
    if rules == [] {
      SameAs(g.table);
    } else {
      var h := Declare(g, rules[0]);
      RestWellFormed(g, rules);
      OneLimit(g, rules[0]);
      LimitsAre(h, rules[1..]);
      LettersOnward(g.table, h.table, DeclareAll(g, rules).table);
    }
  }

  lemma LettersOnward(t: Table, u: Table, v: Table)
    requires SameLetters(t, u) && SameLetters(u, v)
    ensures SameLetters(t, v)
  {
  }

  /** Every row's needs are bits of options. */
  ghost predicate AllCovered(t: Table)
    requires OwnBits(t)
  {
    forall i :: 0 <= i < |t| ==> Covered(t[i].needs, t)
  }

  lemma AllCoveredKept(t: Table, u: Table)
    requires SameLetters(t, u) && Open(t) && Open(u) && AllCovered(t)
    requires forall i :: 0 <= i < |t| ==> u[i].needs == t[i].needs || Covered(u[i].needs, t)
    ensures AllCovered(u)
  {
    hide Covered, Bit;
    forall i | 0 <= i < |u| ensures Covered(u[i].needs, u) { CoveredKept(u[i].needs, t, u); }
  }

  lemma OneLimit(g: Config, r: Rule)
    requires Open(g.table) && WellFormed(r, g.table) && IsDemand(r)
    ensures var h := Declare(g, r);
            && SameLetters(g.table, h.table) && Open(h.table) && h.flags == g.flags
            && h.minArgs == (if r.AtLeast? || r.Exactly? then r.digit as int - '0' as int else g.minArgs)
            && h.maxArgs == (if r.AtMost? || r.Exactly? then r.digit as int - '0' as int else g.maxArgs)
            && (Covered(g.needsOne, g.table) ==> Covered(h.needsOne, h.table))
            && (AllCovered(g.table) ==> AllCovered(h.table))
  {
    hide And, Or, Bit, Masks, MaskOf, IndexOf, Declare, WellFormed, NeededBy, Covered, SameLetters;
    var h := Declare(g, r);
    DeclareLetters(g, r);
    if r.AsksFor? {
      AskDeclared(g, r);
      AskKeeps(g, r, r.a);
      MasksCovered(g.table, r.others);
      if AllCovered(g.table) {
        OrCovered(g.table[IndexOf(g.table, r.a)].needs, Masks(r.others, g.table), g.table);
        AllCoveredKept(g.table, h.table);
      }
    } else if r.Required? {
      RequiredDeclared(g, r);
      SameMasksKeep(g.table, h.table, r.a);
      MaskCovered(g.table, r.a);
      if Covered(g.needsOne, g.table) { OrCovered(g.needsOne, MaskOf(r.a, g.table), g.table); }
      if AllCovered(g.table) { AllCoveredKept(g.table, h.table); }
    } else {
      OtherDeclared(g, r);
      SameMasksKeep(g.table, h.table, '?');
      if AllCovered(g.table) { AllCoveredKept(g.table, h.table); }
    }
    if Covered(h.needsOne, g.table) { CoveredKept(h.needsOne, g.table, h.table); }
  }

  // ---------------------------------------------------------------- which flags there are

  lemma AndZero(x: bv32)
    ensures And(x, 0) == 0 == And(0, x)
  {
    hide *;
    AndTurns(x, 0);
    NothingInZero(x);
  }

  lemma NoneExcluded(t: Table, c: char)
    requires Open(t)
    ensures ExcludedBy(t, c) == 0
  {
    hide IndexOf, Bit;
  }

  lemma NoneCleared(t: Table, mask: bv32)
    requires Open(t)
    ensures NeverCleared(t, mask)
  {
    hide And, Bit;
    AndZero(mask);
  }

  /** Without clearing and without exclusions, known options go through. */
  lemma OpenScan(t: Table, given: seq<char>)
    requires Open(t)
    ensures Scan(t, 0, given).Some? <==> AllKnown(t, given)
  {
    hide And, Bit, IndexOf, Scan, NeverCleared, ExcludedBy, Open;
    forall j | 0 <= j < |given| ensures NeverCleared(t, ExcludedBy(t, given[j])) { NoneCleared(t, ExcludedBy(t, given[j])); }
    ExclusionExact(t, 0, given);
    AndZero(0);
    forall j | 0 <= j < |given| ensures Allowed(t, 0, given, j) <==> IndexOf(t, given[j]) < |t| {
      NoneExcluded(t, given[j]);
      forall i | 0 <= i < j ensures And(MaskOf(given[i], t), 0) == 0 { AndZero(MaskOf(given[i], t)); }
    }
  }

  /** What the flags have in common with a mask comes from some option that was given. */
  lemma FlagsShare(t: Table, given: seq<char>, mask: bv32)
    requires Open(t) && Scan(t, 0, given).Some?
    ensures And(Scan(t, 0, given).value, mask) != 0 <==> exists i :: 0 <= i < |given| && And(MaskOf(given[i], t), mask) != 0
  {
    hide And, Bit, Scan, MaskOf, NeverCleared;
    NoneCleared(t, mask);
    AndZero(mask);
    FlagsMeet(t, 0, given, mask);
  }

  /** An option's bit is set exactly if the option was given. */
  lemma FlagsAre(t: Table, given: seq<char>, c: char)
    requires Open(t) && Scan(t, 0, given).Some? && IndexOf(t, c) < |t|
    ensures And(Scan(t, 0, given).value, BitOf(c, t)) != 0 <==> c in given
  {
    hide And, Bit, Scan, MaskOf, IndexOf, BitOf;
    FlagsShare(t, given, BitOf(c, t));
    OwnBit(t, c);
    forall i | 0 <= i < |given| ensures And(MaskOf(given[i], t), BitOf(c, t)) != 0 <==> given[i] == c { MaskIs(t, given[i], c); }
  }

  lemma OwnBit(t: Table, c: char)
    requires OwnBits(t) && IndexOf(t, c) < |t|
    ensures BitOf(c, t) != 0 && MaskOf(c, t) == BitOf(c, t)
  {
    hide IndexOf, Bit;
    BitWhole(IndexOf(t, c), 0);
  }

  /** Row i's bit is set exactly if an option that is found there was given. */
  lemma RowGiven(t: Table, given: seq<char>, i: nat)
    requires Open(t) && Scan(t, 0, given).Some? && AllKnown(t, given) && i < |t|
    ensures And(Scan(t, 0, given).value, t[i].switchOn) != 0 <==> exists j :: 0 <= j < |given| && IndexOf(t, given[j]) == i
  {
    hide And, Bit, Scan, IndexOf;
    FlagsShare(t, given, Bit(i));
    BitWhole(i, 0);
    XorLaws(Bit(i));
    forall j | 0 <= j < |given| ensures And(MaskOf(given[j], t), Bit(i)) != 0 <==> IndexOf(t, given[j]) == i {
      if IndexOf(t, given[j]) != i { BitsAnd(IndexOf(t, given[j]), i); }
    }
  }

  // ---------------------------------------------------------------- what is let through

  /** Some option that was given is among those that a rule names. */
  ghost predicate Met(given: seq<char>, named: char -> bool) {
    exists j :: 0 <= j < |given| && named(given[j])
  }

  /** A mask whose bits are those of the options that `named` holds of. */
  ghost predicate Stands(mask: bv32, t: Table, named: char -> bool)
    requires OwnBits(t)
  {
    Covered(mask, t) && forall c :: IndexOf(t, c) < |t| ==> And(mask, BitOf(c, t)) == if named(c) then BitOf(c, t) else 0
  }

  /** Such a mask asks for nothing exactly if no known option is named, and it is met exactly if one was given. */
  lemma StandsMet(mask: bv32, t: Table, named: char -> bool, given: seq<char>)
    requires Open(t) && Stands(mask, t, named) && Scan(t, 0, given).Some? && AllKnown(t, given)
    ensures mask != 0 <==> exists c :: IndexOf(t, c) < |t| && named(c)
    ensures And(Scan(t, 0, given).value, mask) != 0 <==> Met(given, named)
  {
    hide And, Bit, Scan, IndexOf, BitOf, MaskOf;
    AndZero(mask);
    FlagsShare(t, given, mask);
    forall c | IndexOf(t, c) < |t| ensures BitOf(c, t) != 0 && MaskOf(c, t) == BitOf(c, t) && And(BitOf(c, t), mask) == And(mask, BitOf(c, t)) && And(0, BitOf(c, t)) == 0 {
      OwnBit(t, c);
      AndTurns(BitOf(c, t), mask);
      AndZero(BitOf(c, t));
    }
  }

  /** The required options after the rules. */
  lemma WantsStand(g: Config, rules: seq<Rule>)
    requires Fresh(g.table) && g.needsOne == 0 && AllWellFormed(rules, g.table) && OnlyDemands(rules)
    ensures var h := DeclareAll(g, rules); Open(h.table) && Stands(h.needsOne, h.table, (c: char) => Wants(rules, c))
  {
    hide And, Bit, BitOf, IndexOf, DeclareAll, AllWellFormed, OnlyDemands, Wants, Covered, AllCovered, Asks, NeededBy, Declare;
    var h := DeclareAll(g, rules);
    FreshIsOpen(g.table);
    NoneCovered(g.table);
    LimitsAre(g, rules);
    forall c | IndexOf(h.table, c) < |h.table| ensures And(h.needsOne, BitOf(c, h.table)) == if Wants(rules, c) then BitOf(c, h.table) else 0 {
      SameIndex(g.table, h.table, c);
      DemandsAre(g, rules, c, c);
      SameBitOf(g.table, h.table, c);
      AndZero(BitOf(c, g.table));
    }
  }

  /** What option a asks for after the rules. */
  lemma AsksStand(g: Config, rules: seq<Rule>, a: char)
    requires Fresh(g.table) && AllWellFormed(rules, g.table) && OnlyDemands(rules) && IndexOf(g.table, a) < |g.table|
    ensures var h, i := DeclareAll(g, rules), IndexOf(g.table, a);
            Open(h.table) && i < |h.table| && Stands(h.table[i].needs, h.table, (c: char) => Asks(rules, a, c))
  {
    hide And, Bit, BitOf, IndexOf, DeclareAll, AllWellFormed, OnlyDemands, Wants, Covered, Asks, Declare;
    var h := DeclareAll(g, rules);
    FreshIsOpen(g.table);
    LimitsAre(g, rules);
    SameIndex(g.table, h.table, a);
    forall c | IndexOf(h.table, c) < |h.table|
      ensures And(NeededBy(h.table, a), BitOf(c, h.table)) == if Asks(rules, a, c) then BitOf(c, h.table) else 0
    {
      SameIndex(g.table, h.table, c);
      DemandsAre(g, rules, a, c);
      SameBitOf(g.table, h.table, c);
      AndZero(BitOf(c, g.table));
    }
  }

  lemma FreshIsOpen(t: Table)
    requires Fresh(t)
    ensures Open(t) && AllCovered(t) && forall a :: NeededBy(t, a) == 0
  {
    hide Bit, IndexOf, And, BitOf;
  }

  /** The options that are asked for: of each of them one was given, if any of them is known. */
  ghost predicate EachMet(t: Table, rules: seq<Rule>, given: seq<char>) {
    forall a :: a in given && (exists c :: IndexOf(t, c) < |t| && Asks(rules, a, c)) ==> exists d :: d in given && Asks(rules, a, d)
  }

  ghost predicate OneMet(rules: seq<Rule>, given: seq<char>) {
    (exists c :: Wants(rules, c)) ==> exists d :: d in given && Wants(rules, d)
  }

  predicate InLimits(rules: seq<Rule>, args: nat) {
    Least(rules, 0) <= args && (Most(rules, -1) >= 0 ==> args <= Most(rules, -1))
  }

  /** What the loop over the rows checks. */
  predicate RowsMet(t: Table, flags: bv32) {
    forall i :: 0 <= i < |t| ==> t[i].needs != 0 && And(flags, t[i].switchOn) != 0 ==> And(flags, t[i].needs) != 0
  }

  lemma RowsAreMet(g: Config, rules: seq<Rule>, given: seq<char>)
    requires Fresh(g.table) && AllWellFormed(rules, g.table) && OnlyDemands(rules)
    requires var t := DeclareAll(g, rules).table; Scan(t, 0, given).Some? && AllKnown(t, given)
    ensures var t := DeclareAll(g, rules).table;
            RowsMet(t, Scan(t, 0, given).value) <==> EachMet(g.table, rules, given)
  {
    hide And, Bit, IndexOf, DeclareAll, AllWellFormed, OnlyDemands, Asks, Scan, Fresh, Open, Stands, Covered;
    var h := DeclareAll(g, rules);
    var t, flags := h.table, Scan(h.table, 0, given).value;
    FreshIsOpen(g.table);
    LimitsAre(g, rules);
    forall i | 0 <= i < |t|
      ensures And(flags, t[i].switchOn) != 0 <==> exists j :: 0 <= j < |given| && IndexOf(t, given[j]) == i
    {
      RowGiven(t, given, i);
    }
    forall a | a in given
      ensures IndexOf(g.table, a) == IndexOf(t, a) < |t|
      ensures t[IndexOf(t, a)].needs != 0 <==> exists c :: IndexOf(g.table, c) < |g.table| && Asks(rules, a, c)
      ensures And(flags, t[IndexOf(t, a)].needs) != 0 <==> exists d :: d in given && Asks(rules, a, d)
    {
      SameIndex(g.table, t, a);
      OneAsked(g, rules, given, a);
    }
  }

  lemma OneAsked(g: Config, rules: seq<Rule>, given: seq<char>, a: char)
    requires Fresh(g.table) && AllWellFormed(rules, g.table) && OnlyDemands(rules) && IndexOf(g.table, a) < |g.table|
    requires var t := DeclareAll(g, rules).table; Scan(t, 0, given).Some? && AllKnown(t, given)
    ensures var t, i := DeclareAll(g, rules).table, IndexOf(g.table, a);
            && i < |t|
            && (t[i].needs != 0 <==> exists c :: IndexOf(g.table, c) < |g.table| && Asks(rules, a, c))
            && (And(Scan(t, 0, given).value, t[i].needs) != 0 <==> exists d :: d in given && Asks(rules, a, d))
  {
    hide And, Bit, IndexOf, DeclareAll, AllWellFormed, OnlyDemands, Asks, Scan, Fresh, Open, Stands, Covered;
    var t, i := DeclareAll(g, rules).table, IndexOf(g.table, a);
    FreshIsOpen(g.table);
    LimitsAre(g, rules);
    AsksStand(g, rules, a);
    var named := (c: char) => Asks(rules, a, c);
    StandsMet(t[i].needs, t, named, given);
    forall c | IndexOf(g.table, c) < |g.table| && Asks(rules, a, c) ensures named(c) && IndexOf(t, c) < |t| { SameIndex(g.table, t, c); }
    forall c | IndexOf(t, c) < |t| && named(c) ensures Asks(rules, a, c) && IndexOf(g.table, c) < |g.table| { SameIndex(g.table, t, c); }
  }

  lemma WantedMet(g: Config, rules: seq<Rule>, given: seq<char>)
    requires Fresh(g.table) && g.needsOne == 0 && AllWellFormed(rules, g.table) && OnlyDemands(rules)
    requires var t := DeclareAll(g, rules).table; Scan(t, 0, given).Some? && AllKnown(t, given)
    ensures var h := DeclareAll(g, rules);
            (h.needsOne != 0 ==> And(Scan(h.table, 0, given).value, h.needsOne) != 0) <==> OneMet(rules, given)
  {
    hide And, Bit, IndexOf, DeclareAll, WellFormed, OnlyDemands, Scan, Fresh, Open, Stands, Covered, Wants;
    var h := DeclareAll(g, rules);
    FreshIsOpen(g.table);
    LimitsAre(g, rules);
    WantsStand(g, rules);
    var named := (c: char) => Wants(rules, c);
    StandsMet(h.needsOne, h.table, named, given);
    forall c | Wants(rules, c) ensures named(c) && IndexOf(h.table, c) < |h.table| {
      WantedIsKnown(g.table, rules, c);
      SameIndex(g.table, h.table, c);
    }
    forall c | named(c) ensures Wants(rules, c) { }
  }

  lemma WantedIsKnown(t: Table, rules: seq<Rule>, c: char)
    requires AllWellFormed(rules, t) && Wants(rules, c)
    ensures IndexOf(t, c) < |t|
  {
    hide IndexOf;
    var k :| 0 <= k < |rules| && rules[k].Required? && rules[k].a == c;
    assert rules[k] in rules;
  }

  /**
   * With any list of such rules as the only conditions, a command line goes through if and only if its options are known,
   * one of those that are required is among them, each option has one of those it asks for, and the number of other
   * arguments is within the limits. The flags are then just the bits of the options that were given.
   */
  lemma OnlyDemandsDecide(opts: string, rules: seq<Rule>, given: seq<char>, args: nat)
    requires AllWellFormed(rules, Start(opts).table) && OnlyDemands(rules)
    ensures var t, r := Start(opts).table, CommandLine(opts, RulesText(rules), given, args);
            && |t| <= 32
            && (r.Some? <==> AllKnown(t, given) && OneMet(rules, given) && EachMet(t, rules, given) && InLimits(rules, args))
            && (r.Some? ==> forall c :: IndexOf(t, c) < |t| ==> (And(r.value, BitOf(c, t)) != 0 <==> c in given))
  {
    hide *;
    var g := Start(opts);
    StartIsFresh(opts);
    StartAsksNothing(opts);
    FreshIsOpen(g.table);
    OpenIsShort(g.table);
    RulesRead("", rules, g);
    Exclusions.NoText(rules);
    var h := DeclareAll(g, rules);
    LimitsAre(g, rules);
    OpenScan(h.table, given);
    SameKnown(g.table, h.table, given);
    LineIs(opts, rules, given, args);
    if AllKnown(g.table, given) {
      RowsAreMet(g, rules, given);
      WantedMet(g, rules, given);
      var flags := Scan(h.table, 0, given).value;
      AcceptedIs(h, flags, args);
      LimitsMeet(rules, args);
      forall c | IndexOf(g.table, c) < |g.table| ensures And(flags, BitOf(c, g.table)) != 0 <==> c in given {
        SameIndex(g.table, h.table, c);
        SameBitOf(g.table, h.table, c);
        FlagsAre(h.table, given, c);
      }
    }
  }

  lemma OpenIsShort(t: Table)
    requires Open(t)
    ensures |t| <= 32
  {
  }

  lemma StartAsksNothing(opts: string)
    ensures var g := Start(opts); g.needsOne == 0 && g.flags == 0 && g.minArgs == 0 && g.maxArgs == -1
  {
  }

  lemma LimitsMeet(rules: seq<Rule>, args: nat)
    ensures InLimits(rules, args) <==> args >= Least(rules, 0) && (Most(rules, -1) >= 0 ==> args <= Most(rules, -1))
  {
  }

  lemma AcceptedIs(g: Config, flags: bv32, args: nat)
    ensures Accepted(g, flags, args) <==>
            && RowsMet(g.table, flags) && (g.needsOne != 0 ==> And(flags, g.needsOne) != 0)
            && args >= g.minArgs && (g.maxArgs >= 0 ==> args <= g.maxArgs)
  {
    hide And;
  }

  lemma LineIs(opts: string, rules: seq<Rule>, given: seq<char>, args: nat)
    requires AllWellFormed(rules, Start(opts).table)
    requires Conditions(RulesText(rules), 0, Start(opts)) == Some(DeclareAll(Start(opts), rules))
    ensures var h := DeclareAll(Start(opts), rules);
            CommandLine(opts, RulesText(rules), given, args) ==
              var s := Scan(h.table, h.flags, given); if s.Some? && Accepted(h, s.value, args) then s else None
  {
    hide WellFormed, Scan, Accepted, DeclareAll, RulesText, Rows, Conditions, FirstLetter;
  }
}
