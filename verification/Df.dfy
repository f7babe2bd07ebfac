/** df's unit options -k, -m and -B: its own option strings make the last one given win. */
module Df {
  import opened Json
  import opened Bits
  import opened GetOpt
  import opened OptionFlags

  const RULES: seq<Rule> := [TurnsOff('k', ['m', 'B']), TurnsOff('m', ['B', 'k']), TurnsOff('B', ['k', 'm'])]

  lemma RulesWritten()
    ensures RulesText(RULES) == "k-mB:m-Bk:B-km"
  {
    assert RULES[1..][1..] == [TurnsOff('B', ['k', 'm'])];
  }

  predicate HasUnits(table: Table)
    ensures HasUnits(table) ==> IndexOf(table, 'k') < |table| && IndexOf(table, 'm') < |table| && IndexOf(table, 'B') < |table|
  {
    && IndexOf(table, 'k') < |table| && IndexOf(table, 'm') < |table| && IndexOf(table, 'B') < |table|
  }

  function UnitSet(table: Table): bv32
    requires Fresh(table) && HasUnits(table)
  {
    Or(Bit(IndexOf(table, 'k')), Or(Bit(IndexOf(table, 'm')), Bit(IndexOf(table, 'B'))))
  }

  lemma TwoMasks(table: Table, c: char, d: char)
    ensures Masks([c, d], table) == Or(MaskOf(c, table), MaskOf(d, table))
  {
    hide Or, MaskOf;
    assert [c, d][1..] == [d] && [d][1..] == [];
    assert Masks([d], table) == Or(MaskOf(d, table), 0);
    OrLaws(MaskOf(d, table), 0, 0);
  }

  /** Tables that differ in what row k switches off, where it had nothing to switch off before. */
  predicate OffOnly(t: Table, u: Table, k: nat, mask: bv32) {
    && SameLetters(t, u) && k < |t| && t[k].switchOff == 0
    && forall i :: 0 <= i < |t| ==> u[i].switchOn == t[i].switchOn && u[i].switchOff == if i == k then mask else t[i].switchOff
  }

  /** A rule of two letters on a row of its own. */
  lemma TwoOff(g: Config, a: char, c: char, d: char)
    requires WellFormed(TurnsOff(a, [c, d]), g.table) && g.table[IndexOf(g.table, a)].switchOff == 0
    ensures OffOnly(g.table, Declare(g, TurnsOff(a, [c, d])).table, IndexOf(g.table, a), Or(MaskOf(c, g.table), MaskOf(d, g.table)))
  {
    hide IndexOf, Or, MaskOf, Masks, WellFormed;
    KnownOf(TurnsOff(a, [c, d]), g.table);
    TwoMasks(g.table, c, d);
    OrLaws(Or(MaskOf(c, g.table), MaskOf(d, g.table)), 0, 0);
  }

  /** Only the rows k, m and b switch something off. */
  predicate ThreeRows(t: Table, u: Table, k: nat, m: nat, b: nat, x: bv32, y: bv32, z: bv32) {
    |u| == |t| &&
    forall i :: 0 <= i < |u| ==>
      u[i].switchOn == t[i].switchOn && u[i].switchOff == if i == k then x else if i == m then y else if i == b then z else 0
  }

  predicate NothingOff(t: Table) {
    forall i :: 0 <= i < |t| ==> t[i].switchOff == 0
  }

  lemma ThreeOff(t0: Table, t1: Table, t2: Table, t3: Table, k: nat, m: nat, b: nat, x: bv32, y: bv32, z: bv32)
    requires OffOnly(t0, t1, k, x) && OffOnly(t1, t2, m, y) && OffOnly(t2, t3, b, z) && k != m && k != b && m != b
    requires NothingOff(t0)
    ensures ThreeRows(t0, t3, k, m, b, x, y, z)
  {
  }

  lemma KnownOf(r: Rule, table: Table)
    requires WellFormed(r, table) && r.TurnsOff?
    ensures IndexOf(table, r.a) < |table|
  {
  }

  lemma SameMask(t: Table, u: Table, c: char)
    requires exists k, mask :: OffOnly(t, u, k, mask)
    ensures MaskOf(c, t) == MaskOf(c, u) && IndexOf(t, c) == IndexOf(u, c)
  {
    hide IndexOf;
    SameIndex(t, u, c);
  }

  lemma SameUnitMasks(t: Table, u: Table)
    requires exists k, mask :: OffOnly(t, u, k, mask)
    ensures SameLetters(t, u)
    ensures MaskOf('k', t) == MaskOf('k', u) && MaskOf('m', t) == MaskOf('m', u) && MaskOf('B', t) == MaskOf('B', u)
    ensures IndexOf(t, 'k') == IndexOf(u, 'k') && IndexOf(t, 'm') == IndexOf(u, 'm') && IndexOf(t, 'B') == IndexOf(u, 'B')
  {
    SameMask(t, u, 'k');
    SameMask(t, u, 'm');
    SameMask(t, u, 'B');
  }

  /** One of df's rules. */
  lemma OneRule(g: Config, a: char, c: char, d: char)
    requires HasUnits(g.table) && WellFormed(TurnsOff(a, [c, d]), g.table) && g.table[IndexOf(g.table, a)].switchOff == 0
    ensures var t := Declare(g, TurnsOff(a, [c, d])).table;
            && OffOnly(g.table, t, IndexOf(g.table, a), Or(MaskOf(c, g.table), MaskOf(d, g.table)))
            && HasUnits(t) && SameUnits(g.table, t)
  {
    hide IndexOf, Or, MaskOf, Declare, OffOnly, WellFormed;
    TwoOff(g, a, c, d);
    SameUnitMasks(g.table, Declare(g, TurnsOff(a, [c, d])).table);
  }

  lemma RulesFit(table: Table)
    requires HasUnits(table)
    ensures WellFormed(TurnsOff('k', ['m', 'B']), table) && WellFormed(TurnsOff('m', ['B', 'k']), table) && WellFormed(TurnsOff('B', ['k', 'm']), table)
    ensures AllWellFormed(RULES, table)
  {
    hide IndexOf;
  }

  /** Df's options stand in the same rows with the same masks. */
  predicate SameUnits(t: Table, u: Table)
    ensures SameUnits(t, u) ==> |t| == |u| && MaskOf('k', t) == MaskOf('k', u) && MaskOf('m', t) == MaskOf('m', u) && MaskOf('B', t) == MaskOf('B', u)
    ensures SameUnits(t, u) ==> IndexOf(t, 'k') == IndexOf(u, 'k') && IndexOf(t, 'm') == IndexOf(u, 'm') && IndexOf(t, 'B') == IndexOf(u, 'B')
  {
    && |t| == |u|
    && MaskOf('k', t) == MaskOf('k', u) && MaskOf('m', t) == MaskOf('m', u) && MaskOf('B', t) == MaskOf('B', u)
    && IndexOf(t, 'k') == IndexOf(u, 'k') && IndexOf(t, 'm') == IndexOf(u, 'm') && IndexOf(t, 'B') == IndexOf(u, 'B')
  }

  lemma FreshRows(table: Table)
    requires Fresh(table) && HasUnits(table)
    ensures NothingOff(table)
    ensures table[IndexOf(table, 'k')].switchOff == 0 && table[IndexOf(table, 'm')].switchOff == 0 && table[IndexOf(table, 'B')].switchOff == 0
  {
    hide IndexOf;
  }

  /** The table after df's three rules. */
  lemma TableAfter(g: Config)
    requires Fresh(g.table) && HasUnits(g.table)
    ensures AllWellFormed(RULES, g.table)
    ensures var t, k, m, b := DeclareAll(g, RULES).table, MaskOf('k', g.table), MaskOf('m', g.table), MaskOf('B', g.table);
            ThreeRows(g.table, t, IndexOf(g.table, 'k'), IndexOf(g.table, 'm'), IndexOf(g.table, 'B'), Or(m, b), Or(b, k), Or(k, m))
  {
    hide *;
    RulesFit(g.table);
    UnitsApart(g.table);
    FreshRows(g.table);
    var k, m, b := IndexOf(g.table, 'k'), IndexOf(g.table, 'm'), IndexOf(g.table, 'B');
    OneRule(g, 'k', 'm', 'B');
    var h1 := Declare(g, TurnsOff('k', ['m', 'B']));
    OffElsewhere(g.table, h1.table, k, m);
    OffElsewhere(g.table, h1.table, k, b);
    RulesFit(h1.table);
    OneRule(h1, 'm', 'B', 'k');
    var h2 := Declare(h1, TurnsOff('m', ['B', 'k']));
    OffElsewhere(h1.table, h2.table, m, b);
    RulesFit(h2.table);
    OneRule(h2, 'B', 'k', 'm');
    var h3 := Declare(h2, TurnsOff('B', ['k', 'm']));
    ThreeDeclared(g, h1, h2, h3);
    ThreeOff(g.table, h1.table, h2.table, h3.table, k, m, b,
             Or(MaskOf('m', g.table), MaskOf('B', g.table)), Or(MaskOf('B', g.table), MaskOf('k', g.table)),
             Or(MaskOf('k', g.table), MaskOf('m', g.table)));
  }

  lemma OffElsewhere(t: Table, u: Table, k: nat, i: nat)
    requires (exists mask :: OffOnly(t, u, k, mask)) && i < |t| && i != k
    ensures |u| == |t| && u[i].switchOff == t[i].switchOff
  {
  }

  lemma UnitsApart(table: Table)
    requires HasUnits(table)
    ensures IndexOf(table, 'k') != IndexOf(table, 'm')
    ensures IndexOf(table, 'm') != IndexOf(table, 'B')
    ensures IndexOf(table, 'k') != IndexOf(table, 'B')
  {
  }

  lemma ThreeDeclared(g: Config, h1: Config, h2: Config, h3: Config)
    requires AllWellFormed(RULES, g.table)
    requires WellFormed(TurnsOff('k', ['m', 'B']), g.table) && h1 == Declare(g, TurnsOff('k', ['m', 'B']))
    requires AllWellFormed(RULES, h1.table) && WellFormed(TurnsOff('m', ['B', 'k']), h1.table) && h2 == Declare(h1, TurnsOff('m', ['B', 'k']))
    requires AllWellFormed(RULES, h2.table) && WellFormed(TurnsOff('B', ['k', 'm']), h2.table) && h3 == Declare(h2, TurnsOff('B', ['k', 'm']))
    ensures DeclareAll(g, RULES) == h3
  {
    hide WellFormed, Declare;
    assert RULES[1..] == [RULES[1], RULES[2]];
    assert RULES[1..][1..] == [RULES[2]];
    assert [RULES[2]][1..] == [];
  }

  /** The conditions df writes make its three unit options switch each other off. */
  lemma UnitsSwitchEachOther(g: Config)
    requires Fresh(g.table) && HasUnits(g.table)
    ensures AllWellFormed(RULES, g.table) && Conditions("k-mB:m-Bk:B-km", 0, g) == Some(DeclareAll(g, RULES))
    ensures SwitchEachOther(Conditions("k-mB:m-Bk:B-km", 0, g).value.table, UnitSet(g.table))
  {
    hide IndexOf, And, Or, Bit, Conditions, DeclareAll;
    RulesWritten();
    TableAfter(g);
    RulesRead("", RULES, g);
    assert "" + RulesText(RULES) == RulesText(RULES);
    var t := DeclareAll(g, RULES).table;
    forall i | 0 <= i < |t| ensures OneOf(t[i], UnitSet(g.table)) {
      UnitRow(g.table, t[i], i);
    }
  }

  lemma UnitRow(table: Table, row: Row, i: nat)
    requires Fresh(table) && HasUnits(table) && i < |table| <= 32 && row.switchOn == Bit(i)
    requires var k, m, b := IndexOf(table, 'k'), IndexOf(table, 'm'), IndexOf(table, 'B');
             row.switchOff == if i == k then Or(Bit(m), Bit(b)) else if i == m then Or(Bit(b), Bit(k))
                              else if i == b then Or(Bit(k), Bit(m)) else 0
    ensures OneOf(row, UnitSet(table))
  {
    hide *;
    UnitsApart(table);
    UnitBits(table);
    var k, m, b := IndexOf(table, 'k'), IndexOf(table, 'm'), IndexOf(table, 'B');
    if i == k {
      RowOfUnit(row, UnitSet(table), k, m, b);
    } else if i == m {
      RowOfUnit(row, UnitSet(table), m, b, k);
    } else if i == b {
      RowOfUnit(row, UnitSet(table), b, k, m);
    } else {
      OtherRow(row, UnitSet(table), i, k, m, b);
    }
  }

  lemma RowOfUnit(row: Row, units: bv32, x: nat, y: nat, z: nat)
    requires x < 32 && y < 32 && z < 32 && x != y && x != z
    requires row.switchOn == Bit(x) && row.switchOff == Or(Bit(y), Bit(z)) && units == Or(Bit(x), Or(Bit(y), Bit(z)))
    ensures OneOf(row, units)
  {
    hide *;
    OneUnit(x, y, z);
    OneOfRow(row, units);
  }

  lemma OtherRow(row: Row, units: bv32, i: nat, x: nat, y: nat, z: nat)
    requires i < 32 && x < 32 && y < 32 && z < 32 && i != x && i != y && i != z
    requires row.switchOn == Bit(i) && row.switchOff == 0 && units == Or(Bit(x), Or(Bit(y), Bit(z)))
    ensures OneOf(row, units)
  {
    hide *;
    BitsAnd(i, x);
    BitsAnd(i, y);
    BitsAnd(i, z);
    FourthOneOf(Bit(x), Bit(y), Bit(z), Bit(i));
    OneOfRow(row, units);
  }

  lemma OneUnit(x: nat, y: nat, z: nat)
    requires x < 32 && y < 32 && z < 32 && x != y && x != z
    ensures OneOfBits(Bit(x), Or(Bit(y), Bit(z)), Or(Bit(x), Or(Bit(y), Bit(z))))
  {
    hide *;
    BitsAnd(x, y);
    BitsAnd(x, z);
    OneOfThree(Bit(x), Bit(y), Bit(z));
  }

  lemma Turned(x: bv32, y: bv32, z: bv32)
    ensures Or(y, Or(z, x)) == Or(x, Or(y, z))
  {
    hide *;
    OrLaws(y, z, x);
    OrLaws(Or(y, z), x, 0);
  }

  lemma UnitBits(table: Table)
    requires Fresh(table) && HasUnits(table)
    ensures |table| <= 32
    ensures var k, m, b := Bit(IndexOf(table, 'k')), Bit(IndexOf(table, 'm')), Bit(IndexOf(table, 'B'));
            UnitSet(table) == Or(k, Or(m, b)) == Or(m, Or(b, k)) == Or(b, Or(k, m))
  {
    hide IndexOf, Or, Bit;
    var k, m, b := Bit(IndexOf(table, 'k')), Bit(IndexOf(table, 'm')), Bit(IndexOf(table, 'B'));
    Turned(k, m, b);
    Turned(m, b, k);
  }

  lemma OneOfRow(row: Row, set_: bv32)
    ensures OneOf(row, set_) <==> OneOfBits(row.switchOn, row.switchOff, set_)
  {
    hide OneOfBits;
  }

  const OPTIONS: string := "kPaiB:hm"

  /** The rows have the letters of s from k on. */
  predicate Spells(table: Table, s: string, k: nat)
    requires k <= |s|
  {
    |table| == |s| - k && forall i :: 0 <= i < |table| ==> table[i].letter == s[k + i]
  }

  /** One more row, for a letter that has at most one colon after it. */
  lemma RowStep(opts: string, i: nat, n: nat, s: string, k: nat)
    requires i < |opts| && opts[i] != NUL && n < 32 && (At(opts, i + 1) == ':' ==> At(opts, i + 2) != ':')
    requires k < |s| && s[k] == opts[i]
    requires Spells(Rows(opts, if At(opts, i + 1) == ':' then i + 2 else i + 1, n + 1), s, k + 1)
    ensures Spells(Rows(opts, i, n), s, k)
  {
    hide Bit;
    if At(opts, i + 1) == ':' { assert AfterColons(opts, i + 1) == AfterColons(opts, i + 2); }
  }

  lemma OptionsSpelled()
    ensures Spells(Start(OPTIONS).table, "kPaiBhm", 0)
  {
    hide Rows, Spells;
    assert FirstLetter(OPTIONS) == 0;
    EightSpelled(OPTIONS, "kPaiBhm");
  }

  lemma EightSpelled(opts: string, s: string)
    requires |opts| == 8 && |s| == 7 && opts[5] == ':'
    requires opts[..5] == s[..5] && opts[6] == s[5] && opts[7] == s[6] && forall i :: 0 <= i < 7 ==> s[i] != NUL && s[i] != ':'
    ensures Spells(Rows(opts, 0, 0), s, 0)
  {
    forall i | 0 <= i < 5 ensures opts[i] == s[i] { assert opts[..5][i] == s[..5][i]; }
    assert Spells(Rows(opts, 8, 7), s, 7);
    hide Rows, Spells;
    RowStep(opts, 7, 6, s, 6);
    RowStep(opts, 6, 5, s, 5);
    RowStep(opts, 4, 4, s, 4);
    PlainLetters(opts, s, 4);
  }

  /** Letters without colons in front of rows that are spelled already. */
  lemma {:induction false} PlainLetters(opts: string, s: string, k: nat)
    requires k < |opts| && k < |s| && k < 32 && (forall i :: 0 <= i <= k ==> opts[i] == s[i] && s[i] != NUL && s[i] != ':')
    requires Spells(Rows(opts, k, k), s, k)
    ensures Spells(Rows(opts, 0, 0), s, 0)
  {
    hide Rows, Spells;
    if k > 0 {
      RowStep(opts, k - 1, k - 1, s, k - 1);
      PlainLetters(opts, s, k - 1);
    }
  }

  /** Where df's three unit options stand. */
  lemma UnitsAt()
    ensures var t := Start(OPTIONS).table;
            |t| == 7 && IndexOf(t, 'k') == 0 && IndexOf(t, 'B') == 4 && IndexOf(t, 'm') == 6
  {
    hide Start, IndexOf;
    OptionsSpelled();
    var t := Start(OPTIONS).table;
    IndexIs(t, 'k', 0);
    IndexIs(t, 'B', 4);
    IndexIs(t, 'm', 6);
  }

  lemma IndexIs(table: Table, c: char, k: nat)
    requires k < |table| && table[k].letter == c && forall i :: 0 <= i < k ==> table[i].letter != c
    ensures IndexOf(table, c) == k
  {
  }

  /** Rules that only turn options off leave the rest as it was. */
  lemma {:induction false} OffsKeep(g: Config, rules: seq<Rule>)
    requires AllWellFormed(rules, g.table) && forall r :: r in rules ==> r.TurnsOff?
    ensures var h := DeclareAll(g, rules);
            h.flags == g.flags && SameLetters(g.table, h.table) && forall i :: 0 <= i < |g.table| ==> h.table[i].switchOn == g.table[i].switchOn
    decreases |rules|
  {
    hide IndexOf, Masks, WellFormed;
    if rules != [] {
      RestWellFormed(g, rules);
      KnownOf(rules[0], g.table);
      DeclareLetters(g, rules[0]);
      OffsKeep(Declare(g, rules[0]), rules[1..]);
    }
  }

  /** The flags of df's unit options. */
  function UnitBit(c: char): bv32 {
    if c == 'k' then 0x01 else if c == 'm' then 0x40 else if c == 'B' then 0x10 else 0
  }

  /** The flag of the last unit option among those given. */
  function LastUnit(given: seq<char>): bv32 {
    if given == [] then 0
    else
      var last := |given| - 1;
      if UnitBit(given[last]) != 0 then UnitBit(given[last]) else LastUnit(given[..last])
  }

  /** The letters and the bits of df's table. */
  predicate Layout(table: Table) {
    && |table| == 7 && IndexOf(table, 'k') == 0 && IndexOf(table, 'B') == 4 && IndexOf(table, 'm') == 6
    && forall i :: 0 <= i < 7 ==> table[i].switchOn == Bit(i)
  }

  lemma UnitOf(table: Table, c: char)
    requires Layout(table)
    ensures And(MaskOf(c, table), 0x51) == UnitBit(c)
  {
    hide And, Bit;
    var i := IndexOf(table, c);
    if i < 7 { DfBit(i); } else { NothingInZero(0x51); }
  }

  lemma {:induction false} LastGivenUnit(table: Table, given: seq<char>)
    requires Layout(table)
    ensures LastGiven(table, 0x51, given, 0) == LastUnit(given)
  {
    hide And, MaskOf, Layout;
    if given != [] {
      UnitOf(table, given[|given| - 1]);
      LastGivenUnit(table, given[..|given| - 1]);
    }
  }

  /** Whatever df is given, its flags hold that one of -k, -m and -B that was given last, and none of the other two. */
  lemma LastUnitWins(given: seq<char>, args: nat)
    ensures var r := CommandLine(OPTIONS, "k-mB:m-Bk:B-km", given, args); r.Some? ==> And(r.value, 0x51) == LastUnit(given)
  {
    hide Conditions, Scan, Accepted, IndexOf, Rows, FirstLetter, SwitchEachOther, DeclareAll;
    hide And, Or, Bit, WellFormed, LastUnit, LastGiven;
    var g := Start(OPTIONS);
    StartIsFresh(OPTIONS);
    UnitsAt();
    UnitsSwitchEachOther(g);
    OffsKeep(g, RULES);
    var h := DeclareAll(g, RULES);
    SameIndex(g.table, h.table, 'k');
    SameIndex(g.table, h.table, 'm');
    SameIndex(g.table, h.table, 'B');
    DfBit(0);
    NothingInZero(0x51);
    if Scan(h.table, 0, given).Some? {
      LastWins(h.table, 0x51, 0, given);
      LastGivenUnit(h.table, given);
    }
  }
}
