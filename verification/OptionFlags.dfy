/** The flags that a command line ends with, and what the conditions make of any sequence of options. */
module OptionFlags {
  import opened Json
  import opened Bits
  import opened GetOpt

  // ---------------------------------------------------------------- the flags

  /** The flags after the options that getopt has delivered; None on a bad or a forbidden one. */
  function Scan(table: Table, flags: bv32, given: seq<char>): (r: Option<bv32>)
    decreases |given|
  {
    if given == [] then Some(flags) else
    var k := IndexOf(table, given[0]);
    if k == |table| || And(flags, table[k].incongruously) != 0 then None
    else Scan(table, Switch(table[k].switchOn, table[k].switchOff, flags), given[1..])
  }

  /** The checks after the loop, on the flags and the number of other arguments. */
  predicate Accepted(g: Config, flags: bv32, args: nat) {
    && (forall i :: 0 <= i < |g.table| ==> g.table[i].needs != 0 && And(flags, g.table[i].switchOn) != 0 ==> And(flags, g.table[i].needs) != 0)
    && (g.needsOne != 0 ==> And(flags, g.needsOne) != 0)
    && args >= g.minArgs && (g.maxArgs >= 0 ==> args <= g.maxArgs)
  }

  function Flags(g: Config, given: seq<char>, args: nat): Option<bv32> {
    match Scan(g.table, g.flags, given)
    case None => None
    case Some(flags) => if Accepted(g, flags, args) then Some(flags) else None
  }

  /** How often row k was given. */
  function Times(table: Table, given: seq<char>, k: nat): nat {
    if given == [] then 0
    else Times(table, given[..|given| - 1], k) + if IndexOf(table, given[|given| - 1]) == k then 1 else 0
  }

  /** The loop over getopt. */
  method ScanOptions(g: Config, given: seq<char>) returns (r: Option<bv32>, counters: seq<nat>)
    ensures r == Scan(g.table, g.flags, given)
    ensures |counters| == |g.table|
    ensures r.Some? ==> forall k :: 0 <= k < |g.table| ==> counters[k] == if g.table[k].counts then Times(g.table, given, k) else 0
  {
    hide IndexOf, Switch, And;
    var flags, i := g.flags, 0;
    counters := seq(|g.table|, _ => 0);
    assert given[0..] == given;
    while i < |given|
      invariant 0 <= i <= |given| && |counters| == |g.table|
      invariant Scan(g.table, flags, given[i..]) == Scan(g.table, g.flags, given)
      invariant forall k :: 0 <= k < |g.table| ==> counters[k] == if g.table[k].counts then Times(g.table, given[..i], k) else 0
    {
      assert given[..i + 1][..i] == given[..i];
      assert given[i..][0] == given[i] && given[i..][1..] == given[i + 1..];
      var k := Search(g.table, given[i]);
      if k == |g.table| || And(flags, g.table[k].incongruously) != 0 { return None, counters; }
      flags := Switch(g.table[k].switchOn, g.table[k].switchOff, flags);
      if g.table[k].counts { counters := counters[k := counters[k] + 1]; }
      i := i + 1;
    }
    assert given[..i] == given;
    r := Some(flags);
  }

  /** The loop over getopt and the checks after it; None stands for the error return. */
  method ReadOptions(g: Config, given: seq<char>, args: nat) returns (r: Option<bv32>, counters: seq<nat>)
    ensures r == Flags(g, given, args)
    ensures r.Some? ==> |counters| == |g.table|
    ensures r.Some? ==> forall k :: 0 <= k < |g.table| ==> counters[k] == if g.table[k].counts then Times(g.table, given, k) else 0
  {
    hide Scan, And, Times;
    r, counters := ScanOptions(g, given);
    if r == None { return; }
    var flags, i := r.value, 0;
    while i < |g.table|
      invariant 0 <= i <= |g.table|
      invariant forall j :: 0 <= j < i ==> g.table[j].needs != 0 && And(flags, g.table[j].switchOn) != 0 ==> And(flags, g.table[j].needs) != 0
    {
      if g.table[i].needs != 0 && And(flags, g.table[i].switchOn) != 0 && And(flags, g.table[i].needs) == 0 { return None, counters; }
      i := i + 1;
    }
    if g.needsOne != 0 && And(flags, g.needsOne) == 0 { return None, counters; }
    if args < g.minArgs || (g.maxArgs >= 0 && args > g.maxArgs) { return None, counters; }
    r := Some(flags);
  }

  /** What getopt32 knows before it reads the conditions. */
  function Start(opts: string): Config {
    Config(Rows(opts, FirstLetter(opts), 0), 0, 0, false, false, false, 0, -1)
  }

  /** getopt32 as a whole: option letters, conditions, the options given and the number of other arguments. */
  function CommandLine(opts: string, conditions: string, given: seq<char>, args: nat): Option<bv32> {
    match Conditions(conditions, 0, Start(opts))
    case None => None
    case Some(g) => Flags(g, given, args)
  }

  method GetOpt32(opts: string, conditions: string, given: seq<char>, args: nat) returns (r: Option<bv32>)
    ensures r == CommandLine(opts, conditions, given, args)
  {
    hide Rows, Conditions, Flags;
    var table := BuildTable(opts);
    var g := ReadConditions(conditions, Config(table, 0, 0, false, false, false, 0, -1));
    if g == None { return None; }
    var counters;
    r, counters := ReadOptions(g.value, given, args);
  }

  /** A table as BuildTable leaves it. */
  predicate Fresh(table: Table) {
    |table| <= 32 && forall i :: 0 <= i < |table| ==>
      table[i].switchOn == Bit(i) && table[i].switchOff == 0 && table[i].incongruously == 0 && table[i].needs == 0
  }

  lemma StartIsFresh(opts: string)
    ensures Fresh(Start(opts).table)
  {
    hide Bit, Rows;
    RowsFresh(opts, FirstLetter(opts), 0);
  }

  /** Rows have their own bit each and nothing else yet. */
  lemma {:induction false} RowsFresh(s: string, i: nat, n: nat)
    requires i <= |s| && n <= 32
    ensures forall a :: 0 <= a < |Rows(s, i, n)| ==>
              var row := Rows(s, i, n)[a];
              row.switchOn == Bit(n + a) && row.switchOff == 0 && row.incongruously == 0 && row.needs == 0
    decreases |s| - i
  {
    hide Bit, AfterColons;
    if At(s, i) != NUL && n < 32 {
      var rest := Rows(s, AfterColons(s, i + 1), n + 1);
      RowsFresh(s, AfterColons(s, i + 1), n + 1);
      assert forall a :: 0 < a < |Rows(s, i, n)| ==> Rows(s, i, n)[a] == rest[a - 1];
    }
  }

  // ---------------------------------------------------------------- the option letters

  /** An option as the program names it: its letter, and colons if it takes an argument. */
  datatype Declared = Declared(letter: char, colons: string)

  predicate IsOption(o: Declared) {
    o.letter != NUL && o.letter != ':' && forall i :: 0 <= i < |o.colons| ==> o.colons[i] == ':'
  }

  function OptionsText(os: seq<Declared>): string {
    if os == [] then "" else [os[0].letter] + os[0].colons + OptionsText(os[1..])
  }

  lemma {:induction false} ColonsOver(s: string, i: nat, j: nat)
    requires i <= j <= |s| && (forall k :: i <= k < j ==> s[k] == ':') && At(s, j) != ':'
    ensures AfterColons(s, i) == j
    decreases j - i
  {
    if i < j { ColonsOver(s, i + 1, j); }
  }

  /** The options from the text's place i on are those. */
  predicate OptionsAt(s: string, i: nat, os: seq<Declared>) {
    i <= |s| && s[i..] == OptionsText(os)
  }

  lemma OptionsStep(s: string, i: nat, os: seq<Declared>)
    requires OptionsAt(s, i, os) && (forall o :: o in os ==> IsOption(o))
    ensures os == [] ==> At(s, i) == NUL
    ensures os != [] ==>
              && i < |s| && s[i] == os[0].letter && (At(s, i + 1) == ':' <==> os[0].colons != "")
              && AfterColons(s, i + 1) == i + 1 + |os[0].colons| && OptionsAt(s, i + 1 + |os[0].colons|, os[1..])
  {
    if os != [] {
      var o, rest := os[0], OptionsText(os[1..]);
      assert o in os && IsOption(o);
      var j := i + 1 + |o.colons|;
      assert s[i..] == [o.letter] + o.colons + rest;
      NextLetter(os[1..]);
      hide OptionsText;
      assert s[i] == s[i..][0] && s[j..] == s[i..][1 + |o.colons|..] == rest;
      forall k | i + 1 <= k < j ensures s[k] == ':' { assert s[k] == s[i..][k - i] == o.colons[k - i - 1]; }
      assert j < |s| ==> s[j] == s[j..][0] == rest[0];
      ColonsOver(s, i + 1, j);
    }
  }

  lemma NextLetter(os: seq<Declared>)
    requires forall o :: o in os ==> IsOption(o)
    ensures OptionsText(os) != "" ==> OptionsText(os)[0] != ':'
  {
    if os != [] { assert os[0] in os; }
  }

  /** The row of the n-th option letter. */
  predicate IsRowOf(row: Row, o: Declared, n: nat)
    requires n < 32
  {
    row.letter == o.letter && row.switchOn == Bit(n) && (row.takesArg <==> o.colons != "")
  }

  lemma {:induction false} RowsRead(s: string, i: nat, os: seq<Declared>, n: nat)
    requires OptionsAt(s, i, os) && (forall o :: o in os ==> IsOption(o)) && n <= 32
    ensures |Rows(s, i, n)| == if |os| <= 32 - n then |os| else 32 - n
    ensures forall k :: 0 <= k < |Rows(s, i, n)| ==> IsRowOf(Rows(s, i, n)[k], os[k], n + k)
    decreases |os|
  {
    hide Bit, OptionsText, AfterColons, OptionsAt, Rows, IsRowOf;
    OptionsStep(s, i, os);
    if os == [] || n == 32 {
      WithinText(s, i, os);
      NoRows(s, i, n);
    } else {
      assert os[0] in os && os[0].letter != NUL;
      RowsStep(s, i, n);
      FirstRow(s, i, os[0], n);
      var rows, rest := Rows(s, i, n), Rows(s, i + 1 + |os[0].colons|, n + 1);
      RowsRead(s, i + 1 + |os[0].colons|, os[1..], n + 1);
      forall k | 0 < k < |rows| ensures IsRowOf(rows[k], os[k], n + k) {
        assert rows[k] == rest[k - 1] && os[k] == os[1..][k - 1];
      }
    }
  }

  lemma FirstRow(s: string, i: nat, o: Declared, n: nat)
    requires i < |s| && n < 32 && s[i] == o.letter && (At(s, i + 1) == ':' <==> o.colons != "")
    ensures IsRowOf(NewRow(s[i], n, false).(takesArg := At(s, i + 1) == ':'), o, n)
  {
    hide Bit;
  }

  lemma WithinText(s: string, i: nat, os: seq<Declared>)
    requires OptionsAt(s, i, os)
    ensures i <= |s|
  {
  }

  /**
   * The k-th option letter of a program, after the marks that its string may begin with, has row k and bit k;
   * letters after the thirty-second have none.
   */
  lemma LettersRead(mark: string, sign: string, os: seq<Declared>)
    requires (mark == "" || mark == "!") && (sign == "" || sign == "+" || sign == "-")
    requires (forall o :: o in os ==> IsOption(o)) && (os != [] ==> os[0].letter !in "!+-")
    ensures var t := Start(mark + sign + OptionsText(os)).table;
            && |t| == (if |os| <= 32 then |os| else 32)
            && forall k :: 0 <= k < |t| ==>
                 t[k].letter == os[k].letter && t[k].switchOn == Bit(k) && (t[k].takesArg <==> os[k].colons != "")
  {
    hide Bit, Rows;
    var s, text := mark + sign + OptionsText(os), OptionsText(os);
    FirstIsLetter(os);
    hide OptionsText;
    assert s[|mark| + |sign|..] == text;
    assert mark != "" ==> s[0] == '!';
    assert sign != "" ==> s[|mark|] == sign[0];
    assert mark == "" && sign == "" ==> s == text;
    assert text != "" ==> s[|mark| + |sign|] == text[0];
    RowsRead(s, |mark| + |sign|, os, 0);
  }

  lemma FirstIsLetter(os: seq<Declared>)
    ensures os != [] ==> OptionsText(os) != "" && OptionsText(os)[0] == os[0].letter
    ensures os == [] ==> OptionsText(os) == ""
  {
  }

  // ---------------------------------------------------------------- options that switch each other off

  /** Own bits of the set: each option of the set clears the others' bits and not its own; no other option touches them. */
  predicate OneOf(row: Row, set_: bv32) {
    OneOfBits(row.switchOn, row.switchOff, set_)
  }

  predicate SwitchEachOther(table: Table, set_: bv32) {
    forall i :: 0 <= i < |table| ==> OneOf(table[i], set_)
  }

  /** The bits of the set that the last option of the set stands for; `start` if there is none. */
  function LastGiven(table: Table, set_: bv32, given: seq<char>, start: bv32): bv32 {
    if given == [] then start
    else
      var last := |given| - 1;
      var own := And(MaskOf(given[last], table), set_);
      if own != 0 then own else LastGiven(table, set_, given[..last], start)
  }

  lemma SwitchOne(row: Row, set_: bv32, flags: bv32)
    requires OneOf(row, set_)
    ensures var own := And(row.switchOn, set_);
            And(Switch(row.switchOn, row.switchOff, flags), set_) == if own != 0 then own else And(flags, set_)
  {
    hide And, Minus, Switch;
    if And(row.switchOn, set_) == 0 {
      SwitchOthers(row.switchOn, row.switchOff, set_, flags);
    } else {
      SwitchOwn(row.switchOn, row.switchOff, set_, flags);
    }
  }

  lemma LastGivenFirst(table: Table, set_: bv32, given: seq<char>, start: bv32)
    requires given != []
    ensures var own := And(MaskOf(given[0], table), set_);
            LastGiven(table, set_, given, start) == LastGiven(table, set_, given[1..], if own != 0 then own else start)
    decreases |given|
  {
    hide MaskOf, And;
    var last := |given| - 1;
    if last > 0 {
      assert given[1..][|given[1..]| - 1] == given[last] && given[1..][..|given[1..]| - 1] == given[..last][1..];
      LastGivenFirst(table, set_, given[..last], start);
    } else {
      assert given[1..] == [] && given[..last] == [];
    }
  }

  /** Whatever was given, the flags of the set are those of the last of its options that was given. */
  lemma {:induction false} LastWins(table: Table, set_: bv32, flags: bv32, given: seq<char>)
    requires SwitchEachOther(table, set_) && Scan(table, flags, given).Some?
    ensures And(Scan(table, flags, given).value, set_) == LastGiven(table, set_, given, And(flags, set_))
    decreases |given|
  {
    hide Switch, OneOf, And, Minus;
    if given != [] {
      var k := IndexOf(table, given[0]);
      var next := Switch(table[k].switchOn, table[k].switchOff, flags);
      SwitchOne(table[k], set_, flags);
      LastWins(table, set_, next, given[1..]);
      LastGivenFirst(table, set_, given, And(flags, set_));
    }
  }

  /** One bit of the options that switch each other off: the flags never hold two of them. */
  lemma NeverTwo(table: Table, set_: bv32, flags: bv32, given: seq<char>)
    requires SwitchEachOther(table, set_) && Scan(table, flags, given).Some? && And(flags, set_) == 0
    ensures var held := And(Scan(table, flags, given).value, set_);
            held == 0 || exists k :: 0 <= k < |table| && held == And(table[k].switchOn, set_)
  {
    hide OneOf, Scan, And;
    LastWins(table, set_, flags, given);
    LastIsOne(table, set_, given);
  }

  lemma {:induction false} LastIsOne(table: Table, set_: bv32, given: seq<char>)
    ensures var held := LastGiven(table, set_, given, 0);
            held == 0 || exists k :: 0 <= k < |table| && held == And(table[k].switchOn, set_)
  {
    hide And;
    if given != [] {
      var last := |given| - 1;
      var own := And(MaskOf(given[last], table), set_);
      if own == 0 {
        LastIsOne(table, set_, given[..last]);
      } else {
        NothingInZero(set_);
        assert own == And(table[IndexOf(table, given[last])].switchOn, set_);
      }
    }
  }

  // ---------------------------------------------------------------- options that exclude each other

  /** No option clears any of these bits. */
  predicate NeverCleared(table: Table, mask: bv32) {
    forall i :: 0 <= i < |table| ==> And(table[i].switchOff, mask) == 0
  }

  /** Scanning all but the last option first. */
  lemma {:induction false} ScanLast(table: Table, flags: bv32, given: seq<char>)
    requires given != []
    ensures var last := |given| - 1;
            var before, k := Scan(table, flags, given[..last]), IndexOf(table, given[last]);
            Scan(table, flags, given) ==
              if before == None || k == |table| || And(before.value, table[k].incongruously) != 0 then None
              else Some(Switch(table[k].switchOn, table[k].switchOff, before.value))
    decreases |given|
  {
    hide IndexOf, Switch, And;
    var last, k := |given| - 1, IndexOf(table, given[0]);
    if last == 0 {
      assert given[..last] == [] && given[1..] == [];
    } else if k < |table| && And(flags, table[k].incongruously) == 0 {
      assert given[1..][..last - 1] == given[..last][1..];
      ScanLast(table, Switch(table[k].switchOn, table[k].switchOff, flags), given[1..]);
    }
  }

  function ExcludedBy(table: Table, c: char): bv32 {
    var k := IndexOf(table, c);
    if k < |table| then table[k].incongruously else 0
  }

  /** The option at j is known, and is refused neither from the start nor after any option before it. */
  predicate Allowed(table: Table, flags: bv32, given: seq<char>, j: nat)
    requires j < |given|
  {
    && IndexOf(table, given[j]) < |table|
    && And(flags, ExcludedBy(table, given[j])) == 0
    && forall i :: 0 <= i < j ==> And(MaskOf(given[i], table), ExcludedBy(table, given[j])) == 0
  }

  /** Bits that no option clears are set exactly when one was at the start or some given option sets one. */
  lemma {:induction false} FlagsMeet(table: Table, flags: bv32, given: seq<char>, mask: bv32)
    requires NeverCleared(table, mask) && Scan(table, flags, given).Some?
    ensures And(Scan(table, flags, given).value, mask) == 0 <==>
            And(flags, mask) == 0 && forall i :: 0 <= i < |given| ==> And(MaskOf(given[i], table), mask) == 0
    decreases |given|
  {
    hide IndexOf, Switch, And, Or, Scan;
    if given == [] {
      ScanNone(table, flags);
    } else {
      var last := |given| - 1;
      ScanLast(table, flags, given);
      FlagsMeet(table, flags, given[..last], mask);
      var k, before := IndexOf(table, given[last]), Scan(table, flags, given[..last]).value;
      SwitchKept(table[k].switchOn, table[k].switchOff, mask, before);
      OrIsZero(And(before, mask), And(table[k].switchOn, mask));
      forall i | 0 <= i < last ensures given[..last][i] == given[i] { }
    }
  }

  lemma ScanNone(table: Table, flags: bv32)
    ensures Scan(table, flags, []) == Some(flags)
  {
  }

  /**
   * As far as no option clears a bit that a given option excludes: the options go through
   * if and only if none comes after one that it excludes, itself included.
   */
  lemma {:induction false} ExclusionExact(table: Table, flags: bv32, given: seq<char>)
    requires forall j :: 0 <= j < |given| ==> NeverCleared(table, ExcludedBy(table, given[j]))
    ensures Scan(table, flags, given).Some? <==> forall j :: 0 <= j < |given| ==> Allowed(table, flags, given, j)
    decreases |given|
  {
    hide IndexOf, Switch, And, Scan, Allowed, NeverCleared, ExcludedBy;
    if given == [] {
      ScanNone(table, flags);
    } else {
      var last := |given| - 1;
      ScanLast(table, flags, given);
      forall j | 0 <= j < last ensures NeverCleared(table, ExcludedBy(table, given[..last][j])) {
        assert given[..last][j] == given[j];
      }
      ExclusionExact(table, flags, given[..last]);
      forall j | 0 <= j < last ensures Allowed(table, flags, given[..last], j) <==> Allowed(table, flags, given, j) {
        AllowedBefore(table, flags, given, j);
      }
      if Scan(table, flags, given[..last]).Some? { LastAllowed(table, flags, given); }
    }
  }

  lemma AllowedBefore(table: Table, flags: bv32, given: seq<char>, j: nat)
    requires j + 1 < |given|
    ensures Allowed(table, flags, given[..|given| - 1], j) <==> Allowed(table, flags, given, j)
  {
    hide IndexOf, And;
    var shorter := given[..|given| - 1];
    assert shorter[j] == given[j] && forall i :: 0 <= i < j ==> shorter[i] == given[i];
  }

  lemma LastAllowed(table: Table, flags: bv32, given: seq<char>)
    requires given != [] && Scan(table, flags, given[..|given| - 1]).Some?
    requires NeverCleared(table, ExcludedBy(table, given[|given| - 1]))
    ensures var last := |given| - 1;
            var before, k := Scan(table, flags, given[..last]).value, IndexOf(table, given[last]);
            Allowed(table, flags, given, last) <==> k < |table| && And(before, table[k].incongruously) == 0
  {
    hide IndexOf, And, Scan, MaskOf;
    var last := |given| - 1;
    FlagsMeet(table, flags, given[..last], ExcludedBy(table, given[last]));
    assert forall i :: 0 <= i < last ==> given[..last][i] == given[i];
  }

  // ---------------------------------------------------------------- an option that switches itself off

  /** "x-x": every time the option of row k is given, its bits flip; no other option touches them. */
  lemma {:induction false} Toggles(table: Table, flags: bv32, given: seq<char>, k: nat, bits: bv32)
    requires k < |table| && And(table[k].switchOn, bits) == bits == And(table[k].switchOff, bits) && And(flags, bits) == 0
    requires forall i :: 0 <= i < |table| && i != k ==> And(table[i].switchOn, bits) == 0 == And(table[i].switchOff, bits)
    requires Scan(table, flags, given).Some?
    ensures And(Scan(table, flags, given).value, bits) == if Times(table, given, k) % 2 == 1 then bits else 0
    decreases |given|
  {
    hide IndexOf, Switch, And, Scan;
    if given == [] {
      ScanNone(table, flags);
    } else {
      var last := |given| - 1;
      ScanLast(table, flags, given);
      Toggles(table, flags, given[..last], k, bits);
      var before, i := Scan(table, flags, given[..last]).value, IndexOf(table, given[last]);
      if i == k {
        SwitchFlips(table[k].switchOn, table[k].switchOff, bits, before);
      } else {
        SwitchOthers(table[i].switchOn, table[i].switchOff, bits, before);
      }
    }
  }
}
