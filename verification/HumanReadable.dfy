/** Sizes printed in a few characters: what is shown, and how far it is from the truth. */
module HumanReadable {
  import opened Json
  import opened Arithmetic

  const ULLONG_SIZE: nat := 0x1_0000_0000_0000_0000

  const UNIT_CHARS: string := "\0KMGTPEZY"

  function Power1024(u: nat): (p: nat)
    ensures p >= 1
  {
    if u == 0 then 1 else 1024 * Power1024(u - 1)
  }

  /** A size in units of 1024^u, cut to a whole number. */
  function Units(size: nat, u: nat): nat {
    QuotientBound(size, Power1024(u));
    size / Power1024(u)
  }

  lemma DivideAgain(n: nat, p: nat)
    requires p >= 1
    ensures n / p / 1024 == n / (1024 * p)
  {
    var q := n / p;
    var l := n % p;
    var v := q / 1024;
    var r := q % 1024;
    assert n == q * p + l && q == v * 1024 + r;
    Distribute(v, r, p);
    assert n == v * (1024 * p) + (r * p + l);
    Bound(r, p, l);
    Quotient(n, v, r * p + l, 1024 * p);
  }

  lemma Distribute(v: nat, r: nat, p: nat)
    ensures (v * 1024 + r) * p == v * (1024 * p) + r * p
  {
  }

  lemma Bound(r: nat, p: nat, l: nat)
    requires r < 1024 && l < p
    ensures r * p + l < 1024 * p
  {
    assert r * p <= 1023 * p;
  }

  lemma Power1024Values()
    ensures Power1024(1) == 0x400 && Power1024(2) == 0x10_0000 && Power1024(3) == 0x4000_0000
    ensures Power1024(4) == 0x100_0000_0000 && Power1024(5) == 0x4_0000_0000_0000 && Power1024(6) == 0x1000_0000_0000_0000
  {
    assert Power1024(2) == 1024 * Power1024(1);
    assert Power1024(4) == 1024 * Power1024(3);
    assert Power1024(6) == 1024 * Power1024(5);
  }

  // ---------------------------------------------------------------- make_human_readable_str

  /** whole.frac units of 1024^u lie within 0.051 units of size. */
  predicate Within(size: nat, u: nat, whole: nat, frac: nat) {
    var shown, unit := 10 * whole + frac, Power1024(u);
    100 * (shown * unit - 10 * size) <= 51 * unit && 100 * (10 * size - shown * unit) <= 51 * unit
  }

  /** Rounding the remainder of the last division to a tenth. */
  lemma Rounding(q: nat)
    ensures var frac := (q % 1024 * 10 + 512) / 1024; frac <= 10 && -511 <= 1024 * (10 * (q / 1024) + frac) - 10 * q <= 512
  {
  }

  lemma Scaled(d: int, m: nat)
    requires -511 <= d <= 512
    ensures -511 * m <= d * m <= 512 * m
  {
  }

  lemma Expand(shown: nat, q: nat, m: nat)
    ensures shown * (1024 * m) - 10 * (q * m) == (1024 * shown - 10 * q) * m
  {
  }

  /** What the rounding and the earlier divisions lose, in parts of the unit. */
  lemma Loss(size: nat, m: nat, q: nat, l: nat, shown: nat)
    requires l < m && size == q * m + l && -511 <= 1024 * shown - 10 * q <= 512
    ensures var unit := 1024 * m;
            100 * (shown * unit - 10 * size) <= 51 * unit && 100 * (10 * size - shown * unit) <= 51 * unit
  {
    Scaled(1024 * shown - 10 * q, m);
    Expand(shown, q, m);
    assert -511 * m - 10 * m <= shown * (1024 * m) - 10 * size <= 512 * m;
  }

  /** From one unit to the next: what the earlier divisions left is l. */
  lemma NextUnit(size: nat, u: nat) returns (l: nat)
    requires u >= 1
    ensures Power1024(u) == 1024 * Power1024(u - 1) && Units(size, u) == Units(size, u - 1) / 1024
    ensures l < Power1024(u - 1) && size == Units(size, u - 1) * Power1024(u - 1) + l
  {
    DivideAgain(size, Power1024(u - 1));
    QuotientBound(size, Power1024(u - 1));
    l := size % Power1024(u - 1);
  }

  lemma WithinIs(size: nat, u: nat, shown: nat, whole: nat, frac: nat)
    requires shown == 10 * whole + frac
    requires var unit := Power1024(u);
             100 * (shown * unit - 10 * size) <= 51 * unit && 100 * (10 * size - shown * unit) <= 51 * unit
    ensures Within(size, u, whole, frac)
  {
    hide Power1024;
  }

  /** The unit before the last division leaves a remainder; rounded, it stays within the bound. */
  lemma RoundedWithin(size: nat, u: nat)
    requires u >= 1
    ensures var q := Units(size, u - 1);
            var frac := (q % 1024 * 10 + 512) / 1024;
            && frac <= 10 && Units(size, u) == q / 1024
            && (if frac == 10 then Within(size, u, q / 1024 + 1, 0) else Within(size, u, q / 1024, frac))
  {
    hide *;
    var q := Units(size, u - 1);
    var frac := (q % 1024 * 10 + 512) / 1024;
    var shown := 10 * (q / 1024) + frac;
    var l := NextUnit(size, u);
    Rounding(q);
    Loss(size, Power1024(u - 1), q, l, shown);
    if frac == 10 {
      WithinIs(size, u, shown, q / 1024 + 1, 0);
    } else {
      WithinIs(size, u, shown, q / 1024, frac);
    }
  }

  /** The loop that picks the unit. */
  method PickUnit(size: nat) returns (val: nat, u: nat, frac: nat)
    requires size < ULLONG_SIZE
    ensures val < 1024 && val == Units(size, u) && u <= 6
    ensures u == 0 ==> val == size && frac == 0
    ensures u >= 1 ==> frac == (Units(size, u - 1) % 1024 * 10 + 512) / 1024 && size >= 1024
  {
    val, u, frac := size, 0, 0;
    Power1024Values();
    while val >= 1024
      invariant 0 <= u <= 6 && val == Units(size, u)
      invariant u == 0 ==> val == size && frac == 0
      invariant u >= 1 ==> frac == (Units(size, u - 1) % 1024 * 10 + 512) / 1024 && size >= 1024
      decreases val
    {
      TopUnit(size, u);
      frac := (val % 1024 * 10 + 512) / 1024;
      DivideAgain(size, Power1024(u));
      val := val / 1024;
      u := u + 1;
    }
  }

  lemma TopUnit(size: nat, u: nat)
    requires size < ULLONG_SIZE && u <= 6 && Units(size, u) >= 1024
    ensures u < 6
  {
    Power1024Values();
  }

  /** The text of a size: its digits alone below 1024, else whole, tenth and unit. */
  function Text(u: nat, whole: nat, frac: nat): string
    requires u < |UNIT_CHARS| && frac < 10
  {
    if u == 0 then Decimal(whole) else Decimal(whole) + "." + [DigitOf(frac)] + [UNIT_CHARS[u]]
  }

  /** What is shown: the size itself below 1024; else at most 1024 and a tenth of one of the six units, close to the size. */
  ghost predicate Displays(str: string, size: nat) {
    if size < 1024 then str == Text(0, size, 0)
    else exists u, whole, frac :: 1 <= u <= 6 && 0 <= whole <= 1024 && 0 <= frac < 10 && str == Text(u, whole, frac) && Within(size, u, whole, frac)
  }

  /** Whole units only: within 0.551 of one. */
  ghost predicate DisplaysWhole(str: string, size: nat) {
    if size < 1024 then str == Decimal(size)
    else exists u, whole :: 1 <= u <= 6 && 0 <= whole <= 1025 && str == Decimal(whole) + [UNIT_CHARS[u]] && WithinWhole(size, u, whole)
  }

  predicate WithinWhole(size: nat, u: nat, whole: nat) {
    var unit := Power1024(u);
    1000 * (whole * unit - size) <= 551 * unit && 1000 * (size - whole * unit) <= 551 * unit
  }

  lemma WholeRounded(size: nat, u: nat, whole: nat, frac: nat)
    requires Within(size, u, whole, frac) && frac < 10
    ensures WithinWhole(size, u, if frac >= 5 then whole + 1 else whole)
  {
    var unit := Power1024(u);
    TimesSum(10 * whole, frac, unit);
    TimesSum(whole, 1, unit);
    TimesTen(whole, unit);
    if frac >= 5 { TimesMore(frac, 5, unit); TimesMore(9, frac, unit); } else { TimesMore(4, frac, unit); }
  }

  lemma TimesSum(a: nat, b: nat, unit: nat)
    ensures (a + b) * unit == a * unit + b * unit
  {
  }

  lemma TimesTen(a: nat, unit: nat)
    ensures 10 * a * unit == 10 * (a * unit)
  {
  }

  lemma TimesMore(a: nat, b: nat, unit: nat)
    requires a >= b
    ensures a * unit >= b * unit
  {
  }

  /** unsigned long long */
  function Wrapped(n: int): (w: nat)
    ensures w < ULLONG_SIZE
  {
    n % ULLONG_SIZE
  }

  /** The size in bytes as the 64-bit product gives it; a block size of 0 counts as 1. */
  function Size(val: nat, blockSize: nat): nat {
    if blockSize > 1 then Wrapped(val * blockSize) else val
  }

  /** The size in a fixed unit. */
  function InUnits(size: nat, unit: nat): nat
    requires unit > 0
  {
    Wrapped(size + unit / 2) / unit
  }

  /** That is the nearest whole number of units exactly when adding half a unit does not wrap around. */
  lemma NearestUnits(size: nat, unit: nat)
    requires 0 < unit < ULLONG_SIZE && size < ULLONG_SIZE
    ensures var n := InUnits(size, unit);
            2 * (n * unit - size) <= unit && 2 * (size - n * unit) <= unit <==> size + unit / 2 < ULLONG_SIZE
  {
    var half := unit / 2;
    var s := Wrapped(size + half);
    HalfWraps(size, unit);
    hide Wrapped;
    SplitUnits(s, unit);
    Nearest(size, unit, half, s, s / unit * unit, s % unit);
  }

  lemma HalfWraps(size: nat, unit: nat)
    requires unit < ULLONG_SIZE && size < ULLONG_SIZE
    ensures var half := unit / 2;
            && 2 * half <= unit <= 2 * half + 1
            && Wrapped(size + half) == if size + half < ULLONG_SIZE then size + half else size + half - ULLONG_SIZE
  {
  }

  lemma SplitUnits(s: nat, unit: nat)
    requires unit > 0
    ensures s == s / unit * unit + s % unit && (s < unit ==> s / unit * unit == 0)
  {
  }

  lemma Nearest(size: nat, unit: nat, half: nat, s: nat, p: nat, r: nat)
    requires size < ULLONG_SIZE && 0 < unit < ULLONG_SIZE && 2 * half <= unit <= 2 * half + 1
    requires s == p + r && r < unit && (s < unit ==> p == 0)
    requires s == if size + half < ULLONG_SIZE then size + half else size + half - ULLONG_SIZE
    ensures 2 * (p - size) <= unit && 2 * (size - p) <= unit <==> size + half < ULLONG_SIZE
  {
  }

  /** Without a fixed unit. */
  method ScaledText(size: nat, noFraction: bool) returns (str: string)
    requires size < ULLONG_SIZE
    ensures if noFraction then DisplaysWhole(str, size) else Displays(str, size)
  {
    hide Decimal, Within, WithinWhole, Power1024;
    var v, unit, frac := PickUnit(size);
    if unit >= 1 { RoundedWithin(size, unit); }
    if frac >= 10 {
      v, frac := v + 1, 0;
    }
    if noFraction {
      if unit >= 1 { WholeRounded(size, unit, v, frac); }
      if frac >= 5 { v := v + 1; }
      str := if unit == 0 then Decimal(v) else Decimal(v) + [UNIT_CHARS[unit]];
    } else {
      str := if unit == 0 then Decimal(v) else Decimal(v) + "." + [DigitOf(frac)] + [UNIT_CHARS[unit]];
      assert str == Text(unit, v, frac);
    }
  }

  lemma Zero(blockSize: nat)
    ensures Displays("0", Size(0, blockSize)) && DisplaysWhole("0", 0)
  {
    assert 0 * blockSize == 0;
  }

  /** make_human_readable_str: in a fixed unit, with a tenth, or, for a block size of 0, without. */
  method MakeHumanReadableStr(val: nat, blockSize: nat, displayUnit: nat) returns (str: string)
    requires val < ULLONG_SIZE && blockSize < ULLONG_SIZE && displayUnit < ULLONG_SIZE
    ensures val == 0 ==> str == "0"
    ensures val > 0 && displayUnit > 0 ==> str == Decimal(InUnits(Size(val, blockSize), displayUnit))
    ensures displayUnit == 0 && blockSize > 0 ==> Displays(str, Size(val, blockSize))
    ensures displayUnit == 0 && blockSize == 0 ==> DisplaysWhole(str, val)
  {
    hide Wrapped, Displays, DisplaysWhole, Decimal;
    if val == 0 {
      str := "0";
      Zero(blockSize);
      return;
    }
    var v := val;
    if blockSize > 1 { v := Wrapped(v * blockSize); }
    if displayUnit > 0 {
      v := Wrapped(v + displayUnit / 2);
      return Decimal(v / displayUnit);
    }
    str := ScaledText(v, blockSize == 0);
  }

  // ---------------------------------------------------------------- what a reader takes the text for

  /** The bytes that a unit's letter stands for. */
  function Factor(c: char): nat {
    match c
    case 'K' => 0x400
    case 'M' => 0x10_0000
    case 'G' => 0x4000_0000
    case 'T' => 0x100_0000_0000
    case 'P' => 0x4_0000_0000_0000
    case 'E' => 0x1000_0000_0000_0000
    case _ => 0
  }

  /** Digits, a point, one more digit, and the letter of a unit: so many tenths of it. */
  predicate SaysTenths(str: string, digits: string, d: char, letter: char, tenths: nat) {
    && str == digits + "." + [d] + [letter] && AllDigits(digits) && IsDigit(d) && Factor(letter) > 0
    && tenths == 10 * Spelled(digits) + (d as int - '0' as int)
  }

  predicate SaysWhole(str: string, digits: string, letter: char, n: nat) {
    str == digits + [letter] && AllDigits(digits) && Factor(letter) > 0 && n == Spelled(digits)
  }

  lemma LetterIs(u: nat)
    requires 1 <= u <= 6
    ensures Factor(UNIT_CHARS[u]) == Power1024(u)
  {
    Power1024Values();
  }

  /** The text of a size, read as tenths of its unit, is within 0.051 units of the size; below 1024 it is the size. */
  lemma TextSays(str: string, size: nat) returns (digits: string, d: char, letter: char, tenths: nat)
    requires Displays(str, size)
    ensures size < 1024 ==> AllDigits(str) && Spelled(str) == size
    ensures size >= 1024 ==> SaysTenths(str, digits, d, letter, tenths)
    ensures size >= 1024 ==>
              100 * (tenths * Factor(letter) - 10 * size) <= 51 * Factor(letter) && 100 * (10 * size - tenths * Factor(letter)) <= 51 * Factor(letter)
  {
    hide Power1024, Spelled;
    digits, d, letter, tenths := "", '0', 'K', 0;
    if size < 1024 {
      SpelledDecimal(size);
    } else {
      var u: nat, whole: nat, frac: nat :|
        1 <= u <= 6 && 0 <= whole <= 1024 && 0 <= frac < 10 && str == Text(u, whole, frac) && Within(size, u, whole, frac);
      digits, d, letter, tenths := Decimal(whole), DigitOf(frac), UNIT_CHARS[u], 10 * whole + frac;
      hide Displays, Within, Text, SaysTenths, Factor, UNIT_CHARS;
      LetterIs(u);
      TenthsText(u, whole, frac);
      TenthsWithin(size, u, whole, frac);
    }
  }

  lemma TenthsText(u: nat, whole: nat, frac: nat)
    requires 1 <= u <= 6 && frac < 10
    ensures SaysTenths(Text(u, whole, frac), Decimal(whole), DigitOf(frac), UNIT_CHARS[u], 10 * whole + frac)
  {
    hide Power1024, Spelled, Decimal;
    SpelledDecimal(whole);
    LetterIs(u);
  }

  lemma TenthsWithin(size: nat, u: nat, whole: nat, frac: nat)
    requires Within(size, u, whole, frac)
    ensures var shown, unit := 10 * whole + frac, Power1024(u);
            100 * (shown * unit - 10 * size) <= 51 * unit && 100 * (10 * size - shown * unit) <= 51 * unit
  {
    hide Power1024;
  }

  /** The same for whole units: within 0.551 of one. */
  lemma WholeSays(str: string, size: nat) returns (digits: string, letter: char, n: nat)
    requires DisplaysWhole(str, size)
    ensures size < 1024 ==> AllDigits(str) && Spelled(str) == size
    ensures size >= 1024 ==> SaysWhole(str, digits, letter, n)
    ensures size >= 1024 ==>
              1000 * (n * Factor(letter) - size) <= 551 * Factor(letter) && 1000 * (size - n * Factor(letter)) <= 551 * Factor(letter)
  {
    hide Power1024, Spelled;
    digits, letter, n := "", 'K', 0;
    if size < 1024 {
      SpelledDecimal(size);
    } else {
      var u: nat, whole: nat :|
        1 <= u <= 6 && 0 <= whole <= 1025 && str == Decimal(whole) + [UNIT_CHARS[u]] && WithinWhole(size, u, whole);
      digits, letter, n := Decimal(whole), UNIT_CHARS[u], whole;
      SpelledDecimal(whole);
      LetterIs(u);
    }
  }

  /** Products that fit 64 bits are what the size is. */
  lemma SizeIs(val: nat, blockSize: nat)
    requires blockSize >= 1 && val * blockSize < 0x1_0000_0000_0000_0000
    ensures Size(val, blockSize) == val * blockSize
  {
    assert blockSize == 1 ==> val * blockSize == val;
  }

  // ---------------------------------------------------------------- smart_ulltoa5 and smart_ulltoa4

  const PADDED: string := " 123456789"
  const DIGITS: string := "0123456789"

  /** The number that spaces and digits stand for, read on from n. */
  function Reads(s: string, n: int): int
    decreases |s|
  {
    if s == "" then n else Reads(s[1..], 10 * n + if s[0] == ' ' then 0 else s[0] as int - '0' as int)
  }

  /** Spaces, then digits; at least one digit, and the first is 0 only if it is the only one. */
  predicate IsPadded(s: string)
    decreases |s|
  {
    if s == "" then false
    else if |s| == 1 then IsDigit(s[0])
    else if s[0] == ' ' then IsPadded(s[1..])
    else s[0] != '0' && AllDigits(s)
  }

  /** Ten times a number in the unit 1024^idx, cut to whole tenths: the first unit, but 1, where that is below the limit. */
  predicate IsScaled(n: nat, limit: nat, tenths: nat, idx: nat) {
    idx >= 1 && tenths == Units(n, idx) && tenths < limit && (idx > 1 ==> Units(n, idx - 1) >= limit)
  }

  /** What is shown is cut, not rounded: less than one tenth is lost. */
  lemma ScaledBounds(n: nat, limit: nat, tenths: nat, idx: nat)
    requires IsScaled(n, limit, tenths, idx) && idx <= 6
    ensures tenths < limit && 1 <= idx && tenths * Factor("\0KMGTPE"[idx]) <= n < (tenths + 1) * Factor("\0KMGTPE"[idx])
    ensures idx > 1 ==> limit * Factor("\0KMGTPE"[idx - 1]) <= n
  {
    hide Power1024;
    LetterIs(idx);
    QuotientBound(n, Power1024(idx));
    Cut(n, Power1024(idx), tenths);
    if idx > 1 {
      LetterIs(idx - 1);
      Cut(n, Power1024(idx - 1), Units(n, idx - 1));
      TimesMore(Units(n, idx - 1), limit, Power1024(idx - 1));
    }
  }

  lemma Cut(n: nat, p: nat, q: nat)
    requires p >= 1 && q == n / p
    ensures q * p <= n < (q + 1) * p
  {
    QuotientBound(n, p);
  }

  /** `ul *= 10` */
  function TenTimes(ul: nat): (w: nat)
    ensures w < ULLONG_SIZE
  {
    Wrapped(10 * ul)
  }

  lemma TenFits(ul: nat)
    ensures 10 * ul < ULLONG_SIZE ==> TenTimes(ul) == 10 * ul
  {
  }

  /** The do-while loop on ten times the number. */
  method ScaleDown(n: nat, limit: nat) returns (tenths: nat, idx: nat)
    requires n < ULLONG_SIZE && 10000 <= limit
    ensures IsScaled(n, limit, tenths, idx) && idx <= 6 && (n >= limit ==> tenths >= limit / 1024)
  {
    tenths, idx := n, 0;
    Power1024Values();
    while true
      invariant 0 <= idx <= 5 && tenths == Units(n, idx) && (idx > 0 || n >= limit ==> tenths >= limit)
      decreases tenths
    {
      DivideAgain(n, Power1024(idx));
      tenths := tenths / 1024;
      idx := idx + 1;
      if tenths < limit { return; }
      StillLarge(n, idx);
    }
  }

  lemma StillLarge(n: nat, idx: nat)
    requires n < ULLONG_SIZE && idx <= 6 && Units(n, idx) >= 10000
    ensures idx <= 5
  {
    Power1024Values();
  }

  predicate AreDigits(ds: seq<nat>) {
    ds != [] && forall i :: 0 <= i < |ds| ==> ds[i] < 10
  }

  /** A digit, or a space for a leading zero. */
  function Place(d: nat, started: bool): (c: char)
    requires d < 10
    ensures c == ' ' || (IsDigit(c) && c as int - '0' as int == d)
    ensures c == ' ' <==> d == 0 && !started
  {
    if d == 0 && !started then ' ' else DigitOf(d)
  }

  /** Digits as they are to be shown: leading zeros, but not the last place, as spaces. */
  function Padded(ds: seq<nat>, started: bool): (s: string)
    requires AreDigits(ds)
    ensures |s| == |ds|
    decreases |ds|
  {
    if |ds| == 1 then [DigitOf(ds[0])] else [Place(ds[0], started)] + Padded(ds[1..], started || ds[0] > 0)
  }

  function Number(ds: seq<nat>, n: nat): nat
    decreases |ds|
  {
    if ds == [] then n else Number(ds[1..], 10 * n + ds[0])
  }

  lemma {:induction false} PaddedIs(ds: seq<nat>, started: bool, n: nat)
    requires AreDigits(ds)
    ensures Reads(Padded(ds, started), n) == Number(ds, n)
    ensures if started then AllDigits(Padded(ds, started)) else IsPadded(Padded(ds, started))
    decreases |ds|
  {
    if |ds| == 1 {
      assert [DigitOf(ds[0])][1..] == "" && ds[1..] == [];
    } else {
      var rest := Padded(ds[1..], started || ds[0] > 0);
      PaddedIs(ds[1..], started || ds[0] > 0, 10 * n + ds[0]);
      assert ([Place(ds[0], started)] + rest)[1..] == rest;
    }
  }

  /** The two digit tables of the code. */
  lemma Tables(d: nat)
    requires d < 10
    ensures PADDED[d] == Place(d, false) && DIGITS[d] == Place(d, true) == DigitOf(d)
  {
  }

  lemma TwoPlaces(a: nat, b: nat)
    requires a < 10 && b < 10
    ensures var s := [Place(a, false), DigitOf(b)]; IsPadded(s) && Reads(s, 0) == 10 * a + b
  {
    PaddedIs([a, b], false, 0);
    hide IsPadded, Reads;
    LastPlace(b, a > 0, a);
    assert [a, b][1..] == [b];
    assert Padded([a, b], false) == [Place(a, false), DigitOf(b)];
  }

  lemma LastPlace(d: nat, started: bool, n: nat)
    requires d < 10
    ensures AreDigits([d]) && Padded([d], started) == [DigitOf(d)] && Number([d], n) == 10 * n + d
  {
    assert [d][1..] == [];
  }

  /** One place after another. */
  lemma NextPlace(d: nat, ds: seq<nat>, started: bool, n: nat)
    requires AreDigits(ds) && d < 10
    ensures AreDigits([d] + ds)
    ensures Padded([d] + ds, started) == [Place(d, started)] + Padded(ds, started || d > 0)
    ensures Number([d] + ds, n) == Number(ds, 10 * n + d)
  {
    assert ([d] + ds)[1..] == ds;
  }

  lemma ThreePlaces(a: nat, b: nat, c: nat)
    requires a < 10 && b < 10 && c < 10
    ensures var s := [Place(a, false), Place(b, a > 0), DigitOf(c)]; IsPadded(s) && Reads(s, 0) == 100 * a + 10 * b + c
  {
    hide *;
    LastPlace(c, a > 0 || b > 0, 10 * a + b);
    NextPlace(b, [c], a > 0, a);
    NextPlace(a, [b] + [c], false, 0);
    PaddedIs([a] + ([b] + [c]), false, 0);
    assert [Place(a, false)] + ([Place(b, a > 0)] + [DigitOf(c)]) == [Place(a, false), Place(b, a > 0), DigitOf(c)];
  }

  lemma FourPlaces(a: nat, b: nat, c: nat, d: nat)
    requires a < 10 && b < 10 && c < 10 && d < 10
    ensures var s := [Place(a, false), Place(b, a > 0), Place(c, a > 0 || b > 0), DigitOf(d)];
            IsPadded(s) && Reads(s, 0) == 1000 * a + 100 * b + 10 * c + d
  {
    hide *;
    LastPlace(d, a > 0 || b > 0 || c > 0, 100 * a + 10 * b + c);
    NextPlace(c, [d], a > 0 || b > 0, 10 * a + b);
    NextPlace(b, [c] + [d], a > 0, a);
    NextPlace(a, [b] + ([c] + [d]), false, 0);
    PaddedIs([a] + ([b] + ([c] + [d])), false, 0);
    assert [Place(a, false)] + ([Place(b, a > 0)] + ([Place(c, a > 0 || b > 0)] + [DigitOf(d)]))
        == [Place(a, false), Place(b, a > 0), Place(c, a > 0 || b > 0), DigitOf(d)];
  }

  lemma FivePlaces(a: nat, b: nat, c: nat, d: nat, e: nat)
    requires a < 10 && b < 10 && c < 10 && d < 10 && e < 10
    ensures var s := [Place(a, false), Place(b, a > 0), Place(c, a > 0 || b > 0), Place(d, a > 0 || b > 0 || c > 0), DigitOf(e)];
            IsPadded(s) && Reads(s, 0) == 10000 * a + 1000 * b + 100 * c + 10 * d + e
  {
    hide *;
    LastPlace(e, a > 0 || b > 0 || c > 0 || d > 0, 1000 * a + 100 * b + 10 * c + d);
    NextPlace(d, [e], a > 0 || b > 0 || c > 0, 100 * a + 10 * b + c);
    NextPlace(c, [d] + [e], a > 0 || b > 0, 10 * a + b);
    NextPlace(b, [c] + ([d] + [e]), a > 0, a);
    NextPlace(a, [b] + ([c] + ([d] + [e])), false, 0);
    PaddedIs([a] + ([b] + ([c] + ([d] + [e]))), false, 0);
    assert [Place(a, false)] + ([Place(b, a > 0)] + ([Place(c, a > 0 || b > 0)] + ([Place(d, a > 0 || b > 0 || c > 0)] + [DigitOf(e)])))
        == [Place(a, false), Place(b, a > 0), Place(c, a > 0 || b > 0), Place(d, a > 0 || b > 0 || c > 0), DigitOf(e)];
  }

  /** The table for the place after c: spaces are for leading zeros only. */
  function After(fmt: string, c: char): string {
    if c != ' ' then DIGITS else fmt
  }

  /** A place that shows a space has started nothing. */
  lemma PlaceStarted(d: nat, fmt: string)
    requires d < 10 && (fmt == PADDED || fmt == DIGITS)
    ensures fmt[d] == Place(d, fmt == DIGITS)
    ensures After(fmt, fmt[d]) == if fmt == DIGITS || d > 0 then DIGITS else PADDED
  {
    Tables(d);
  }

  /** The first places, each choosing the table for the next. */
  method Lead(buf: array<char>, a: nat, b: nat) returns (fmt: string)
    requires buf.Length >= 2 && a < 10 && b < 10
    modifies buf
    ensures buf[0] == Place(a, false) && buf[1] == Place(b, a > 0) && forall i :: 2 <= i < buf.Length ==> buf[i] == old(buf[i])
    ensures fmt == if a > 0 || b > 0 then DIGITS else PADDED
  {
    fmt := PADDED;
    PlaceStarted(a, fmt);
    buf[0] := fmt[a];
    fmt := After(fmt, buf[0]);
    PlaceStarted(b, fmt);
    buf[1] := fmt[b];
    fmt := After(fmt, buf[1]);
  }

  method FillFive(buf: array<char>, a: nat, b: nat, c: nat, d: nat, e: nat)
    requires buf.Length >= 5 && a < 10 && b < 10 && c < 10 && d < 10 && e < 10
    modifies buf
    ensures IsPadded(buf[..5]) && Reads(buf[..5], 0) == 10000 * a + 1000 * b + 100 * c + 10 * d + e
    ensures forall i :: 5 <= i < buf.Length ==> buf[i] == old(buf[i])
  {
    hide IsPadded, Reads, Place;
    var fmt := Lead(buf, a, b);
    PlaceStarted(c, fmt);
    buf[2] := fmt[c];
    fmt := After(fmt, buf[2]);
    PlaceStarted(d, fmt);
    buf[3] := fmt[d];
    Tables(e);
    buf[4] := DIGITS[e];
    FivePlaces(a, b, c, d, e);
    assert buf[..5] == [buf[0], buf[1], buf[2], buf[3], buf[4]];
  }

  method FillFour(buf: array<char>, a: nat, b: nat, c: nat, d: nat)
    requires buf.Length >= 4 && a < 10 && b < 10 && c < 10 && d < 10
    modifies buf
    ensures IsPadded(buf[..4]) && Reads(buf[..4], 0) == 1000 * a + 100 * b + 10 * c + d
    ensures forall i :: 4 <= i < buf.Length ==> buf[i] == old(buf[i])
  {
    hide IsPadded, Reads, Place;
    var fmt := Lead(buf, a, b);
    PlaceStarted(c, fmt);
    buf[2] := fmt[c];
    Tables(d);
    buf[3] := DIGITS[d];
    FourPlaces(a, b, c, d);
    assert buf[..4] == [buf[0], buf[1], buf[2], buf[3]];
  }

  method FillThree(buf: array<char>, a: nat, b: nat, c: nat)
    requires buf.Length >= 3 && a < 10 && b < 10 && c < 10
    modifies buf
    ensures IsPadded(buf[..3]) && Reads(buf[..3], 0) == 100 * a + 10 * b + c
    ensures forall i :: 3 <= i < buf.Length ==> buf[i] == old(buf[i])
  {
    hide IsPadded, Reads, Place;
    var fmt := Lead(buf, a, b);
    Tables(c);
    buf[2] := DIGITS[c];
    ThreePlaces(a, b, c);
    assert buf[..3] == [buf[0], buf[1], buf[2]];
  }

  /** Two places; a number that is 0 is not shown at all. */
  method FillTwo(buf: array<char>, a: nat, b: nat)
    requires buf.Length >= 2 && a < 10 && b < 10
    modifies buf
    ensures if a > 0 || b > 0 then IsPadded(buf[..2]) && Reads(buf[..2], 0) == 10 * a + b else buf[..2] == "  "
    ensures forall i :: 2 <= i < buf.Length ==> buf[i] == old(buf[i])
  {
    hide IsPadded, Reads;
    var fmt := Lead(buf, a, b);
    Tables(b);
    TwoPlaces(a, b);
    assert buf[..2] == [buf[0], buf[1]];
  }

  /** The digits that the divisions pick out. */
  lemma Digits(n: nat)
    requires n < 100000
    ensures var u := n / 10;
            && u / 1000 < 10 && n == 10000 * (u / 1000) + 1000 * (u / 100 % 10) + 100 * (u / 10 % 10) + 10 * (u % 10) + n % 10
            && u == 1000 * (u / 1000) + 100 * (u / 100 % 10) + 10 * (u / 10 % 10) + u % 10
            && (n < 10000 ==> u / 100 < 10 && u / 1000 == 0 && u / 100 % 10 == u / 100)
            && (n < 1000 ==> u / 10 < 10 && u / 100 == 0 && u / 10 % 10 == u / 10)
  {
    var u := n / 10;
    assert u / 10 / 10 == u / 100 && u / 100 / 10 == u / 1000;
    assert n == 10 * u + n % 10 && u == 10 * (u / 10) + u % 10;
    assert u / 10 == 10 * (u / 100) + u / 10 % 10 && u / 100 == 10 * (u / 1000) + u / 100 % 10;
  }

  /** smart_ulltoa5: the number itself if it fits; else whole units, or whole and tenth below 100, and the unit's letter. */
  method SmartUlltoa5(ul: nat, buf: array<char>, scale: string) returns (ghost tenths: nat, ghost idx: nat)
    requires ul < ULLONG_SIZE && buf.Length >= 5 && |scale| > 6
    modifies buf
    ensures forall i :: 5 <= i < buf.Length ==> buf[i] == old(buf[i])
    ensures ul <= 99999 ==> IsPadded(buf[..5]) && Reads(buf[..5], 0) == ul
    ensures ul > 99999 ==> IsScaled(TenTimes(ul), 100000, tenths, idx) && idx <= 6 && buf[4] == scale[idx]
    ensures ul > 99999 && tenths >= 1000 ==> IsPadded(buf[..4]) && Reads(buf[..4], 0) == tenths / 10
    ensures ul > 99999 && tenths < 1000 ==> buf[2] == '.' && buf[3] == DigitOf(tenths % 10)
    ensures ul > 99999 && 10 <= tenths < 1000 ==> IsPadded(buf[..2]) && Reads(buf[..2], 0) == tenths / 10
    ensures ul > 99999 && tenths < 10 ==> buf[..2] == "  "
    ensures ul > 99999 && 10 * ul < ULLONG_SIZE ==> TenTimes(ul) == 10 * ul && tenths >= 97
  {
    hide IsPadded, Reads, DigitOf, IsScaled, TenTimes;
    var n, unit := ul, 0;
    if ul > 99999 {
      TenFits(ul);
      n, unit := ScaleDown(TenTimes(ul), 100000);
    }
    tenths, idx := n, unit;
    var u, v := n / 10, n % 10;
    Digits(n);
    Tables(v);
    if ul <= 99999 {
      FillFive(buf, u / 1000, u / 100 % 10, u / 10 % 10, u % 10, v);
    } else if u >= 100 {
      FillFour(buf, u / 1000, u / 100 % 10, u / 10 % 10, u % 10);
      ghost var four := buf[..4];
      buf[4] := scale[unit];
      assert buf[..4] == four;
    } else {
      FillTwo(buf, u / 10, u % 10);
      ghost var two := buf[..2];
      buf[2] := '.';
      buf[3] := DIGITS[v];
      buf[4] := scale[unit];
      assert buf[..2] == two;
    }
  }

  /** smart_ulltoa4: the number itself if it fits; else whole units, or one digit and a tenth below 10, and the unit's letter. */
  method SmartUlltoa4(ul: nat, buf: array<char>, scale: string) returns (ghost tenths: nat, ghost idx: nat)
    requires ul < ULLONG_SIZE && buf.Length >= 4 && |scale| > 6
    modifies buf
    ensures forall i :: 4 <= i < buf.Length ==> buf[i] == old(buf[i])
    ensures ul <= 9999 ==> IsPadded(buf[..4]) && Reads(buf[..4], 0) == ul
    ensures ul > 9999 ==> IsScaled(TenTimes(ul), 10000, tenths, idx) && idx <= 6 && buf[3] == scale[idx]
    ensures ul > 9999 && tenths >= 100 ==> IsPadded(buf[..3]) && Reads(buf[..3], 0) == tenths / 10
    ensures ul > 9999 && tenths < 100 ==>
              buf[0] == DigitOf(tenths / 10) && buf[1] == '.' && buf[2] == DigitOf(tenths % 10)
    ensures ul > 9999 && 10 * ul < ULLONG_SIZE ==> TenTimes(ul) == 10 * ul && tenths >= 9
  {
    hide IsPadded, Reads, DigitOf, IsScaled, TenTimes;
    var n, unit := ul, 0;
    if ul > 9999 {
      TenFits(ul);
      n, unit := ScaleDown(TenTimes(ul), 10000);
    }
    tenths, idx := n, unit;
    var u, v := n / 10, n % 10;
    Digits(n);
    Tables(v);
    if ul <= 9999 {
      FillFour(buf, u / 100, u / 10 % 10, u % 10, v);
    } else if u >= 10 {
      FillThree(buf, u / 100, u / 10 % 10, u % 10);
      ghost var three := buf[..3];
      buf[3] := scale[unit];
      assert buf[..3] == three;
    } else {
      Tables(u);
      buf[0] := DIGITS[u];
      buf[1] := '.';
      buf[2] := DIGITS[v];
      buf[3] := scale[unit];
    }
  }
}
