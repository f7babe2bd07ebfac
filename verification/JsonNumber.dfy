/** What the text of a number is worth: every numeral the parser takes, with its point and its exponent. */
module JsonNumber {
  import opened Json
  import opened JsonText
  import opened JsonRoundTrip
  import opened Arithmetic

  /** The digits before the point, those after it (none without a point), and the power of ten. */
  datatype Numeral = Numeral(minus: bool, whole: string, fraction: string, power: Option<Power>)

  datatype Power = Power(letter: char, sign: string, digits: string)

  /** No digits, 0 alone, or digits that start with 0 only if the next one is no 0. */
  predicate IsWhole(d: string) {
    AllDigits(d) && (|d| > 1 ==> d[0] != '0' || d[1] != '0')
  }

  predicate IsPower(e: Power) {
    (e.letter == 'e' || e.letter == 'E') && (e.sign == "" || e.sign == "+" || e.sign == "-") && AllDigits(e.digits)
  }

  predicate IsNumeral(n: Numeral) {
    IsWhole(n.whole) && AllDigits(n.fraction) && (n.power.Some? ==> IsPower(n.power.value))
  }

  function PointText(fraction: string): string {
    if fraction == "" then "" else "." + fraction
  }

  function PowerText(power: Option<Power>): string {
    if power == None then "" else [power.value.letter] + power.value.sign + power.value.digits
  }

  function Text(n: Numeral): string {
    (if n.minus then "-" else "") + n.whole + PointText(n.fraction) + PowerText(n.power)
  }

  /** With k digits after the point the mantissa is the digits before it times 10^k and those after it. */
  function Mantissa(n: Numeral): int
    requires IsNumeral(n)
  {
    var size := Spelled(n.whole) * Power10(|n.fraction|) + Spelled(n.fraction);
    if n.minus then -size else size
  }

  function Exponent10(n: Numeral): int
    requires IsNumeral(n)
  {
    PowerOf(n.power) - |n.fraction|
  }

  function PowerOf(power: Option<Power>): int
    requires power.Some? ==> IsPower(power.value)
  {
    if power == None then 0
    else
      var n: int := Spelled(power.value.digits);
      if power.value.sign == "-" then -n else n
  }

  /** The digits before the point end where they can: after a 0 alone another 0 would not be read. */
  predicate WholeEnds(whole: string, c: char) {
    if whole == "0" then !('1' <= c <= '9') else !IsDigit(c)
  }

  /** What follows at e does not belong to the number any more. */
  predicate Ends(n: Numeral, mem: string, e: nat)
    requires Terminated(mem) && e < |mem|
  {
    if n.power.Some? then PowerEnds(n.power.value, mem[e])
    else
      && mem[e] != 'e' && mem[e] != 'E'
      && (if n.fraction != "" then !IsDigit(mem[e])
          else WholeEnds(n.whole, mem[e]) && !(mem[e] == '.' && IsDigit(mem[e + 1])))
  }

  predicate PowerEnds(e: Power, c: char) {
    !IsDigit(c) && (e.sign == "" && e.digits == "" ==> c != '+' && c != '-')
  }

  // ---------------------------------------------------------------- a run of digits

  lemma SpelledMore(d: string)
    requires d != "" && AllDigits(d)
    ensures var last := |d| - 1; Spelled(d) == 10 * Spelled(d[..last]) + (d[last] as int - '0' as int)
  {
  }

  /** Reading digits on from n. */
  lemma {:induction false} DigitsOver(mem: string, p: nat, d: string, n: int)
    requires Terminated(mem) && AllDigits(d) && TextAt(mem, p, d)
    ensures Digits(mem, p, n) == Digits(mem, p + |d|, n * Power10(|d|) + Spelled(d))
    decreases |d|
  {
    if d != "" {
      var last := |d| - 1;
      hide Power10;
      assert d == d[..last] + [d[last]];
      SplitText(mem, p, d[..last], [d[last]]);
      DigitsOver(mem, p, d[..last], n);
      CharAt(mem, p, d, last);
      SpelledMore(d);
      OnePlaceMore(n, last, Spelled(d[..last]));
    } else {
      assert n * Power10(0) == n;
    }
  }

  lemma RunRead(mem: string, p: nat, d: string, n: int)
    requires Terminated(mem) && AllDigits(d) && TextAt(mem, p, d) && !IsDigit(mem[p + |d|])
    ensures Digits(mem, p, n) == (n * Power10(|d|) + Spelled(d), p + |d|)
  {
    hide Power10, Spelled, TextAt;
    DigitsOver(mem, p, d, n);
  }

  // ---------------------------------------------------------------- the three parts

  lemma {:induction false} LeadingZero(d: string)
    requires d != "" && AllDigits(d) && d[0] == '0'
    ensures Spelled(d) == Spelled(d[1..])
    decreases |d|
  {
    if |d| > 1 {
      var last := |d| - 1;
      assert d[..last][1..] == d[1..][..last - 1];
      LeadingZero(d[..last]);
    } else {
      assert d[..0] == "" && d[1..] == "";
    }
  }

  lemma TailText(mem: string, p: nat, d: string)
    requires d != "" && TextAt(mem, p, d)
    ensures mem[p] == d[0] && TextAt(mem, p + 1, d[1..])
  {
    assert d == [d[0]] + d[1..];
    hide TextAt;
    SplitText(mem, p, [d[0]], d[1..]);
    CharAt(mem, p, d, 0);
  }

  lemma RunFromZero(mem: string, p: nat, d: string)
    requires Terminated(mem) && AllDigits(d) && TextAt(mem, p, d) && !IsDigit(mem[p + |d|])
    ensures Digits(mem, p, 0) == (Spelled(d), p + |d|)
  {
    hide Power10, Spelled, TextAt;
    RunRead(mem, p, d, 0);
    assert 0 * Power10(|d|) == 0;
  }

  lemma WholeRead(mem: string, p: nat, d: string)
    requires Terminated(mem) && IsWhole(d) && TextAt(mem, p, d) && WholeEnds(d, mem[p + |d|])
    ensures Whole(mem, p) == (Spelled(d), p + |d|)
  {
    hide TextAt, Digits;
    if d != "" {
      TailText(mem, p, d);
      if d[0] == '0' {
        LeadingZero(d);
        if |d| > 1 {
          CharAt(mem, p, d, 1);
          RunFromZero(mem, p + 1, d[1..]);
        }
      } else {
        RunFromZero(mem, p, d);
      }
    }
  }

  lemma PointRead(mem: string, p: nat, fraction: string, n: int)
    requires Terminated(mem) && AllDigits(fraction) && TextAt(mem, p, PointText(fraction))
    requires var c := mem[p + |PointText(fraction)|];
             if fraction != "" then !IsDigit(c) else !(c == '.' && IsDigit(mem[p + 1]))
    ensures Fraction(mem, p, n) == (n * Power10(|fraction|) + Spelled(fraction), p + |PointText(fraction)|)
  {
    hide TextAt, Digits, Spelled;
    if fraction != "" {
      SplitText(mem, p, ".", fraction);
      CharAt(mem, p, ".", 0);
      CharAt(mem, p + 1, fraction, 0);
      RunRead(mem, p + 1, fraction, n);
    } else {
      assert Spelled("") == 0 && n * Power10(0) == n by { NothingSpelled(n); }
    }
  }

  lemma NothingSpelled(n: int)
    ensures Spelled("") == 0 && n * Power10(0) == n
  {
  }

  lemma PowerParts(e: Power)
    requires IsPower(e)
    ensures PowerText(Some(e)) == [e.letter] + e.sign + e.digits && |PowerText(Some(e))| == 1 + |e.sign| + |e.digits|
    ensures e.digits != "" ==> IsDigit(e.digits[0])
  {
  }

  /** What stands where in a power of ten. */
  lemma PowerPlaces(mem: string, p: nat, e: Power)
    requires IsPower(e) && TextAt(mem, p, [e.letter] + e.sign + e.digits)
    ensures var at := p + 1 + |e.sign|;
            && at + |e.digits| < |mem| && TextAt(mem, at, e.digits) && mem[p] == e.letter
            && (e.sign != "" ==> mem[p + 1] == e.sign[0])
            && (e.digits != "" ==> IsDigit(mem[at]))
  {
    hide *;
    PowerParts(e);
    SplitText(mem, p, [e.letter] + e.sign, e.digits);
    SplitText(mem, p, [e.letter], e.sign);
    CharAt(mem, p, [e.letter], 0);
    if e.sign != "" { CharAt(mem, p + 1, e.sign, 0); }
    if e.digits != "" { CharAt(mem, p + 1 + |e.sign|, e.digits, 0); }
    Inside(mem, p + 1 + |e.sign|, e.digits);
  }

  lemma Inside(mem: string, p: nat, s: string)
    requires TextAt(mem, p, s)
    ensures p + |s| < |mem|
  {
  }

  /** What follows a power does not belong to it. */
  lemma PowerStops(e: Power, c: char)
    requires PowerEnds(e, c)
    ensures !IsDigit(c) && (e.sign == "" && e.digits == "" ==> c != '+' && c != '-')
  {
  }

  lemma DigitIsNoSign(c: char)
    requires IsDigit(c)
    ensures c != '+' && c != '-'
  {
  }

  lemma PowerStep(mem: string, p: nat, e: Power, end: nat)
    requires Terminated(mem) && p < |mem| && IsPower(e) && mem[p] == e.letter && p + 1 + |e.sign| < |mem|
    requires if e.sign == "" then mem[p + 1] != '+' && mem[p + 1] != '-' else mem[p + 1] == e.sign[0]
    requires Digits(mem, p + 1 + |e.sign|, 0) == (Spelled(e.digits), end)
    ensures Exponent(mem, p) == (PowerOf(Some(e)), end)
  {
    hide Digits, Spelled;
  }

  lemma PowerRead(mem: string, p: nat, e: Power)
    requires Terminated(mem) && IsPower(e) && TextAt(mem, p, PowerText(Some(e))) && PowerEnds(e, mem[p + |PowerText(Some(e))|])
    ensures Exponent(mem, p) == (PowerOf(Some(e)), p + |PowerText(Some(e))|)
  {
    hide *;
    PowerParts(e);
    PowerPlaces(mem, p, e);
    var at := p + 1 + |e.sign|;
    PowerStops(e, mem[at + |e.digits|]);
    if e.sign == "" && e.digits != "" { DigitIsNoSign(mem[at]); }
    PowerDigits(e);
    RunFromZero(mem, at, e.digits);
    PowerStep(mem, p, e, at + |e.digits|);
  }

  lemma PowerDigits(e: Power)
    requires IsPower(e)
    ensures AllDigits(e.digits)
  {
  }

  /** What stands behind each part of a numeral. */
  lemma Between(mem: string, n: Numeral, q1: nat, q2: nat, e: nat)
    requires Terminated(mem) && IsNumeral(n) && q2 == q1 + |PointText(n.fraction)| && e == q2 + |PowerText(n.power)| < |mem|
    requires TextAt(mem, q1, PointText(n.fraction)) && TextAt(mem, q2, PowerText(n.power)) && Ends(n, mem, e)
    ensures WholeEnds(n.whole, mem[q1])
    ensures var c := mem[q2]; if n.fraction != "" then !IsDigit(c) else !(c == '.' && IsDigit(mem[q1 + 1]))
  {
    hide *;
    if n.power == None { EndsIs(n, mem, e); }
    PartsBegin(n);
    if n.fraction != "" { CharAt(mem, q1, PointText(n.fraction), 0); }
    if n.power.Some? { CharAt(mem, q2, PowerText(n.power), 0); }
    StopsWhole(n.whole);
  }

  lemma EndsIs(n: Numeral, mem: string, e: nat)
    requires Terminated(mem) && e < |mem| && Ends(n, mem, e) && n.power == None
    ensures n.fraction != "" ==> !IsDigit(mem[e])
    ensures n.fraction == "" ==> WholeEnds(n.whole, mem[e]) && !(mem[e] == '.' && IsDigit(mem[e + 1]))
  {
  }

  lemma PartsBegin(n: Numeral)
    requires IsNumeral(n)
    ensures if n.fraction == "" then PointText(n.fraction) == "" else PointText(n.fraction) != "" && PointText(n.fraction)[0] == '.'
    ensures n.power == None ==> PowerText(n.power) == ""
    ensures n.power.Some? ==> PowerText(n.power) != "" && (PowerText(n.power)[0] == 'e' || PowerText(n.power)[0] == 'E')
  {
  }

  lemma StopsWhole(whole: string)
    ensures WholeEnds(whole, '.') && WholeEnds(whole, 'e') && WholeEnds(whole, 'E') && !IsDigit('e') && !IsDigit('E')
  {
  }

  // ---------------------------------------------------------------- the numeral as a whole

  /** Where the parts of a numeral stand. */
  lemma PartsAt(mem: string, p: nat, n: Numeral)
    requires IsNumeral(n) && TextAt(mem, p, Text(n)) && (n.minus || n.whole != "")
    ensures (mem[p] == '-' <==> n.minus) && (n.minus || IsDigit(mem[p]))
    ensures var q := if n.minus then p + 1 else p;
            var q1 := q + |n.whole|;
            var q2 := q1 + |PointText(n.fraction)|;
            && TextAt(mem, q, n.whole) && TextAt(mem, q1, PointText(n.fraction)) && TextAt(mem, q2, PowerText(n.power))
            && q2 + |PowerText(n.power)| == p + |Text(n)|
  {
    hide TextAt, PointText, PowerText;
    var sign := if n.minus then "-" else "";
    SplitText(mem, p, sign + n.whole + PointText(n.fraction), PowerText(n.power));
    SplitText(mem, p, sign + n.whole, PointText(n.fraction));
    SplitText(mem, p, sign, n.whole);
    CharAt(mem, p, sign + n.whole, 0);
  }

  lemma ThreeParts(mem: string, p: nat, n: Numeral, q1: nat, q2: nat, e: nat)
    requires Terminated(mem) && p < |mem| && IsNumeral(n) && (n.minus <==> mem[p] == '-') && q1 < |mem| && q2 < |mem|
    requires Whole(mem, if n.minus then p + 1 else p) == (Spelled(n.whole), q1) && q2 == q1 + |PointText(n.fraction)|
    requires Fraction(mem, q1, Spelled(n.whole)) == (Spelled(n.whole) * Power10(|n.fraction|) + Spelled(n.fraction), q2)
    requires Exponent(mem, q2) == (PowerOf(n.power), e)
    ensures NumberAt(mem, p) == (Number(Mantissa(n), Exponent10(n)), e)
  {
    hide Whole, Fraction, Exponent, Spelled, Power10, PowerOf;
  }

  /** A numeral, wherever it stands, is read as the number it spells, to its own end. */
  lemma NumeralRead(mem: string, p: nat, n: Numeral)
    requires Terminated(mem) && IsNumeral(n) && (n.minus || n.whole != "")
    requires TextAt(mem, p, Text(n)) && Ends(n, mem, p + |Text(n)|)
    ensures mem[p] == '-' || IsDigit(mem[p])
    ensures NumberAt(mem, p) == (Number(Mantissa(n), Exponent10(n)), p + |Text(n)|)
  {
    hide TextAt, Text, PointText, PowerText, Whole, Fraction, Exponent, Spelled, Power10, PowerOf, NumberAt;
    PartsAt(mem, p, n);
    var q := if n.minus then p + 1 else p;
    var q1 := q + |n.whole|;
    var q2 := q1 + |PointText(n.fraction)|;
    Between(mem, n, q1, q2, p + |Text(n)|);
    WholeRead(mem, q, n.whole);
    PointRead(mem, q1, n.fraction, Spelled(n.whole));
    if n.power.Some? { PowerRead(mem, q2, n.power.value); } else { NoPowerAt(mem, q2, n, p + |Text(n)|); }
    ThreeParts(mem, p, n, q1, q2, p + |Text(n)|);
  }

  lemma NoPowerAt(mem: string, q: nat, n: Numeral, e: nat)
    requires Terminated(mem) && n.power == None && e == q + |PowerText(None)| < |mem| && Ends(n, mem, e)
    ensures e == q && Exponent(mem, q) == (PowerOf(n.power), e)
  {
  }

  /** The same for the value that starts there. */
  lemma NumeralIsValue(mem: string, p: nat, n: Numeral)
    requires Terminated(mem) && IsNumeral(n) && (n.minus || n.whole != "")
    requires TextAt(mem, p, Text(n)) && Ends(n, mem, p + |Text(n)|)
    ensures ValueAt(mem, p) == Parsed(Number(Mantissa(n), Exponent10(n)), p + |Text(n)|)
  {
    hide TextAt, Text, Ends, NumberAt, ValueAt;
    NumeralRead(mem, p, n);
    NotALiteral(mem, p);
  }

  /** A decimal as it is written, a minus, a point and an exponent included, is read as exactly the number it spells. */
  lemma DecimalRead(mem: string, p: nat, minus: bool, a: nat, digits: string, power: Option<Power>)
    requires Terminated(mem) && AllDigits(digits) && (power.Some? ==> IsPower(power.value))
    requires var n := Numeral(minus, Decimal(a), digits, power); TextAt(mem, p, Text(n)) && Ends(n, mem, p + |Text(n)|)
    ensures var n := Numeral(minus, Decimal(a), digits, power);
            var size := a * Power10(|digits|) + Spelled(digits);
            ValueAt(mem, p) == Parsed(Number(if minus then -size else size, PowerOf(power) - |digits|), p + |Text(n)|)
  {
    hide TextAt, Text, Ends, ValueAt, Spelled, PowerOf;
    var n := Numeral(minus, Decimal(a), digits, power);
    SpelledDecimal(a);
    DecimalIsWhole(a);
    NumeralIsValue(mem, p, n);
  }

  lemma DecimalIsWhole(a: nat)
    ensures IsWhole(Decimal(a)) && Decimal(a) != ""
  {
    if a == 0 { assert |Decimal(a)| == 1; }
  }

  // ---------------------------------------------------------------- nothing else is read as a number

  lemma JoinText(mem: string, p: nat, a: string, b: string)
    requires TextAt(mem, p, a) && TextAt(mem, p + |a|, b)
    ensures TextAt(mem, p, a + b)
  {
    forall i | 0 <= i < |a + b| ensures mem[p + i] == (a + b)[i] {
      if i < |a| { CharAt(mem, p, a, i); } else { CharAt(mem, p + |a|, b, i - |a|); }
    }
  }

  /** A stretch of digits and the byte it ends at. */
  lemma RunThere(mem: string, p: nat, n: int) returns (d: string)
    requires Terminated(mem) && p < |mem|
    ensures AllDigits(d) && TextAt(mem, p, d) && Digits(mem, p, n).1 == p + |d| && !IsDigit(mem[p + |d|])
    ensures IsDigit(mem[p]) ==> d != "" && d[0] == mem[p]
  {
    d := mem[p..Digits(mem, p, n).1];
  }

  lemma OneThere(mem: string, p: nat)
    requires p + 1 < |mem|
    ensures TextAt(mem, p, [mem[p]])
  {
  }

  lemma WholeThere(mem: string, p: nat) returns (d: string)
    requires Terminated(mem) && p < |mem|
    ensures IsWhole(d) && TextAt(mem, p, d) && Whole(mem, p).1 == p + |d|
    ensures WholeEnds(d, mem[p + |d|]) && (IsDigit(mem[p]) ==> d != "")
  {
    hide TextAt, Digits;
    NothingThere(mem, p);
    d := "";
    if mem[p] == '0' {
      OneThere(mem, p);
      d := "0";
      if '1' <= mem[p + 1] <= '9' {
        var run := RunThere(mem, p + 1, 0);
        JoinText(mem, p, "0", run);
        d := "0" + run;
      }
    } else if '1' <= mem[p] <= '9' {
      d := RunThere(mem, p, 0);
    }
  }

  lemma NothingThere(mem: string, p: nat)
    requires p < |mem|
    ensures TextAt(mem, p, "")
  {
  }

  lemma PointThere(mem: string, p: nat, n: int) returns (d: string)
    requires Terminated(mem) && p < |mem|
    ensures AllDigits(d) && TextAt(mem, p, PointText(d)) && Fraction(mem, p, n).1 == p + |PointText(d)|
    ensures if d != "" then !IsDigit(mem[p + |PointText(d)|]) else !(mem[p] == '.' && IsDigit(mem[p + 1]))
  {
    hide TextAt, Digits;
    NothingThere(mem, p);
    d := "";
    if mem[p] == '.' && IsDigit(mem[p + 1]) {
      OneThere(mem, p);
      d := RunThere(mem, p + 1, n);
      JoinText(mem, p, ".", d);
    }
  }

  function SignOf(c: char): string {
    if c == '+' || c == '-' then [c] else ""
  }

  lemma PowerThere(mem: string, p: nat) returns (e: Option<Power>)
    requires Terminated(mem) && p < |mem|
    ensures e.Some? ==> IsPower(e.value) && PowerEnds(e.value, mem[Exponent(mem, p).1])
    ensures e == None ==> mem[p] != 'e' && mem[p] != 'E'
    ensures TextAt(mem, p, PowerText(e)) && Exponent(mem, p).1 == p + |PowerText(e)|
  {
    hide TextAt, Digits;
    NothingThere(mem, p);
    e := None;
    if mem[p] == 'e' || mem[p] == 'E' {
      var sign := SignOf(mem[p + 1]);
      var at := p + 1 + |sign|;
      OneThere(mem, p);
      NothingThere(mem, p + 1);
      if sign != "" { OneThere(mem, p + 1); }
      JoinText(mem, p, [mem[p]], sign);
      var digits := RunThere(mem, at, 0);
      JoinText(mem, p, [mem[p]] + sign, digits);
      e := Some(Power(mem[p], sign, digits));
    }
  }

  /** The parts of a numeral, one behind the other. */
  lemma PartsThere(mem: string, p: nat, n: Numeral)
    requires IsNumeral(n) && p < |mem| && (n.minus ==> mem[p] == '-' && p + 1 < |mem|)
    requires var q := if n.minus then p + 1 else p;
             var q1 := q + |n.whole|;
             TextAt(mem, q, n.whole) && TextAt(mem, q1, PointText(n.fraction)) && TextAt(mem, q1 + |PointText(n.fraction)|, PowerText(n.power))
    ensures TextAt(mem, p, Text(n))
  {
    hide TextAt, PointText, PowerText;
    var sign := if n.minus then "-" else "";
    NothingThere(mem, p);
    if n.minus { OneThere(mem, p); }
    JoinText(mem, p, sign, n.whole);
    JoinText(mem, p, sign + n.whole, PointText(n.fraction));
    JoinText(mem, p, sign + n.whole + PointText(n.fraction), PowerText(n.power));
  }

  /** Wherever the parser reads a number, a numeral stands, through the place where the reading ends. */
  lemma NumeralThere(mem: string, p: nat) returns (n: Numeral)
    requires Terminated(mem) && p < |mem| && (mem[p] == '-' || IsDigit(mem[p]))
    ensures IsNumeral(n) && (n.minus || n.whole != "") && TextAt(mem, p, Text(n)) && Ends(n, mem, p + |Text(n)|)
    ensures NumberAt(mem, p) == (Number(Mantissa(n), Exponent10(n)), p + |Text(n)|)
  {
    hide TextAt, Text, PointText, PowerText, Whole, Fraction, Exponent, Mantissa, Exponent10, NumberAt;
    var q := if mem[p] == '-' then p + 1 else p;
    var whole := WholeThere(mem, q);
    var q1 := q + |whole|;
    var fraction := PointThere(mem, q1, Whole(mem, q).0);
    var q2 := q1 + |PointText(fraction)|;
    var power := PowerThere(mem, q2);
    n := Numeral(mem[p] == '-', whole, fraction, power);
    PartsThere(mem, p, n);
    TextLength(n);
    EndsThere(mem, n, q1, q2);
    NumeralRead(mem, p, n);
  }

  lemma TextLength(n: Numeral)
    ensures |Text(n)| == (if n.minus then 1 else 0) + |n.whole| + |PointText(n.fraction)| + |PowerText(n.power)|
  {
  }

  lemma EndsThere(mem: string, n: Numeral, q1: nat, q2: nat)
    requires Terminated(mem) && q1 < |mem| && q2 == q1 + |PointText(n.fraction)| && q2 + |PowerText(n.power)| < |mem|
    requires WholeEnds(n.whole, mem[q1])
    requires if n.fraction != "" then !IsDigit(mem[q2]) else !(mem[q1] == '.' && IsDigit(mem[q1 + 1]))
    requires if n.power == None then mem[q2] != 'e' && mem[q2] != 'E'
             else PowerEnds(n.power.value, mem[q2 + |PowerText(n.power)|])
    ensures Ends(n, mem, q2 + |PowerText(n.power)|)
  {
  }
}
