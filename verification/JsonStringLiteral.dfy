/**
 * What parse_string makes of any JSON string literal that the grammar allows (section 7 of RFC 8259), against the
 * meaning of the literal: a sequence of code points written in UTF-8 (section 3 of RFC 3629).
 */
module JsonStringLiteral {
  import opened Json
  import opened JsonText
  import opened JsonRoundTrip
  import opened Sequences

  // ---------------------------------------------------------------- UTF-8

  /** The code point that a UTF-8 sequence spells, read by the bit layout of RFC 3629. */
  function DecodeUtf8(s: string): Option<nat> {
    if |s| == 1 && s[0] as int < 0x80 then Some(s[0] as int)
    else if |s| == 2 && 0xC0 <= s[0] as int < 0xE0 && IsTail(s[1]) then
      Some((s[0] as int - 0xC0) * 0x40 + Tail(s[1]))
    else if |s| == 3 && 0xE0 <= s[0] as int < 0xF0 && IsTail(s[1]) && IsTail(s[2]) then
      Some((s[0] as int - 0xE0) * 0x1000 + Tail(s[1]) * 0x40 + Tail(s[2]))
    else if |s| == 4 && 0xF0 <= s[0] as int < 0xF8 && IsTail(s[1]) && IsTail(s[2]) && IsTail(s[3]) then
      Some((s[0] as int - 0xF0) * 0x40000 + Tail(s[1]) * 0x1000 + Tail(s[2]) * 0x40 + Tail(s[3]))
    else None
  }

  predicate IsTail(c: char) {
    0x80 <= c as int < 0xC0
  }

  function Tail(c: char): nat
    requires IsTail(c)
  {
    c as int - 0x80
  }

  /** The number of bytes RFC 3629 prescribes for a code point. */
  function Utf8Length(uc: nat): nat {
    if uc < 0x80 then 1 else if uc < 0x800 then 2 else if uc < 0x10000 then 3 else 4
  }

  lemma FourBytes(uc: nat)
    requires 0x10000 <= uc < 0x110000
    ensures DecodeUtf8(EncodeUtf8(uc)) == Some(uc)
  {
    var s, a, b, top := EncodeUtf8(uc), uc / 64, uc / 4096, uc / 262144;
    assert s[0] as int == 0xF0 + top && Tail(s[1]) == b % 64 && Tail(s[2]) == a % 64 && Tail(s[3]) == uc % 64;
    hide EncodeUtf8;
    assert top < 5;
    assert uc == a * 64 + uc % 64 && a == b * 64 + a % 64 && b == top * 64 + b % 64;
  }

  lemma ThreeBytes(uc: nat)
    requires 0x800 <= uc < 0x10000
    ensures DecodeUtf8(EncodeUtf8(uc)) == Some(uc)
  {
    var a, top := uc / 64, uc / 4096;
    assert uc == a * 64 + uc % 64 && a == top * 64 + a % 64;
  }

  lemma TwoBytes(uc: nat)
    requires 0x80 <= uc < 0x800
    ensures DecodeUtf8(EncodeUtf8(uc)) == Some(uc)
  {
  }

  lemma EncodingIsBytes(uc: nat)
    requires uc < 0x110000
    ensures |EncodeUtf8(uc)| == Utf8Length(uc)
    ensures forall i :: 0 <= i < |EncodeUtf8(uc)| ==> EncodeUtf8(uc)[i] as int < 0x100
  {
  }

  /** The bytes written for a code point are its UTF-8 encoding: they decode to it, in the shortest form. */
  lemma EncodingDecodes(uc: nat)
    requires uc < 0x110000
    ensures DecodeUtf8(EncodeUtf8(uc)) == Some(uc) && |EncodeUtf8(uc)| == Utf8Length(uc)
    ensures forall i :: 0 <= i < |EncodeUtf8(uc)| ==> EncodeUtf8(uc)[i] as int < 0x100
  {
    EncodingIsBytes(uc);
    if uc >= 0x10000 {
      FourBytes(uc);
    } else if uc >= 0x800 {
      ThreeBytes(uc);
    } else if uc >= 0x80 {
      TwoBytes(uc);
    }
  }

  // ---------------------------------------------------------------- literals

  /** One unit of a literal's body: a character, an escape of two characters, or an escape of four digits. */
  datatype Unit = Plain(c: char) | Short(letter: char) | Code(hex: string)

  predicate IsHex4(h: string) {
    |h| == 4 && IsHex(h[0]) && IsHex(h[1]) && IsHex(h[2]) && IsHex(h[3])
  }

  function HexNumber(h: string): (n: nat)
    requires IsHex4(h)
    ensures n < 0x10000
  {
    HexValue(h[0]) * 4096 + HexValue(h[1]) * 256 + HexValue(h[2]) * 16 + HexValue(h[3])
  }

  /** The sixteen digits in either case, and no others. */
  lemma HexDigits(c: char, n: nat)
    ensures IsHex(c) <==> c in "0123456789abcdefABCDEF"
    ensures n < 16 ==> (IsHex(c) && HexValue(c) == n <==> c == "0123456789abcdef"[n] || c == "0123456789ABCDEF"[n])
  {
    HexLetters(c);
    hide HexValue, IsHex;
    if n < 16 {
      HexOf(n);
      if IsHex(c) { HexIs(c); }
    }
  }

  lemma HexOf(n: nat)
    requires n < 16
    ensures var c, d := "0123456789abcdef"[n], "0123456789ABCDEF"[n]; IsHex(c) && IsHex(d) && HexValue(c) == HexValue(d) == n
  {
  }

  lemma HexIs(c: char)
    requires IsHex(c)
    ensures c == "0123456789abcdef"[HexValue(c)] || c == "0123456789ABCDEF"[HexValue(c)]
  {
  }

  lemma HexLetters(c: char)
    ensures IsHex(c) <==> c in "0123456789abcdefABCDEF"
  {
  }

  /** Just what the grammar says. */
  predicate WellFormed(u: Unit) {
    match u
    case Plain(c) => c != '\"' && c != '\\' && c as int >= 0x20
    case Short(l) => l in ['\"', '\\', '/', 'b', 'f', 'n', 'r', 't']
    case Code(h) => IsHex4(h)
  }

  /** The number of a four-digit escape, and 1 for anything else. */
  function Number(u: Unit): nat
    requires WellFormed(u)
  {
    if u.Code? then HexNumber(u.hex) else 1
  }

  /** The first half of a surrogate pair. */
  predicate IsHigh(u: Unit)
    requires WellFormed(u)
  {
    0xD800 <= Number(u) < 0xDC00
  }

  predicate IsLow(u: Unit)
    requires WellFormed(u)
  {
    0xDC00 <= Number(u) < 0xE000
  }

  predicate AllWellFormed(us: seq<Unit>) {
    forall i :: 0 <= i < |us| ==> WellFormed(us[i])
  }

  function Source(u: Unit): string {
    match u
    case Plain(c) => [c]
    case Short(l) => ['\\', l]
    case Code(h) => "\\u" + h
  }

  function SourceOf(us: seq<Unit>): string {
    if us == [] then "" else Source(us[0]) + SourceOf(us[1..])
  }

  /** UTF-16: twenty bits, ten from each half, above 0x10000. */
  function Supplementary(high: nat, low: nat): (uc: nat)
    requires 0xD800 <= high < 0xDC00 && 0xDC00 <= low < 0xE000
    ensures 0x10000 <= uc < 0x110000
  {
    0x10000 + (high - 0xD800) * 0x400 + (low - 0xDC00)
  }

  /** The UTF-8 text of a unit that stands for a character by itself. */
  function TextOf(u: Unit): string
    requires WellFormed(u) && !IsHigh(u) && !IsLow(u)
  {
    match u
    case Plain(c) => [c]
    case Short(l) =>
      if l == 'b' then [BACKSPACE] else if l == 'f' then [FORMFEED] else if l == 'n' then "\n"
      else if l == 'r' then "\r" else if l == 't' then "\t" else [l]
    case Code(h) => EncodeUtf8(HexNumber(h))
  }

  /** The UTF-8 text of a literal; there is none when a half of a pair stands alone. */
  function MeaningOf(us: seq<Unit>): Option<string>
    requires AllWellFormed(us)
  {
    if us == [] then Some("")
    else if IsLow(us[0]) then None
    else if IsHigh(us[0]) then
      if |us| > 1 && IsLow(us[1]) then After(EncodeUtf8(Supplementary(Number(us[0]), Number(us[1]))), MeaningOf(us[2..]))
      else None
    else After(TextOf(us[0]), MeaningOf(us[1..]))
  }

  function After(s: string, rest: Option<string>): Option<string> {
    if rest.Some? then Some(s + rest.value) else None
  }

  /** Bit 0x40 of the high half is clear; otherwise or-ing 0x10000 in is not the same as adding it. */
  predicate BitClear(high: nat) {
    high / 0x40 % 2 == 0
  }

  lemma CombineExactly(high: nat, low: nat)
    requires 0xD800 <= high < 0xDC00 && 0xDC00 <= low < 0xE000
    ensures BitClear(high) ==> CombineSurrogates(high, low) == Supplementary(high, low)
    ensures !BitClear(high) ==> CombineSurrogates(high, low) == Supplementary(high, low) - 0x10000
  {
    var x := high - 0xD800;
    assert high / 0x40 == 0x360 + x / 0x40;
    assert x * 0x400 / 0x10000 == x / 0x40;
  }

  // ---------------------------------------------------------------- what the parser stores

  /** How many units are read together: a first half takes any four-digit escape after it along. */
  function Taken(us: seq<Unit>): (n: nat)
    requires us != [] && AllWellFormed(us)
    ensures 1 <= n <= 2 && n <= |us|
  {
    if IsHigh(us[0]) && |us| > 1 && us[1].Code? then 2 else 1
  }

  /** The bytes written for the units read together; a half that has no second half, and U+0000, write nothing. */
  function Written(us: seq<Unit>): string
    requires us != [] && AllWellFormed(us)
  {
    if IsHigh(us[0]) then
      if |us| > 1 && IsLow(us[1]) then EncodeUtf8(CombineSurrogates(Number(us[0]), Number(us[1]))) else ""
    else if IsLow(us[0]) || Number(us[0]) == 0 then ""
    else TextOf(us[0])
  }

  function WrittenOf(us: seq<Unit>): string
    requires AllWellFormed(us)
  {
    if us == [] then "" else Written(us) + WrittenOf(us[Taken(us)..])
  }

  /** The source text of the units read together. */
  function SourceTaken(us: seq<Unit>): string
    requires us != [] && AllWellFormed(us)
  {
    if Taken(us) == 2 then Source(us[0]) + Source(us[1]) else Source(us[0])
  }

  lemma SourceStep(us: seq<Unit>)
    requires us != []
    ensures SourceOf(us) == Source(us[0]) + SourceOf(us[1..])
  {
    hide Source;
  }

  lemma TakenIs(us: seq<Unit>)
    requires us != [] && AllWellFormed(us)
    ensures 1 <= Taken(us) <= |us| && Taken(us) <= 2
    ensures SourceTaken(us) == if Taken(us) == 2 then Source(us[0]) + Source(us[1]) else Source(us[0])
  {
    hide Source, SourceOf;
  }

  lemma SourceSplits(us: seq<Unit>)
    requires us != [] && AllWellFormed(us)
    ensures SourceOf(us) == SourceTaken(us) + SourceOf(us[Taken(us)..])
    ensures |us| > 1 ==> SourceOf(us[1..]) == Source(us[1]) + SourceOf(us[1..][1..])
  {
    hide *;
    SourceStep(us);
    TakenIs(us);
    if |us| > 1 { SourceStep(us[1..]); }
    if Taken(us) == 2 {
      assert us[1..][1..] == us[2..];
      Regroup(Source(us[0]), Source(us[1]), SourceOf(us[2..]));
    }
  }

  /** The body of a literal stands at p, and its closing quote follows. */
  predicate BodyAt(mem: string, p: nat, us: seq<Unit>) {
    TextAt(mem, p, SourceOf(us)) && mem[p + |SourceOf(us)|] == '\"'
  }

  /** The units that are read together are read whole. */
  lemma UnitsRead(us: seq<Unit>, mem: string, p: nat)
    requires Terminated(mem) && us != [] && AllWellFormed(us) && BodyAt(mem, p, us)
    ensures Body(mem, p) == Prepend(Written(us), Body(mem, p + |SourceTaken(us)|))
    ensures BodyAt(mem, p + |SourceTaken(us)|, us[Taken(us)..])
  {
    hide Source, Written, WellFormed, Body, EscapeAt, AllWellFormed;
    SourceSplits(us);
    SplitText(mem, p, SourceTaken(us), SourceOf(us[Taken(us)..]));
    OneWellFormed(us);
    if us[0].Plain? {
      PlainUnit(us, mem, p);
    } else {
      FirstUnitAt(us, mem, p);
      UnitAt(us[0], mem, p);
      if us[0].Short? { ShortUnit(us, mem, p); } else { CodeUnit(us, mem, p); }
      EscapeStep(mem, p);
    }
  }

  lemma OneWellFormed(us: seq<Unit>)
    requires us != [] && AllWellFormed(us)
    ensures WellFormed(us[0]) && AllWellFormed(us[Taken(us)..]) && (|us| > 1 ==> WellFormed(us[1]))
  {
  }

  lemma EscapeStep(mem: string, p: nat)
    requires Terminated(mem) && p < |mem| && mem[p] == '\\' && EscapeAt(mem, p).Parsed?
    ensures Body(mem, p) == Prepend(EscapeAt(mem, p).value, Body(mem, EscapeAt(mem, p).end))
  {
    hide EscapeAt;
  }

  lemma PlainUnit(us: seq<Unit>, mem: string, p: nat)
    requires Terminated(mem) && us != [] && AllWellFormed(us) && us[0].Plain? && TextAt(mem, p, SourceTaken(us))
    ensures Body(mem, p) == Prepend(Written(us), Body(mem, p + |SourceTaken(us)|))
  {
    CharAt(mem, p, SourceTaken(us), 0);
  }

  /** The characters of a unit. */
  lemma UnitAt(u: Unit, mem: string, p: nat)
    requires WellFormed(u) && TextAt(mem, p, Source(u))
    ensures p + |Source(u)| < |mem| && mem[p] == if u.Plain? then u.c else '\\'
    ensures u.Short? ==> |Source(u)| == 2 && mem[p + 1] == u.letter
    ensures u.Code? ==> |Source(u)| == 6 && mem[p + 1] == 'u' && HasHex4(mem, p + 2) && Hex4(mem, p + 2) == Number(u)
  {
    hide Hex4, HexNumber, HasHex4;
    CharAt(mem, p, Source(u), 0);
    if !u.Plain? { CharAt(mem, p, Source(u), 1); }
    if u.Code? {
      assert Source(u)[2..6] == u.hex;
      HexRead(mem, p, Source(u), 2, u.hex);
    }
  }

  lemma FirstUnitAt(us: seq<Unit>, mem: string, p: nat)
    requires us != [] && AllWellFormed(us) && TextAt(mem, p, SourceTaken(us))
    ensures TextAt(mem, p, Source(us[0]))
  {
    hide TextAt, Source;
    if Taken(us) == 2 { SplitText(mem, p, Source(us[0]), Source(us[1])); }
  }

  lemma ShortUnit(us: seq<Unit>, mem: string, p: nat)
    requires Terminated(mem) && us != [] && AllWellFormed(us) && us[0].Short?
    requires TextAt(mem, p, Source(us[0])) && mem[p] == '\\' && mem[p + 1] == us[0].letter
    ensures EscapeAt(mem, p) == Parsed(Written(us), p + |SourceTaken(us)|)
  {
  }

  lemma CodeUnit(us: seq<Unit>, mem: string, p: nat)
    requires Terminated(mem) && us != [] && AllWellFormed(us) && us[0].Code? && BodyAt(mem, p, us)
    requires mem[p] == '\\' && mem[p + 1] == 'u' && HasHex4(mem, p + 2) && Hex4(mem, p + 2) == Number(us[0])
    ensures EscapeAt(mem, p) == Parsed(Written(us), p + |SourceTaken(us)|)
  {
    hide TextAt, Hex4, HasHex4, HexNumber, IsHex4, EncodeUtf8, CombineSurrogates, BodyAt, Source;
    CodeIsSix(us[0]);
    if IsHigh(us[0]) { AfterHigh(us, mem, p); }
  }

  /** What follows a first half: another four-digit escape, or no escape of that kind. */
  lemma AfterHigh(us: seq<Unit>, mem: string, p: nat)
    requires us != [] && AllWellFormed(us) && IsHigh(us[0]) && BodyAt(mem, p, us)
    ensures p + 6 < |mem| && us[0].Code? && |Source(us[0])| == 6
    ensures Taken(us) == 1 ==> mem[p + 6] != '\\' || (p + 7 < |mem| && mem[p + 7] != 'u')
    ensures Taken(us) == 2 ==>
              && p + 7 < |mem| && mem[p + 6] == '\\' && mem[p + 7] == 'u' && |Source(us[1])| == 6
              && HasHex4(mem, p + 8) && Hex4(mem, p + 8) == Number(us[1])
  {
    hide TextAt, Hex4, HasHex4, HexNumber, IsHex, SourceOf, Source;
    HighIsSix(us[0]);
    SourceUnfold(us);
    SplitText(mem, p, Source(us[0]), SourceOf(us[1..]));
    if |us| > 1 {
      SourceUnfold(us[1..]);
      SplitText(mem, p + 6, Source(us[1]), SourceOf(us[1..][1..]));
      UnitAt(us[1], mem, p + 6);
    }
  }

  lemma CodeIsSix(u: Unit)
    requires WellFormed(u) && u.Code?
    ensures |Source(u)| == 6
  {
  }

  lemma HighIsSix(u: Unit)
    requires WellFormed(u) && (IsHigh(u) || IsLow(u))
    ensures u.Code? && |Source(u)| == 6
  {
  }

  lemma SourceUnfold(us: seq<Unit>)
    ensures SourceOf(us) == if us == [] then "" else Source(us[0]) + SourceOf(us[1..])
    ensures |us| == 1 ==> SourceOf(us[1..]) == ""
  {
    hide Source;
    if |us| == 1 { assert us[1..] == []; }
  }

  lemma HexRead(mem: string, p: nat, src: string, k: nat, h: string)
    requires TextAt(mem, p, src) && IsHex4(h) && k + 4 <= |src| && src[k..k + 4] == h
    ensures HasHex4(mem, p + k) && Hex4(mem, p + k) == HexNumber(h)
  {
    forall i: nat | i < 4 ensures mem[p + k + i] == h[i] {
      assert src[k..k + 4][i] == src[k + i];
      CharAt(mem, p, src, k + i);
    }
    assert mem[p + k] == h[0] && mem[p + k + 1] == h[1] && mem[p + k + 2] == h[2] && mem[p + k + 3] == h[3];
  }

  /** Every literal that the grammar allows is read to its closing quote. */
  lemma {:induction false} LiteralRead(us: seq<Unit>, mem: string, p: nat)
    requires Terminated(mem) && AllWellFormed(us) && BodyAt(mem, p, us)
    ensures Body(mem, p) == Parsed(WrittenOf(us), p + |SourceOf(us)| + 1)
    decreases |us|
  {
    hide Source, Written, WellFormed, Body, AllWellFormed, SourceTaken, TextAt;
    if us == [] {
      QuoteCloses(mem, p);
    } else {
      OneWellFormed(us);
      SourceSplits(us);
      UnitsRead(us, mem, p);
      LiteralRead(us[Taken(us)..], mem, p + |SourceTaken(us)|);
    }
  }

  lemma QuoteCloses(mem: string, p: nat)
    requires Terminated(mem) && p < |mem| && mem[p] == '\"'
    ensures Body(mem, p) == Parsed("", p + 1)
  {
  }

  // ---------------------------------------------------------------- when that is what the literal means

  /** No U+0000, no half without its other half, and bit 0x40 clear in every first half. */
  predicate Faithful(us: seq<Unit>)
    requires AllWellFormed(us)
  {
    forall i :: 0 <= i < |us| ==> FaithfulAt(us, i)
  }

  /** What faithfulness asks of the unit at i. */
  predicate FaithfulAt(us: seq<Unit>, i: nat)
    requires AllWellFormed(us) && i < |us|
  {
    && Number(us[i]) != 0
    && (IsHigh(us[i]) ==> i + 1 < |us| && IsLow(us[i + 1]) && BitClear(Number(us[i])))
    && (IsLow(us[i]) ==> i > 0 && IsHigh(us[i - 1]))
  }

  lemma FaithfulHead(us: seq<Unit>)
    requires us != [] && AllWellFormed(us)
    ensures IsLow(us[0]) || Number(us[0]) == 0 ==> !Faithful(us)
    ensures IsHigh(us[0]) ==> (Faithful(us) <==>
              |us| > 1 && IsLow(us[1]) && BitClear(Number(us[0])) && AllWellFormed(us[2..]) && Faithful(us[2..]))
    ensures !IsLow(us[0]) && !IsHigh(us[0]) && Number(us[0]) != 0 ==>
              AllWellFormed(us[1..]) && (Faithful(us) <==> Faithful(us[1..]))
  {
    hide WellFormed, Number, BitClear, FaithfulAt;
    FaithfulFirst(us);
    if IsHigh(us[0]) {
      if |us| > 1 && IsLow(us[1]) {
        FaithfulTail(us, 2);
        FaithfulSecond(us);
      }
    } else if !IsLow(us[0]) && Number(us[0]) != 0 {
      FaithfulTail(us, 1);
    }
  }

  lemma FaithfulFirst(us: seq<Unit>)
    requires us != [] && AllWellFormed(us)
    ensures IsLow(us[0]) || Number(us[0]) == 0 ==> !FaithfulAt(us, 0) && !Faithful(us)
    ensures IsHigh(us[0]) ==>
              (FaithfulAt(us, 0) <==> |us| > 1 && IsLow(us[1]) && BitClear(Number(us[0]))) && (Faithful(us) ==> FaithfulAt(us, 0))
    ensures !IsLow(us[0]) && !IsHigh(us[0]) && Number(us[0]) != 0 ==> FaithfulAt(us, 0)
  {
    hide WellFormed, Number, BitClear;
    assert Faithful(us) ==> FaithfulAt(us, 0);
  }

  lemma FaithfulSecond(us: seq<Unit>)
    requires |us| > 1 && AllWellFormed(us) && IsHigh(us[0]) && IsLow(us[1])
    ensures FaithfulAt(us, 1)
  {
    hide WellFormed, Number, BitClear;
  }

  /** Faithfulness after a cut that no pair goes across. */
  lemma FaithfulTail(us: seq<Unit>, k: nat)
    requires AllWellFormed(us) && 1 <= k <= |us| && !IsHigh(us[k - 1])
    ensures AllWellFormed(us[k..])
    ensures Faithful(us) <==> Faithful(us[k..]) && forall i :: 0 <= i < k ==> FaithfulAt(us, i)
  {
    hide WellFormed, Number, BitClear, FaithfulAt;
    var tail := us[k..];
    forall i | k <= i < |us| ensures FaithfulAt(us, i) <==> FaithfulAt(tail, i - k) { SameFaithful(us, k, i); }
    forall i | 0 <= i < |tail| ensures FaithfulAt(us, i + k) <==> FaithfulAt(tail, i) { SameFaithful(us, k, i + k); }
  }

  lemma SameFaithful(us: seq<Unit>, k: nat, i: nat)
    requires AllWellFormed(us) && 1 <= k <= i < |us| && !IsHigh(us[k - 1])
    ensures AllWellFormed(us[k..]) && (FaithfulAt(us, i) <==> FaithfulAt(us[k..], i - k))
  {
    hide WellFormed, Number, BitClear, IsHigh, IsLow;
    var tail := us[k..];
    assert tail[i - k] == us[i];
    if i + 1 < |us| { assert tail[i + 1 - k] == us[i + 1]; }
    if i > k { assert tail[i - 1 - k] == us[i - 1]; }
  }

  /** What is written is the meaning exactly for faithful literals; it is never longer. */
  lemma {:induction false} WrittenIsMeant(us: seq<Unit>)
    requires AllWellFormed(us)
    ensures MeaningOf(us).Some? ==> |WrittenOf(us)| <= |MeaningOf(us).value|
    ensures MeaningOf(us) == Some(WrittenOf(us)) <==> Faithful(us)
    decreases |us|
  {
    if us != [] {
      hide WellFormed, Faithful, AllWellFormed, TextOf, EncodeUtf8, CombineSurrogates, Supplementary, BitClear, Number;
      OneWellFormed(us);
      FaithfulHead(us);
      if IsHigh(us[0]) {
        if |us| > 1 && IsLow(us[1]) {
          LowIsCode(us[1]);
          WrittenIsMeant(us[2..]);
          PairWritten(Number(us[0]), Number(us[1]));
          SameParts(EncodeUtf8(CombineSurrogates(Number(us[0]), Number(us[1]))), WrittenOf(us[2..]),
                    EncodeUtf8(Supplementary(Number(us[0]), Number(us[1]))), MeaningOf(us[2..]));
        }
      } else if !IsLow(us[0]) {
        WrittenIsMeant(us[1..]);
        if Number(us[0]) == 0 {
          ZeroText(us[0]);
        } else {
          SameParts(TextOf(us[0]), WrittenOf(us[1..]), TextOf(us[0]), MeaningOf(us[1..]));
        }
      }
    }
  }

  lemma LowIsCode(u: Unit)
    requires WellFormed(u) && IsLow(u)
    ensures u.Code?
  {
  }

  lemma ZeroText(u: Unit)
    requires WellFormed(u) && Number(u) == 0
    ensures !IsHigh(u) && !IsLow(u) && |TextOf(u)| == 1
  {
  }

  lemma PairWritten(high: nat, low: nat)
    requires 0xD800 <= high < 0xDC00 && 0xDC00 <= low < 0xE000
    ensures |EncodeUtf8(CombineSurrogates(high, low))| == |EncodeUtf8(Supplementary(high, low))|
    ensures EncodeUtf8(CombineSurrogates(high, low)) == EncodeUtf8(Supplementary(high, low)) <==> BitClear(high)
  {
    CombineExactly(high, low);
    EncodingDecodes(CombineSurrogates(high, low));
    EncodingDecodes(Supplementary(high, low));
    hide EncodeUtf8, DecodeUtf8, CombineSurrogates, Supplementary;
  }

  lemma SameParts(a: string, b: string, c: string, d: Option<string>)
    requires |a| == |c| && (d.Some? ==> |b| <= |d.value|)
    ensures After(c, d) == Some(a + b) <==> a == c && d == Some(b)
    ensures d.Some? ==> |a + b| <= |c + d.value|
  {
    if d.Some? && a + b == c + d.value {
      assert a == (a + b)[..|a|] && c == (c + d.value)[..|c|];
      assert b == (a + b)[|a|..] && d.value == (c + d.value)[|c|..];
    }
  }

  /**
   * parse_string on any literal that the grammar allows stops after its closing quote. It stores the bytes of
   * WrittenOf, and these are the UTF-8 text of the literal if and only if the literal is faithful.
   */
  lemma LiteralStored(us: seq<Unit>, mem: string, p: nat)
    requires Terminated(mem) && AllWellFormed(us)
    requires TextAt(mem, p, "\"" + SourceOf(us) + "\"")
    ensures StringAt(mem, p) == Parsed(WrittenOf(us), p + |SourceOf(us)| + 2)
    ensures MeaningOf(us) == Some(StringAt(mem, p).value) <==> Faithful(us)
  {
    hide SourceOf, WrittenOf, MeaningOf, WellFormed, Faithful, Body, AllWellFormed;
    SplitText(mem, p, "\"" + SourceOf(us), "\"");
    SplitText(mem, p, "\"", SourceOf(us));
    CharAt(mem, p, "\"", 0);
    CharAt(mem, p + 1 + |SourceOf(us)|, "\"", 0);
    LiteralRead(us, mem, p + 1);
    WrittenIsMeant(us);
    WrittenWithoutNul(us);
  }

  /** Nothing that is written is a terminator, so nothing is lost when the bytes are taken as a C string. */
  lemma {:induction false} WrittenWithoutNul(us: seq<Unit>)
    requires AllWellFormed(us)
    ensures NUL !in WrittenOf(us)
    decreases |us|
  {
    if us != [] {
      hide WellFormed, AllWellFormed, Written;
      OneWellFormed(us);
      StepWithoutNul(us);
      WrittenWithoutNul(us[Taken(us)..]);
    }
  }

  lemma StepWithoutNul(us: seq<Unit>)
    requires us != [] && AllWellFormed(us)
    ensures NUL !in Written(us)
  {
    hide EncodeUtf8, CombineSurrogates, HexNumber;
    if IsHigh(us[0]) {
      if |us| > 1 && IsLow(us[1]) { EncodedWithoutNul(CombineSurrogates(Number(us[0]), Number(us[1]))); }
    } else if us[0].Code? && Number(us[0]) != 0 {
      EncodedWithoutNul(Number(us[0]));
    }
  }

  lemma EncodedWithoutNul(uc: nat)
    requires 0 < uc < 0x110000
    ensures NUL !in EncodeUtf8(uc)
  {
  }

  /** A lone first half takes the escape after it along: the A of "\\ud800\\u0041" is lost. */
  lemma LostEscape(mem: string, p: nat)
    requires Terminated(mem) && TextAt(mem, p, "\"\\ud800\\u0041\"")
    ensures StringAt(mem, p) == Parsed("", p + 14)
  {
    hide *;
    LostSource();
    LostWritten();
    LiteralStored([Code("d800"), Code("0041")], mem, p);
  }

  lemma LostSource()
    ensures SourceOf([Code("d800"), Code("0041")]) == "\\ud800\\u0041"
    ensures "\"" + SourceOf([Code("d800"), Code("0041")]) + "\"" == "\"\\ud800\\u0041\""
  {
    var us := [Code("d800"), Code("0041")];
    assert us[1..] == [us[1]];
    hide Source;
    SourceUnfold([us[1]]);
    SourceUnfold(us);
    assert Source(us[0]) == "\\ud800" && Source(us[1]) == "\\u0041" by { LostUnits(); }
  }

  lemma LostUnits()
    ensures Source(Code("d800")) == "\\ud800" && Source(Code("0041")) == "\\u0041"
    ensures IsHex4("d800") && HexNumber("d800") == 0xd800 && IsHex4("0041") && HexNumber("0041") == 0x41
  {
  }

  lemma LostWritten()
    ensures AllWellFormed([Code("d800"), Code("0041")]) && WrittenOf([Code("d800"), Code("0041")]) == ""
  {
    var us := [Code("d800"), Code("0041")];
    LostUnits();
    hide HexNumber, IsHex4, Source;
    assert us[2..] == [];
    assert Taken(us) == 2 && Written(us) == "";
  }
}
