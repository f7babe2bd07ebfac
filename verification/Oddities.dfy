/** Single inputs on which the code does not do what one would expect of it; the laws elsewhere say when it does. */
module Oddities {
  import opened Json
  import opened JsonText
  import opened JsonRoundTrip
  import opened CMemory
  import opened Connection

  /** The comparison with "null" moves the cursor over the two letters that fit: this is read as false. */
  lemma NuFalse(mem: string)
    requires Terminated(mem) && TextAt(mem, 0, "nufalse") && mem[7] != NUL
    ensures ParseStream(mem) == Parsed(False, 7)
  {
    Letters(mem, "nufalse");
    assert mem[0] == 'n' && mem[1] == 'u' && mem[2] == 'f';
    TextFrom(mem, "nufalse", 2, "false");
    hide TextAt, StructureAt;
    CompareReads(mem, 2, "false");
    NuStops(mem);
  }

  lemma NuStops(mem: string)
    requires Terminated(mem) && |mem| > 7 && mem[0] == 'n' && mem[1] == 'u' && mem[2] == 'f'
    ensures Compare(mem, 0, "null") == Parsed(false, 2) && Skip(mem, 0) == 0
  {
    assert "null"[1..] == "ull" && "ull"[1..] == "ll";
    assert Compare(mem, 2, "ll") == Parsed(false, 2);
    assert Compare(mem, 1, "ull") == Parsed(false, 2);
  }

  lemma Letters(mem: string, s: string)
    requires TextAt(mem, 0, s)
    ensures |s| < |mem| && forall i :: 0 <= i < |s| ==> mem[i] == s[i]
  {
    forall i | 0 <= i < |s| ensures mem[i] == s[i] { CharAt(mem, 0, s, i); }
  }

  lemma TextFrom(mem: string, s: string, k: nat, t: string)
    requires TextAt(mem, 0, s) && k <= |s| && s[k..] == t
    ensures TextAt(mem, k, t)
  {
    forall i | 0 <= i < |t| ensures mem[k + i] == t[i] { CharAt(mem, 0, s, k + i); }
  }

  /** The digit of an array's first entry. */
  lemma OneDigit(mem: string)
    requires Terminated(mem) && |mem| > 3 && mem[0] == '[' && mem[1] == '1' && !IsDigit(mem[2]) && mem[2] != 'e' && mem[2] != 'E'
    requires mem[2] == '.' ==> !IsDigit(mem[3])
    ensures ParseStream(mem) == ItemsAt(mem, 1, []) && ValueAt(mem, 1) == Parsed(Number(1, 0), 2)
  {
    hide ItemsAt;
    assert Skip(mem, 0) == 0 && Skip(mem, 1) == 1;
    NotALiteral(mem, 0);
    OpenArray(mem, 0);
    NotALiteral(mem, 1);
    OneAt(mem);
  }

  lemma OneAt(mem: string)
    requires Terminated(mem) && |mem| > 3 && mem[1] == '1' && !IsDigit(mem[2]) && mem[2] != 'e' && mem[2] != 'E'
    requires mem[2] == '.' ==> !IsDigit(mem[3])
    ensures NumberAt(mem, 1) == (Number(1, 0), 2)
  {
    assert Digits(mem, 2, 1) == (1, 2);
    assert Digits(mem, 1, 0) == (1, 2);
    hide Digits;
    assert Whole(mem, 1) == (1, 2) && Fraction(mem, 2, 1) == (1, 2) && Exponent(mem, 2) == (0, 2);
  }

  /** A bracket after a comma is asked for twice: this is read, to its end, as an array of one entry. */
  lemma DoubleBracket(mem: string)
    requires Terminated(mem) && TextAt(mem, 0, "[1,]]")
    ensures ParseStream(mem) == Parsed(Array([Number(1, 0)]), 5)
  {
    Letters(mem, "[1,]]");
    OneDigit(mem);
    hide ValueAt;
    ItemsUnfold(mem, 1, []);
    assert Skip(mem, 2) == 2 && Skip(mem, 3) == 3;
    assert [] + [Number(1, 0)] == [Number(1, 0)];
  }

  /** And with one bracket, as it is not JSON either, the text is refused just behind that bracket. */
  lemma SingleBracket(mem: string)
    requires Terminated(mem) && TextAt(mem, 0, "[1,]") && mem[4] != ']'
    ensures ParseStream(mem) == Rejected(4)
  {
    Letters(mem, "[1,]");
    OneDigit(mem);
    hide ValueAt;
    ItemsUnfold(mem, 1, []);
    assert Skip(mem, 2) == 2 && Skip(mem, 3) == 3;
  }

  // ---------------------------------------------------------------- reads

  /** A fresh buffer, and what it is after a first read of t. */
  const FRESH: Buffer := Buffer(Fill(FIRST_SIZE), 0)

  function Filled(t: string): Buffer
    requires |t| <= FIRST_SIZE
  {
    Buffer(t + Fill(FIRST_SIZE - |t|), |t|)
  }

  lemma FirstRead(t: string, beyond: char)
    requires 1 <= |t| < FIRST_SIZE - 1
    ensures Valid(FRESH) && Fits(FRESH, Bytes(t, beyond))
    ensures InBuffer(Filled(t)) && Step(FRESH, Bytes(t, beyond)) == React(Filled(t), beyond)
  {
    assert IsSize(FIRST_SIZE);
    hide React;
    assert Receive(FRESH, t).mem == t + Fill(FIRST_SIZE - |t|);
  }

  lemma FirstText(t: string)
    requires |t| < FIRST_SIZE
    ensures var r := Filled(t);
            && r.pos == |t| && |r.mem| == FIRST_SIZE && Valid(r) && Terminated(r.mem) && TextAt(r.mem, 0, t)
            && r.mem[|t|] == NUL && r.mem[..|t|] == t
  {
    assert IsSize(FIRST_SIZE);
  }

  /** The same for a few bytes. */
  lemma First(t: string, beyond: char)
    requires 1 <= |t| <= 5
    ensures |t| <= FIRST_SIZE && Fits(FRESH, Bytes(t, beyond))
    ensures var r := Filled(t);
            && InBuffer(r) && Step(FRESH, Bytes(t, beyond)) == React(r, beyond)
            && r.pos == |t| && |r.mem| >= FIRST_SIZE && Valid(r) && Terminated(r.mem) && TextAt(r.mem, 0, t)
            && r.mem[|t|] == NUL && r.mem[..|t|] == t
  {
    hide Fits, Step, React, Filled, Valid, TextAt;
    FirstRead(t, beyond);
    FirstText(t);
  }

  /** What is made of the parser's outcome. */
  lemma ReactIs(b: Buffer, beyond: char)
    requires InBuffer(b) && Terminated(b.mem)
    ensures var o, r := ParseStream(b.mem), React(b, beyond);
            && (o.Undefined? ==> r == (b, Lost))
            && (o.Rejected? ==> r == (b, if o.end == b.pos then Waiting else Refused))
            && (o.Parsed? ==> r == (Shift(b.mem, o.end, beyond), Served(o.value)))
  {
    hide ParseStream, Shift;
  }

  lemma PointAlone(mem: string)
    requires Terminated(mem) && TextAt(mem, 0, "[1.") && mem[3] == NUL
    ensures ParseStream(mem) == Rejected(2)
  {
    Letters(mem, "[1.");
    hide ValueAt, ItemsAt, TextAt;
    OneDigit(mem);
    ItemsUnfold(mem, 1, []);
    assert Skip(mem, 2) == 2;
  }

  /** "[1.5]" that comes in two reads, cut behind the point: the connection is closed on the first. */
  lemma CutBehindPoint(beyond: char)
    ensures Fits(FRESH, Bytes("[1.", beyond)) && Step(FRESH, Bytes("[1.", beyond)).1 == Refused
  {
    First("[1.", beyond);
    hide *;
    PointAlone(Filled("[1.").mem);
    ReactIs(Filled("[1."), beyond);
  }

  lemma NullAlone(mem: string)
    requires Terminated(mem) && TextAt(mem, 0, "[null") && mem[5] == NUL
    ensures ParseStream(mem) == Undefined
  {
    Letters(mem, "[null");
    TextFrom(mem, "[null", 1, "null");
    assert Skip(mem, 0) == 0 && Skip(mem, 1) == 1;
    hide ItemsAt, StructureAt, TextAt, Skip;
    CompareOverruns(mem, 1, "null");
    NotALiteral(mem, 0);
    OpenArray(mem, 0);
    ItemsUnfold(mem, 1, []);
  }

  /** "[null]" cut behind the last l: the comparison runs out of the text and over the terminator. */
  lemma CutBehindLiteral(beyond: char)
    ensures Fits(FRESH, Bytes("[null", beyond)) && Step(FRESH, Bytes("[null", beyond)).1 == Lost
  {
    First("[null", beyond);
    hide *;
    NullAlone(Filled("[null").mem);
    ReactIs(Filled("[null"), beyond);
  }

  lemma EmptyObject(mem: string)
    requires Terminated(mem) && TextAt(mem, 0, "{}{}")
    ensures ParseStream(mem) == Parsed(Object([]), 2)
  {
    Letters(mem, "{}{}");
    assert Skip(mem, 0) == 0 && Skip(mem, 1) == 1;
    hide MembersAt, StructureAt, TextAt, Skip;
    NotALiteral(mem, 0);
    OpenObject(mem, 0);
  }

  /** Nothing of a rest as long as the request survives. */
  lemma SameLengthLost(r: Buffer, beyond: char)
    requires Valid(r) && Terminated(r.mem) && |r.mem| >= FIRST_SIZE && r.pos == 4 && NUL !in r.mem[2..4]
    ensures Shift(r.mem, 2, beyond).pos == 0
  {
    hide *;
    PlainRest(r, 2, beyond);
    ShiftLength(r.mem, 2, beyond);
  }

  /** Two requests in one read: the second is dropped with the first, without having been looked at. */
  lemma SecondDropped(beyond: char)
    ensures Fits(FRESH, Bytes("{}{}", beyond))
    ensures var (b, ev) := Step(FRESH, Bytes("{}{}", beyond)); ev == Served(Object([])) && b.pos == 0
  {
    First("{}{}", beyond);
    hide *;
    var r := Filled("{}{}");
    assert r.mem[2..4] == r.mem[..4][2..] == "{}";
    EmptyObject(r.mem);
    ReactIs(r, beyond);
    SameLengthLost(r, beyond);
  }

  /** A digit, and then a buffer filled up by other text: what memmove brings in from behind the buffer stays there. */
  lemma DigitAndFullBuffer(mem: string, beyond: char)
    requires IsSize(|mem|) && mem[0] == '5' && mem[1] == 'x' && (forall i :: 0 <= i < |mem| - 1 ==> mem[i] != NUL)
    requires mem[|mem| - 1] == NUL && beyond != NUL
    ensures Valid(Buffer(mem, |mem| - 1)) && React(Buffer(mem, |mem| - 1), beyond).1 == Served(Number(5, 0))
    ensures !Valid(React(Buffer(mem, |mem| - 1), beyond).0)
  {
    SizeIsLarge(|mem|);
    FullIsValid(mem);
    hide *;
    FiveAlone(mem);
    ReactIs(Buffer(mem, |mem| - 1), beyond);
    BroughtIn(mem, beyond);
  }

  lemma FullIsValid(mem: string)
    requires IsSize(|mem|) && |mem| >= FIRST_SIZE && mem[|mem| - 1] == NUL
    ensures var b := Buffer(mem, |mem| - 1); Valid(b) && InBuffer(b) && Terminated(mem)
  {
    hide IsSize;
  }

  lemma BroughtIn(mem: string, beyond: char)
    requires IsSize(|mem|) && |mem| >= FIRST_SIZE && Terminated(mem) && beyond != NUL
    requires forall i :: 0 <= i < |mem| - 1 ==> mem[i] != NUL
    ensures !Valid(Shift(mem, 1, beyond))
  {
    FullLength(mem);
    hide IsSize, Shift, HasEnd, StrLen, Valid;
    ShiftKeeps(mem, 1, beyond);
  }

  lemma FullLength(mem: string)
    requires |mem| > 2 && mem[|mem| - 1] == NUL && forall i :: 0 <= i < |mem| - 1 ==> mem[i] != NUL
    ensures HasEnd(mem, 1) && StrLen(mem, 1) == |mem| - 2
  {
    StrLenIs(mem, 1, |mem| - 1);
  }

  lemma FiveAlone(mem: string)
    requires Terminated(mem) && |mem| > 2 && mem[0] == '5' && mem[1] == 'x'
    ensures ParseStream(mem) == Parsed(Number(5, 0), 1)
  {
    NotALiteral(mem, 0);
    assert Skip(mem, 0) == 0;
    FiveAt(mem);
  }

  lemma FiveAt(mem: string)
    requires Terminated(mem) && |mem| > 2 && mem[0] == '5' && mem[1] == 'x'
    ensures NumberAt(mem, 0) == (Number(5, 0), 1)
  {
    assert Digits(mem, 1, 5) == (5, 1);
    assert Digits(mem, 0, 0) == (5, 1);
    hide Digits;
    assert Whole(mem, 0) == (5, 1) && Fraction(mem, 1, 5) == (5, 1) && Exponent(mem, 1) == (0, 1);
  }
}
