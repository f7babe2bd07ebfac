/**
 * What follows an array or object in the memory does not matter: the parser has not looked at it
 * when the closing bracket ends the value.
 */
module JsonAppend {
  import opened Json
  import opened JsonText

  /** The two memories are the same below k. */
  predicate Agree(m: string, c: string, k: nat) {
    Terminated(m) && Terminated(c) && k <= |m| && k <= |c| && forall i :: 0 <= i < k ==> m[i] == c[i]
  }

  // ---------------------------------------------------------------- tokens

  lemma {:induction false} SkipSame(m: string, c: string, k: nat, p: nat)
    requires Agree(m, c, k) && p < |m| && Skip(m, p) < k
    ensures p < |c| && Skip(c, p) == Skip(m, p)
    decreases |m| - p
  {
    if IsSpace(m[p]) { SkipSame(m, c, k, p + 1); }
  }

  lemma {:induction false} CompareSame(m: string, c: string, k: nat, p: nat, lit: string)
    requires Agree(m, c, k) && NUL !in lit && p < |m| && Compare(m, p, lit).Parsed? && Compare(m, p, lit).end < k
    ensures p < |c| && Compare(c, p, lit) == Compare(m, p, lit)
    decreases |lit|
  {
    if lit != [] && m[p] == lit[0] { CompareSame(m, c, k, p + 1, lit[1..]); }
  }

  lemma {:induction false} DigitsSame(m: string, c: string, k: nat, p: nat, n: int)
    requires Agree(m, c, k) && p < |m| && Digits(m, p, n).1 < k
    ensures p < |c| && Digits(c, p, n) == Digits(m, p, n)
    decreases |m| - p
  {
    if IsDigit(m[p]) { DigitsSame(m, c, k, p + 1, 10 * n + (m[p] as int - '0' as int)); }
  }

  lemma WholeSame(m: string, c: string, k: nat, p: nat)
    requires Agree(m, c, k) && p < |m| && Whole(m, p).1 < k
    ensures p < |c| && Whole(c, p) == Whole(m, p)
  {
    var q := if m[p] == '0' then p + 1 else p;
    if '1' <= m[q] <= '9' { DigitsSame(m, c, k, q, 0); }
  }

  lemma FractionSame(m: string, c: string, k: nat, p: nat, n: int)
    requires Agree(m, c, k) && p < |m| && Fraction(m, p, n).1 < k && m[Fraction(m, p, n).1] != '.'
    ensures p < |c| && Fraction(c, p, n) == Fraction(m, p, n)
  {
    if m[p] == '.' && IsDigit(m[p + 1]) { DigitsSame(m, c, k, p + 1, n); }
  }

  lemma ExponentSame(m: string, c: string, k: nat, p: nat)
    requires Agree(m, c, k) && p < |m| && Exponent(m, p).1 < k
    ensures p < |c| && Exponent(c, p) == Exponent(m, p)
  {
    if m[p] == 'e' || m[p] == 'E' {
      if m[p + 1] == '-' {
        DigitsSame(m, c, k, p + 2, 0);
      } else {
        DigitsSame(m, c, k, if m[p + 1] == '+' then p + 2 else p + 1, 0);
      }
    }
  }

  /** A fraction is followed by no second point; without one, an exponent's end decides. */
  lemma NumberSame(m: string, c: string, k: nat, p: nat)
    requires Agree(m, c, k) && p < |m| && NumberAt(m, p).1 < k && m[NumberAt(m, p).1] != '.'
    ensures p < |c| && NumberAt(c, p) == NumberAt(m, p)
  {
    hide Digits;
    var start := if m[p] == '-' then p + 1 else p;
    var (whole, q1) := Whole(m, start);
    var (mantissa, q2) := Fraction(m, q1, whole);
    ExponentSame(m, c, k, q2);
    assert q2 < k;
    WholeSame(m, c, k, start);
    FractionSame(m, c, k, q1, whole);
  }

  lemma UnicodeSame(m: string, c: string, k: nat, p: nat)
    requires Agree(m, c, k) && UnicodeEscapeAt(m, p).Parsed?
    requires var e := UnicodeEscapeAt(m, p).end; e < k && (m[e] == '\\' ==> e + 1 < k)
    ensures UnicodeEscapeAt(c, p) == UnicodeEscapeAt(m, p)
  {
    hide EncodeUtf8, CombineSurrogates, HexValue;
  }

  lemma EscapeSame(m: string, c: string, k: nat, p: nat)
    requires Agree(m, c, k) && p < |m| && m[p] == '\\' && EscapeAt(m, p).Parsed?
    requires var e := EscapeAt(m, p).end; e < k && (m[e] == '\\' ==> e + 1 < k)
    ensures p < |c| && c[p] == '\\' && EscapeAt(c, p) == EscapeAt(m, p)
  {
    hide UnicodeEscapeAt;
    if m[p + 1] == 'u' { UnicodeSame(m, c, k, p + 2); }
  }

  lemma {:induction false} BodySame(m: string, c: string, k: nat, p: nat)
    requires Agree(m, c, k) && Body(m, p).Parsed? && Body(m, p).end < k
    ensures Body(c, p) == Body(m, p)
    decreases |m| - p
  {
    hide EscapeAt;
    if p < |m| && m[p] != '\"' && m[p] != NUL {
      if m[p] != '\\' {
        BodySame(m, c, k, p + 1);
      } else if EscapeAt(m, p).Parsed? {
        BodySame(m, c, k, EscapeAt(m, p).end);
        EscapeSame(m, c, k, p);
      }
    }
  }

  lemma StringSame(m: string, c: string, k: nat, p: nat)
    requires Agree(m, c, k) && p < |m| && StringAt(m, p).Parsed? && StringAt(m, p).end < k
    ensures p < |c| && StringAt(c, p) == StringAt(m, p)
  {
    hide Body;
    BodySame(m, c, k, p + 1);
  }

  lemma NameSame(m: string, c: string, k: nat, p: nat)
    requires Agree(m, c, k) && p < |m| && NameAt(m, p).Parsed? && NameAt(m, p).end < k
    ensures p < |c| && NameAt(c, p) == NameAt(m, p)
  {
    hide StringAt, Skip;
    var e := StringAt(m, p).end;
    StringSame(m, c, k, p);
    SkipSame(m, c, k, e);
    SkipSame(m, c, k, Skip(m, e) + 1);
  }

  lemma AfterSame(m: string, c: string, k: nat, p: nat, close: char)
    requires Agree(m, c, k) && p < |m| && (close == ']' || close == '}')
    ensures var f := AfterEntry(m, p, close);
            (f.Close? && f.end <= k) || (f.More? && f.next < k) ==>
              p < k && m[p] != '.' && p < |c| && AfterEntry(c, p, close) == f
  {
    hide Skip;
    var f, s := AfterEntry(m, p, close), Skip(m, p);
    if (f.Close? && f.end <= k) || (f.More? && f.next < k) {
      SkipSame(m, c, k, p);
      if m[s] == ',' { SkipSame(m, c, k, s + 1); }
    }
  }

  // ---------------------------------------------------------------- values

  /** Nothing from k on was looked at to read the value. */
  predicate EndsBelow(m: string, o: Outcome<Value>, k: nat)
    requires k <= |m|
  {
    o.Parsed? && ((IsContainer(o.value) && o.end <= k) || (o.end < k && m[o.end] != '.'))
  }

  lemma {:induction false} ValueSame(m: string, c: string, k: nat, p: nat)
    requires Agree(m, c, k) && p < |m| && EndsBelow(m, ValueAt(m, p), k)
    ensures p < |c| && ValueAt(c, p) == ValueAt(m, p)
    decreases |m| - p, 2
  {
    hide StructureAt, Compare;
    var o1 := Compare(m, p, "null");
    var o2 := Compare(m, o1.end, "false");
    if o1.value {
      CompareSame(m, c, k, p, "null");
    } else if o2.value {
      CompareSame(m, c, k, p, "null");
      CompareSame(m, c, k, o1.end, "false");
    } else {
      var o3 := Compare(m, o2.end, "true");
      CompareSame(m, c, k, p, "null");
      CompareSame(m, c, k, o1.end, "false");
      CompareSame(m, c, k, o2.end, "true");
      if !o3.value { StructureSame(m, c, k, o3.end); }
    }
  }

  lemma {:induction false} StructureSame(m: string, c: string, k: nat, p: nat)
    requires Agree(m, c, k) && p < |m| && EndsBelow(m, StructureAt(m, p), k)
    ensures p < |c| && StructureAt(c, p) == StructureAt(m, p)
    decreases |m| - p, 1
  {
    hide ItemsAt, MembersAt, NumberAt, StringAt, Skip;
    if m[p] == '\"' {
      StringSame(m, c, k, p);
    } else if m[p] == '-' || IsDigit(m[p]) {
      NumberSame(m, c, k, p);
    } else if m[p] == '[' {
      OpenArray(m, p);
      SkipSame(m, c, k, p + 1);
      var q := Skip(m, p + 1);
      if m[q] != ']' { ItemsSame(m, c, k, q, []); }
    } else {
      OpenObject(m, p);
      SkipSame(m, c, k, p + 1);
      var q := Skip(m, p + 1);
      if m[q] != '}' { MembersSame(m, c, k, q, []); }
    }
  }

  lemma {:induction false} ItemsSame(m: string, c: string, k: nat, p: nat, done: seq<Value>)
    requires Agree(m, c, k) && p < |m| && ItemsAt(m, p, done).Parsed? && ItemsAt(m, p, done).end <= k
    ensures p < |c| && ItemsAt(c, p, done) == ItemsAt(m, p, done)
    decreases |m| - p, 3
  {
    hide ValueAt, ItemsAt, AfterEntry;
    ItemsUnfold(m, p, done);
    var o := ValueAt(m, p);
    var f, all := AfterEntry(m, o.end, ']'), done + [o.value];
    AfterSame(m, c, k, o.end, ']');
    ValueSame(m, c, k, p);
    ItemsUnfold(c, p, done);
    if f.More? { ItemsSame(m, c, k, f.next, all); }
  }

  lemma {:induction false} MemberSame(m: string, c: string, k: nat, p: nat)
    requires Agree(m, c, k) && p < |m| && MemberAt(m, p).Parsed? && MemberAt(m, p).end < k && m[MemberAt(m, p).end] != '.'
    ensures p < |c| && MemberAt(c, p) == MemberAt(m, p)
    decreases |m| - p, 0
  {
    hide ValueAt, NameAt;
    NameSame(m, c, k, p);
    ValueSame(m, c, k, NameAt(m, p).end);
  }

  lemma {:induction false} MembersSame(m: string, c: string, k: nat, p: nat, done: seq<Member>)
    requires Agree(m, c, k) && p < |m| && MembersAt(m, p, done).Parsed? && MembersAt(m, p, done).end <= k
    ensures p < |c| && MembersAt(c, p, done) == MembersAt(m, p, done)
    decreases |m| - p, 1
  {
    hide MemberAt, MembersAt, AfterEntry;
    MembersUnfold(m, p, done);
    var o := MemberAt(m, p);
    var f, all := AfterEntry(m, o.end, '}'), done + [o.value];
    AfterSame(m, c, k, o.end, '}');
    MemberSame(m, c, k, p);
    MembersUnfold(c, p, done);
    if f.More? { MembersSame(m, c, k, f.next, all); }
  }

  /** A text that is read as an array or object is read as that, and through its last byte, whatever follows it. */
  lemma ContainerIsLocal(t: string, v: Value, after: string)
    requires ParseStream(t + [NUL]) == Parsed(v, |t|) && IsContainer(v) && Terminated(after)
    ensures ParseStream(t + after) == Parsed(v, |t|)
  {
    hide ValueAt, Skip, IsContainer;
    SkipSame(t + [NUL], t + after, |t|, 0);
    ValueSame(t + [NUL], t + after, |t|, Skip(t + [NUL], 0));
  }
}
