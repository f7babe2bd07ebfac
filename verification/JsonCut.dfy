/** What the parser makes of each kind of token when the text is cut inside it. */
module JsonCut {
  import opened Json
  import opened JsonText
  import opened JsonPlace

  // ---------------------------------------------------------------- tokens that are cut

  lemma {:induction false} SkipCut(m: string, c: string, k: nat, p: nat)
    requires CutAt(m, c, k) && p <= k
    ensures Skip(m, p) < k ==> Skip(c, p) == Skip(m, p)
    ensures Skip(m, p) >= k ==> Skip(c, p) == k
    decreases k - p
  {
    if p < k && IsSpace(m[p]) { SkipCut(m, c, k, p + 1); }
  }

  lemma {:induction false} DigitsCut(m: string, c: string, k: nat, p: nat, n: int)
    requires CutAt(m, c, k) && p <= k
    ensures Digits(m, p, n).1 < k ==> Digits(c, p, n) == Digits(m, p, n)
    ensures Digits(m, p, n).1 >= k ==> Digits(c, p, n).1 == k
    decreases k - p
  {
    if p < k && IsDigit(m[p]) { DigitsCut(m, c, k, p + 1, 10 * n + (m[p] as int - '0' as int)); }
  }

  lemma WholeCut(m: string, c: string, k: nat, p: nat)
    requires CutAt(m, c, k) && p <= k
    ensures Whole(m, p).1 < k ==> Whole(c, p) == Whole(m, p)
    ensures Whole(m, p).1 >= k ==> Whole(c, p).1 == k
  {
    hide Digits;
    if p < k {
      DigitsCut(m, c, k, p, 0);
      DigitsCut(m, c, k, p + 1, 0);
    }
  }

  /** A point just before the cut is not read: the digit that has to follow it is not there. */
  lemma FractionCut(m: string, c: string, k: nat, p: nat, n: int)
    requires CutAt(m, c, k) && p <= k
    ensures Fraction(m, p, n).1 < k ==> Fraction(c, p, n) == Fraction(m, p, n)
    ensures Fraction(m, p, n).1 >= k ==> Fraction(c, p, n).1 == if p + 1 == k && m[p] == '.' then p else k
  {
    hide Digits;
    if p < k { DigitsCut(m, c, k, p + 1, n); }
  }

  lemma ExponentCut(m: string, c: string, k: nat, p: nat)
    requires CutAt(m, c, k) && p <= k
    ensures Exponent(m, p).1 < k ==> Exponent(c, p) == Exponent(m, p)
    ensures Exponent(m, p).1 >= k ==> Exponent(c, p).1 == k
  {
    hide Digits;
    if p < k {
      DigitsCut(m, c, k, p + 1, 0);
      if p + 1 < k { DigitsCut(m, c, k, p + 2, 0); }
    }
  }

  /** Where the three stages of a number end. */
  lemma NumberEnds(m: string, p: nat)
    requires Terminated(m) && p < |m|
    ensures var w := Whole(m, if m[p] == '-' then p + 1 else p);
            NumberAt(m, p).1 == Exponent(m, Fraction(m, w.1, w.0).1).1
  {
    hide Whole, Fraction, Exponent;
  }

  /** Inside a number, a point stands only where the whole digits end. */
  lemma OnePoint(m: string, p: nat, i: nat)
    requires Terminated(m) && p <= i < |m| && (m[p] == '-' || IsDigit(m[p]))
    requires i < NumberAt(m, p).1
    ensures m[i] == '.' ==> i == Whole(m, if m[p] == '-' then p + 1 else p).1
  {
  }

  lemma NumberCut(m: string, c: string, k: nat, p: nat)
    requires CutAt(m, c, k) && p < k && (m[p] == '-' || IsDigit(m[p]))
    ensures NumberAt(m, p).1 < k ==> NumberAt(c, p) == NumberAt(m, p)
    ensures NumberAt(m, p).1 >= k ==> NumberAt(c, p).1 == if m[k - 1] == '.' then k - 1 else k
  {
    hide Whole, Fraction, Exponent;
    var s := if m[p] == '-' then p + 1 else p;
    var (n, q) := Whole(m, s);
    var (a, r) := Fraction(m, q, n);
    WholeCut(m, c, k, s);
    if q < k {
      FractionCut(m, c, k, q, n);
      if r < k { ExponentCut(m, c, k, r); } else { NothingNumeric(c, k, a); }
      if m[q] == '.' { NoExponentAt(c, q); NoExponentAt(m, q); }
    } else {
      NothingNumeric(c, k, Whole(c, s).0);
    }
    NumberEnds(m, p);
    NumberEnds(c, p);
    if k <= NumberAt(m, p).1 { OnePoint(m, p, k - 1); }
  }

  lemma NoExponentAt(c: string, p: nat)
    requires Terminated(c) && p < |c| && c[p] == '.'
    ensures Exponent(c, p) == (0, p)
  {
  }

  lemma NothingNumeric(c: string, k: nat, n: int)
    requires Terminated(c) && k < |c| && c[k] == NUL
    ensures Fraction(c, k, n) == (n, k) && Exponent(c, k) == (0, k)
  {
  }

  /** The parser has read all there is, and no more. */
  predicate Waits<T>(o: Outcome<T>, k: nat) {
    !o.Undefined? && o.end == k
  }

  /** The parser has left the memory, or has stopped elsewhere, at a byte that continues nothing. */
  predicate Stuck<T>(o: Outcome<T>, c: string, k: nat) {
    || o.Undefined?
    || (o.end != k && o.end < |c| && (o.Parsed? ==> c[o.end] == NUL || c[o.end] == '.'))
  }

  lemma NoHexInCut(m: string, c: string, k: nat, p: nat)
    requires CutAt(m, c, k) && p <= k < p + 4
    ensures !HasHex4(c, p)
  {
    assert c[k] == NUL;
  }

  /** An escape that ends by the cut is read as before; so is the first half of a pair cut before its second. */
  lemma EscapeCut(m: string, c: string, k: nat, p: nat)
    requires CutAt(m, c, k) && p < k && m[p] == '\\' && EscapeAt(m, p).Parsed?
    ensures EscapeEnd(m, p) <= k ==> EscapeAt(c, p) == EscapeAt(m, p)
    ensures EscapeEnd(m, p) == p + 12 && k == p + 6 ==> EscapeAt(c, p) == Parsed("", k)
  {
    hide Hex4, EncodeUtf8, CombineSurrogates;
    if m[p + 1] == 'u' && p + 6 <= k {
      HexCut(m, c, k, p + 2);
      if p + 12 <= k { HexCut(m, c, k, p + 8); }
    }
  }

  lemma HexCut(m: string, c: string, k: nat, p: nat)
    requires CutAt(m, c, k) && p + 4 <= k
    ensures HasHex4(c, p) <==> HasHex4(m, p)
    ensures HasHex4(m, p) ==> Hex4(c, p) == Hex4(m, p)
  {
  }

  /** A backslash that is the last byte before the cut takes the terminator as its second byte. */
  lemma LoneBackslash(c: string, k: nat, p: nat)
    requires Terminated(c) && p + 1 == k < |c| && c[p] == '\\' && c[k] == NUL
    ensures EscapeAt(c, p) == Parsed([NUL], k + 1)
    ensures k + 1 < |c| && c[k + 1] == NUL ==> Body(c, p).Parsed? && Body(c, p).end == k + 1
    ensures k + 1 == |c| ==> Body(c, p).Undefined?
  {
  }

  /** Any other escape that the cut splits goes wrong. */
  lemma EscapeSplit(m: string, c: string, k: nat, p: nat)
    requires CutAt(m, c, k) && p < k && m[p] == '\\' && EscapeAt(m, p).Parsed?
    requires EscapeEnd(m, p) > k && !(EscapeEnd(m, p) == p + 12 && k == p + 6)
    ensures Stuck(Body(c, p), c, k)
  {
    hide Hex4, EncodeUtf8, CombineSurrogates;
    if k == p + 1 {
      LoneBackslash(c, k, p);
    } else if k < p + 6 {
      NoHexInCut(m, c, k, p + 2);
    } else {
      HexCut(m, c, k, p + 2);
      if k == p + 7 {
        assert EscapeAt(c, p) == Parsed("", p + 6);
        LoneBackslash(c, k, p + 6);
      } else {
        NoHexInCut(m, c, k, p + 8);
      }
    }
  }

  lemma {:induction false} BodyCut(m: string, c: string, k: nat, p: nat)
    requires CutAt(m, c, k) && p <= k && Body(m, p).Parsed?
    ensures Body(m, p).end < k ==> Body(c, p) == Body(m, p)
    ensures Body(m, p).end >= k && TextPlace(m, p, k) != InEscape ==> Body(c, p).Parsed? && Body(c, p).end == k
    ensures Body(m, p).end >= k && TextPlace(m, p, k) == InEscape ==> Stuck(Body(c, p), c, k)
    decreases |m| - p
  {
    hide EscapeAt, EscapeEnd;
    if p < k && m[p] != '\"' && m[p] != NUL {
      if m[p] != '\\' {
        BodyCut(m, c, k, p + 1);
      } else {
        EscapeEnds(m, p);
        EscapeCut(m, c, k, p);
        var e := EscapeEnd(m, p);
        if e <= k {
          BodyCut(m, c, k, e);
        } else if e == p + 12 && k == p + 6 {
          assert Body(c, k) == Parsed("", k);
        } else {
          EscapeSplit(m, c, k, p);
        }
      }
    } else {
      assert p + 1 == k ==> PlaceAt(m, p + 1, k) == Outside;
    }
  }

  lemma EscapeEnds(m: string, p: nat)
    requires Terminated(m) && p < |m| && m[p] == '\\' && EscapeAt(m, p).Parsed?
    ensures EscapeEnd(m, p) == EscapeAt(m, p).end
  {
  }

  /** What is left of reading `full` from p when the text is cut at k. */
  ghost predicate Cut<T>(m: string, c: string, k: nat, p: nat, full: Outcome<T>, part: Outcome<T>)
    requires CutAt(m, c, k)
  {
    && full.Parsed? && full.end <= |m|
    && (full.end < k ==> part == full && PlaceAt(m, full.end, k) == PlaceAt(m, p, k))
    && (full.end >= k && CleanFrom(m, p, k) ==> Waits(part, k))
    && (full.end >= k && !CleanFrom(m, p, k) ==> Stuck(part, c, k))
  }

  lemma StringCut(m: string, c: string, k: nat, p: nat)
    requires CutAt(m, c, k) && p < k && StringAt(m, p).Parsed?
    ensures Cut(m, c, k, p, StringAt(m, p), StringAt(c, p))
    ensures StringAt(c, p).Parsed? ==> StringAt(c, p).end < k || c[StringAt(c, p).end] == NUL
  {
    hide Body, CString, CleanEdge, Closed;
    BodyCut(m, c, k, p + 1);
    StringPlace(m, p, k);
    if StringAt(m, p).end == k { assert Body(m, p + 1).end == k; BodyPlace(m, p + 1, k); }
  }

  /** The beginning of a literal that is not all of it is a clean place to cut. */
  lemma PrefixEdge(m: string, p: nat, k: nat, lit: string)
    requires p < k < |m| && lit in ["null", "false", "true"] && k - p < |lit| && m[p..k] == lit[..k - p]
    ensures CleanEdge(m, k)
  {
    forall i | p <= i < k ensures m[i] == lit[i - p] {
      assert m[p..k][i - p] == m[i] && lit[..k - p][i - p] == lit[i - p];
    }
    hide EndsWith;
    if EndsWith(m, k, "null") { LastChars(m, k, "null"); }
    if EndsWith(m, k, "false") { LastChars(m, k, "false"); }
    if EndsWith(m, k, "true") { LastChars(m, k, "true"); }
  }

  lemma {:induction false} CompareCut(m: string, c: string, k: nat, p: nat, lit: string)
    requires CutAt(m, c, k) && p <= k && NUL !in lit && Compare(m, p, lit).Parsed?
    ensures Compare(m, p, lit).end < k ==> Compare(c, p, lit) == Compare(m, p, lit)
    ensures Compare(m, p, lit).end >= k && p + |lit| != k ==> Compare(c, p, lit) == Parsed(false, k)
    ensures p + |lit| == k && Compare(m, p, lit).value ==> Compare(c, p, lit) == Undefined
    ensures p + |lit| == k && !Compare(m, p, lit).value ==> Compare(c, p, lit) == Compare(m, p, lit)
    decreases |lit|
  {
    if lit != [] && p < k && m[p] == lit[0] { CompareCut(m, c, k, p + 1, lit[1..]); }
  }

  /** A literal that ends at the cut is compared past it; any other is read as before or left unmatched. */
  lemma LiteralCut(m: string, c: string, k: nat, p: nat, lit: string)
    requires CutAt(m, c, k) && p < k && lit in ["null", "false", "true"] && Compare(m, p, lit).Parsed?
    ensures Compare(m, p, lit).end < k ==> Compare(c, p, lit) == Compare(m, p, lit)
    ensures Compare(m, p, lit).end < k ==> PlaceAt(m, Compare(m, p, lit).end, k) == PlaceAt(m, p, k)
    ensures Compare(m, p, lit).end >= k && CleanFrom(m, p, k) ==> Compare(c, p, lit) == Parsed(false, k)
    ensures Compare(m, p, lit).end >= k && !CleanFrom(m, p, k) ==> Compare(c, p, lit) == Undefined
  {
    hide Compare, CleanEdge, PlaceAt;
    CompareCut(m, c, k, p, lit);
    ComparePlace(m, p, lit, k);
    var e := Compare(m, p, lit).end;
    if e >= k {
      assert m[p..k] == m[p..e][..k - p] == lit[..k - p];
      if k < p + |lit| { PrefixEdge(m, p, k, lit); }
      else { LiteralIsDirty(m, p, k, lit); }
    }
  }

  lemma LiteralIsDirty(m: string, p: nat, k: nat, lit: string)
    requires lit in ["null", "false", "true"] && p + |lit| == k < |m| && m[p..k] == lit
    ensures !CleanEdge(m, k)
  {
  }

  /** No value, name or continuation starts at a terminator or a point. */
  lemma NothingLeft(c: string, k: nat)
    requires Terminated(c) && k < |c| && (c[k] == NUL || c[k] == '.')
    ensures Compare(c, k, "null") == Parsed(false, k)
    ensures Compare(c, k, "false") == Parsed(false, k)
    ensures Compare(c, k, "true") == Parsed(false, k)
    ensures StructureAt(c, k) == ValueAt(c, k) == Rejected(k)
    ensures NameAt(c, k) == StringAt(c, k) == Rejected(k)
    ensures MemberAt(c, k) == Rejected(k)
    ensures forall close :: close == ']' || close == '}' ==> AfterEntry(c, k, close) == Bad(k)
  {
  }

  lemma NothingMore(c: string, k: nat, items: seq<Value>, members: seq<Member>)
    requires Terminated(c) && k < |c| && c[k] == NUL
    ensures ItemsAt(c, k, items) == Rejected(k)
    ensures MembersAt(c, k, members) == Rejected(k)
  {
    hide *;
    NothingLeft(c, k);
    ItemsUnfold(c, k, items);
    MembersUnfold(c, k, members);
  }
}
