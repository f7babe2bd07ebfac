/**
 * Texts that are cut short, and where a cut falls: in a string, in an escape, or outside strings,
 * where it may follow a decimal point or a literal.
 */
module JsonPlace {
  import opened Json
  import opened JsonText

  /** c holds the first k bytes of m and nothing but terminators from there on. */
  predicate CutAt(m: string, c: string, k: nat)
    ensures CutAt(m, c, k) ==> Terminated(m) && Terminated(c) && k < |m| && k < |c| && c[k] == NUL
  {
    && Terminated(m) && Terminated(c) && k < |m| && k < |c|
    && (forall i :: 0 <= i < k ==> c[i] == m[i])
    && (forall i :: k <= i < |c| ==> c[i] == NUL)
  }

  lemma CutSame(m: string, c: string, k: nat, p: nat)
    requires CutAt(m, c, k) && p < k
    ensures c[p] == m[p] && c[k] == NUL
  {
  }

  // ---------------------------------------------------------------- where a cut falls

  datatype Place = Outside | InText | InEscape

  /** Where position k lies, scanning from p which is outside all strings: only quotes and escapes matter. */
  function PlaceAt(m: string, p: nat, k: nat): Place
    requires Terminated(m) && k < |m|
    decreases |m| - p, 1
  {
    if p >= k then Outside
    else if m[p] == '\"' then TextPlace(m, p + 1, k)
    else PlaceAt(m, p + 1, k)
  }

  /** The same from a position inside a string; a cut between the halves of a surrogate pair is not inside an escape. */
  function TextPlace(m: string, p: nat, k: nat): Place
    requires Terminated(m) && k < |m|
    decreases |m| - p, 0
  {
    if p >= k then InText
    else if m[p] == '\"' then PlaceAt(m, p + 1, k)
    else if m[p] == NUL then PlaceAt(m, p + 1, k)
    else if m[p] != '\\' then TextPlace(m, p + 1, k)
    else if EscapeEnd(m, p) <= k then TextPlace(m, EscapeEnd(m, p), k)
    else if k == p + 6 && EscapeEnd(m, p) == p + 12 then InText
    else InEscape
  }

  function EscapeEnd(m: string, p: nat): (e: nat)
    requires Terminated(m) && p < |m| && m[p] == '\\'
    ensures p + 2 <= e <= |m|
  {
    if EscapeAt(m, p).Parsed? then EscapeAt(m, p).end else p + 2
  }

  predicate EndsWith(m: string, k: nat, lit: string) {
    |lit| <= k <= |m| && m[k - |lit|..k] == lit
  }

  /** Outside strings: neither just after a decimal point nor just after null, false or true. */
  predicate CleanEdge(m: string, k: nat)
    requires k < |m|
  {
    && (k > 0 ==> m[k - 1] != '.')
    && !EndsWith(m, k, "null") && !EndsWith(m, k, "false") && !EndsWith(m, k, "true")
  }

  /** A cut at k, seen from p which is outside all strings, that splits neither an escape, nor a fraction, nor a literal from what follows. */
  predicate CleanFrom(m: string, p: nat, k: nat)
    requires Terminated(m) && k < |m|
  {
    match PlaceAt(m, p, k)
    case Outside => CleanEdge(m, k)
    case InText => true
    case InEscape => false
  }

  predicate CleanCut(m: string, k: nat)
    requires Terminated(m) && k < |m|
  {
    CleanFrom(m, 0, k)
  }

  lemma {:induction false} PlainRun(m: string, p: nat, q: nat, k: nat)
    requires Terminated(m) && k < |m| && p <= q <= |m| && forall i :: p <= i < q ==> m[i] != '\"'
    ensures q <= k ==> PlaceAt(m, p, k) == PlaceAt(m, q, k)
    ensures q >= k ==> PlaceAt(m, p, k) == Outside
    decreases q - p
  {
    if p < q && p < k { PlainRun(m, p + 1, q, k); }
  }

  // ---------------------------------------------------------------- tokens do not move the place

  lemma NoQuoteInPrefix(m: string, p: nat, e: nat, lit: string)
    requires p <= e <= |m| && e - p <= |lit| && m[p..e] == lit[..e - p] && '\"' !in lit
    ensures forall i :: p <= i < e ==> m[i] != '\"'
  {
    forall i | p <= i < e ensures m[i] != '\"' {
      assert m[p..e][i - p] == m[i] && lit[..e - p][i - p] == lit[i - p];
    }
  }

  lemma ComparePlace(m: string, p: nat, lit: string, k: nat)
    requires Terminated(m) && k < |m| && p < |m| && NUL !in lit && '\"' !in lit && Compare(m, p, lit).Parsed?
    ensures Compare(m, p, lit).end <= k ==> PlaceAt(m, Compare(m, p, lit).end, k) == PlaceAt(m, p, k)
    ensures Compare(m, p, lit).end >= k ==> PlaceAt(m, p, k) == Outside
  {
    var e := Compare(m, p, lit).end;
    NoQuoteInPrefix(m, p, e, lit);
    PlainRun(m, p, e, k);
  }

  lemma NumberHasNoQuote(m: string, p: nat)
    requires Terminated(m) && p < |m| && (m[p] == '-' || IsDigit(m[p]))
    ensures forall i :: p <= i < NumberAt(m, p).1 ==> m[i] != '\"'
  {
  }

  lemma NumberPlace(m: string, p: nat, k: nat)
    requires Terminated(m) && k < |m| && p < |m| && (m[p] == '-' || IsDigit(m[p]))
    ensures NumberAt(m, p).1 <= k ==> PlaceAt(m, NumberAt(m, p).1, k) == PlaceAt(m, p, k)
    ensures NumberAt(m, p).1 >= k ==> PlaceAt(m, p, k) == Outside
  {
    hide NumberAt;
    NumberHasNoQuote(m, p);
    PlainRun(m, p, NumberAt(m, p).1, k);
  }

  lemma {:induction false} BodyPlace(m: string, p: nat, k: nat)
    requires Terminated(m) && k < |m| && p <= k && Body(m, p).Parsed?
    ensures Body(m, p).end < k ==> PlaceAt(m, Body(m, p).end, k) == TextPlace(m, p, k)
    ensures Body(m, p).end == k ==> TextPlace(m, p, k) == if p < k && m[k - 1] == '\"' && Closed(m, p) then Outside else InText
    ensures Body(m, p).end > k ==> TextPlace(m, p, k) != Outside
    decreases |m| - p
  {
    hide EscapeAt;
    if p < k && m[p] != '\"' && m[p] != NUL {
      if m[p] != '\\' {
        BodyPlace(m, p + 1, k);
      } else if EscapeEnd(m, p) <= k {
        BodyPlace(m, EscapeEnd(m, p), k);
      }
    }
  }

  /** The body ends at a quote rather than at a terminator. */
  predicate Closed(m: string, p: nat)
    requires Terminated(m) && Body(m, p).Parsed?
    decreases |m| - p
  {
    if m[p] == '\"' then true
    else if m[p] == NUL then false
    else if m[p] != '\\' then Closed(m, p + 1)
    else Closed(m, EscapeAt(m, p).end)
  }

  lemma {:induction false} ClosedEndsInQuote(m: string, p: nat)
    requires Terminated(m) && Body(m, p).Parsed? && Closed(m, p)
    ensures Body(m, p).end > p && m[Body(m, p).end - 1] == '\"'
    decreases |m| - p
  {
    hide EscapeAt;
    if m[p] != '\"' { ClosedEndsInQuote(m, if m[p] != '\\' then p + 1 else EscapeAt(m, p).end); }
  }

  lemma StringPlace(m: string, p: nat, k: nat)
    requires Terminated(m) && k < |m| && p < k && StringAt(m, p).Parsed?
    ensures StringAt(m, p).end < k ==> PlaceAt(m, StringAt(m, p).end, k) == PlaceAt(m, p, k)
    ensures StringAt(m, p).end == k ==> CleanFrom(m, p, k)
    ensures StringAt(m, p).end > k ==> PlaceAt(m, p, k) != Outside
  {
    hide Body, TextPlace, Closed;
    BodyPlace(m, p + 1, k);
    if StringAt(m, p).end == k && Closed(m, p + 1) {
      ClosedEndsInQuote(m, p + 1);
      QuoteIsClean(m, k);
    }
  }

  lemma QuoteIsClean(m: string, k: nat)
    requires 0 < k < |m| && m[k - 1] != 'l' && m[k - 1] != 'e' && m[k - 1] != '.'
    ensures CleanEdge(m, k)
  {
    if EndsWith(m, k, "null") { LastChars(m, k, "null"); }
    if EndsWith(m, k, "false") { LastChars(m, k, "false"); }
    if EndsWith(m, k, "true") { LastChars(m, k, "true"); }
  }

  lemma LastChars(m: string, k: nat, lit: string)
    requires k < |m| && |lit| > 1 && EndsWith(m, k, lit)
    ensures k > 1 && m[k - 1] == lit[|lit| - 1] && m[k - 2] == lit[|lit| - 2]
  {
    assert m[k - |lit|..k][|lit| - 1] == m[k - 1] && m[k - |lit|..k][|lit| - 2] == m[k - 2];
  }
}
