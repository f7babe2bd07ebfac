/**
 * What the parser does on the beginning of a text that it accepts as a whole. It stops exactly at the end
 * of what is there, which the connection takes as "wait for more", unless the cut falls inside an escape,
 * after a decimal point or after a literal.
 */
module JsonPrefix {
  import opened Json
  import opened JsonText
  import opened JsonPlace
  import opened JsonCut

  // ---------------------------------------------------------------- values that are cut

  /** The same for a value; a container that is cut is refused. */
  ghost predicate ValueIsCut(m: string, c: string, k: nat, p: nat, full: Outcome<Value>, part: Outcome<Value>)
    requires CutAt(m, c, k)
  {
    && Cut(m, c, k, p, full, part)
    && (IsContainer(full.value) && full.end == k ==> part == full)
    && (IsContainer(full.value) && full.end > k ==> !part.Parsed?)
  }

  /** The bytes between entries: spaces, commas, colons and brackets. */
  predicate Between(ch: char) {
    IsSpace(ch) || ch == ',' || ch == ':' || ch == '[' || ch == ']' || ch == '{' || ch == '}'
  }

  /** Among such bytes every cut is clean, and the place of what follows is unchanged. */
  lemma BetweenIsClean(m: string, p: nat, q: nat, k: nat)
    requires Terminated(m) && k < |m| && p <= q <= |m| && forall i :: p <= i < q ==> Between(m[i])
    ensures q <= k ==> PlaceAt(m, p, k) == PlaceAt(m, q, k)
    ensures p < k <= q ==> CleanFrom(m, p, k)
  {
    hide CleanEdge, PlaceAt;
    PlainRun(m, p, q, k);
    if p < k <= q { QuoteIsClean(m, k); }
  }

  /** What the parser tries when "null" and "false" are not there. */
  ghost function FromTrue(mem: string, p: nat): (o: Outcome<Value>)
    requires Terminated(mem) && p < |mem|
    ensures o.Parsed? ==> p < o.end < |mem|
  {
    match Compare(mem, p, "true")
    case Parsed(there, e) => if there then Parsed(True, e) else StructureAt(mem, e)
    case _ => Undefined
  }

  /** What it tries when "null" is not there. */
  ghost function FromFalse(mem: string, p: nat): (o: Outcome<Value>)
    requires Terminated(mem) && p < |mem|
    ensures o.Parsed? ==> p < o.end < |mem|
  {
    match Compare(mem, p, "false")
    case Parsed(there, e) => if there then Parsed(False, e) else FromTrue(mem, e)
    case _ => Undefined
  }

  lemma FromNull(mem: string, p: nat)
    requires Terminated(mem) && p < |mem|
    ensures ValueAt(mem, p) ==
            match Compare(mem, p, "null")
            case Parsed(there, e) => if there then Parsed(Null, e) else FromFalse(mem, e)
            case _ => Undefined
  {
    hide Compare, StructureAt;
  }

  lemma TrueCut(m: string, c: string, k: nat, p: nat)
    requires CutAt(m, c, k) && p < k && FromTrue(m, p).Parsed?
    ensures ValueIsCut(m, c, k, p, FromTrue(m, p), FromTrue(c, p))
    decreases |m| - p, 2
  {
    hide PlaceAt, CleanEdge, StructureAt, Compare, CutAt, EndsWith;
    NothingLeft(c, k);
    LiteralCut(m, c, k, p, "true");
    var e := Compare(m, p, "true").end;
    if e < k && !Compare(m, p, "true").value { StructureCut(m, c, k, e); }
  }

  lemma FalseCut(m: string, c: string, k: nat, p: nat)
    requires CutAt(m, c, k) && p < k && FromFalse(m, p).Parsed?
    ensures ValueIsCut(m, c, k, p, FromFalse(m, p), FromFalse(c, p))
    decreases |m| - p, 3
  {
    hide PlaceAt, CleanEdge, FromTrue, Compare, CutAt, EndsWith;
    NothingFrom(c, k);
    LiteralCut(m, c, k, p, "false");
    var e := Compare(m, p, "false").end;
    if e < k && !Compare(m, p, "false").value { TrueCut(m, c, k, e); }
  }

  lemma NothingFrom(c: string, k: nat)
    requires Terminated(c) && k < |c| && (c[k] == NUL || c[k] == '.')
    ensures Compare(c, k, "null") == Compare(c, k, "false") == Parsed(false, k)
    ensures FromFalse(c, k) == FromTrue(c, k) == Rejected(k)
  {
    hide Compare, StructureAt;
    NothingLeft(c, k);
  }

  lemma ValueCut(m: string, c: string, k: nat, p: nat)
    requires CutAt(m, c, k) && p < k && ValueAt(m, p).Parsed?
    ensures ValueIsCut(m, c, k, p, ValueAt(m, p), ValueAt(c, p))
    decreases |m| - p, 4
  {
    hide PlaceAt, CleanEdge, FromFalse, ValueAt, Compare, CutAt, EndsWith;
    FromNull(m, p);
    FromNull(c, p);
    NothingFrom(c, k);
    LiteralCut(m, c, k, p, "null");
    var e := Compare(m, p, "null").end;
    if e < k && !Compare(m, p, "null").value { FalseCut(m, c, k, e); }
  }

  lemma StructureCut(m: string, c: string, k: nat, p: nat)
    requires CutAt(m, c, k) && p < k && StructureAt(m, p).Parsed?
    ensures ValueIsCut(m, c, k, p, StructureAt(m, p), StructureAt(c, p))
    decreases |m| - p, 1
  {
    if m[p] == '[' {
      ArrayCut(m, c, k, p);
    } else if m[p] == '{' {
      ObjectCut(m, c, k, p);
    } else {
      LeafCut(m, c, k, p);
    }
  }

  lemma LeafCut(m: string, c: string, k: nat, p: nat)
    requires CutAt(m, c, k) && p < k && StructureAt(m, p).Parsed? && m[p] != '[' && m[p] != '{'
    ensures ValueIsCut(m, c, k, p, StructureAt(m, p), StructureAt(c, p))
  {
    hide PlaceAt, StringAt, NumberAt, CleanEdge;
    CutSame(m, c, k, p);
    if m[p] == '\"' {
      StringCut(m, c, k, p);
    } else {
      NumberCut(m, c, k, p);
      NumberPlace(m, p, k);
      if NumberAt(m, p).1 >= k { NumberEdge(m, p, k); }
    }
  }

  /** Inside a number or at its end, only the point is a place not to cut. */
  lemma NumberEdge(m: string, p: nat, k: nat)
    requires Terminated(m) && p < k < |m| && (m[p] == '-' || IsDigit(m[p])) && k <= NumberAt(m, p).1
    ensures CleanEdge(m, k) <==> m[k - 1] != '.'
  {
    hide NumberAt, EndsWith;
    NumberChars(m, p);
    if EndsWith(m, k, "null") { LastChars(m, k, "null"); }
    if EndsWith(m, k, "false") { LastChars(m, k, "false"); }
    if EndsWith(m, k, "true") { LastChars(m, k, "true"); }
  }

  lemma NumberChars(m: string, p: nat)
    requires Terminated(m) && p < |m| && (m[p] == '-' || IsDigit(m[p]))
    ensures forall i :: p <= i < NumberAt(m, p).1 ==> IsDigit(m[i]) || m[i] in "+-.eE"
  {
  }

  function Reach(f: Follow): nat {
    match f
    case Close(e) => e
    case More(q) => q
    case Bad(e) => e
  }

  lemma FollowIsBetween(m: string, p: nat, close: char)
    requires Terminated(m) && p < |m| && (close == ']' || close == '}') && !AfterEntry(m, p, close).Bad?
    ensures p < Reach(AfterEntry(m, p, close)) <= |m|
    ensures forall i :: p <= i < Reach(AfterEntry(m, p, close)) ==> Between(m[i])
  {
  }

  /** After an entry that ends before the cut. */
  lemma FollowCut(m: string, c: string, k: nat, p: nat, close: char)
    requires CutAt(m, c, k) && p < k && (close == ']' || close == '}') && !AfterEntry(m, p, close).Bad?
    ensures var full, part := AfterEntry(m, p, close), AfterEntry(c, p, close);
            && (Reach(full) <= k ==> PlaceAt(m, Reach(full), k) == PlaceAt(m, p, k))
            && (Reach(full) >= k ==> CleanFrom(m, p, k))
            && (if Reach(full) < k || full == Close(k) then part == full else part == Bad(k) || part == More(k))
  {
    FollowIsBetween(m, p, close);
    BetweenIsClean(m, p, Reach(AfterEntry(m, p, close)), k);
    FollowSplit(m, c, k, p, close);
  }

  lemma FollowSplit(m: string, c: string, k: nat, p: nat, close: char)
    requires CutAt(m, c, k) && p < k && (close == ']' || close == '}') && !AfterEntry(m, p, close).Bad?
    ensures var full, part := AfterEntry(m, p, close), AfterEntry(c, p, close);
            if Reach(full) < k || full == Close(k) then part == full else part == Bad(k) || part == More(k)
  {
    hide Skip;
    SkipCut(m, c, k, p);
    var s := Skip(m, p);
    if s >= k {
      assert AfterEntry(c, p, close) == Bad(k);
    } else if m[s] == ',' {
      CommaSplit(m, c, k, s, close);
    }
  }

  /** The same behind a comma. */
  lemma CommaSplit(m: string, c: string, k: nat, s: nat, close: char)
    requires CutAt(m, c, k) && s < k && m[s] == ',' && (close == ']' || close == '}')
    ensures var full, part := AfterComma(m, s, close), AfterComma(c, s, close);
            if Reach(full) < k || full == Close(k) then part == full else full.Bad? || part == Bad(k) || part == More(k)
  {
    hide Skip;
    SkipCut(m, c, k, s + 1);
  }

  /** An array is cut between its bracket and its first entry, or later. */
  lemma ArrayCut(m: string, c: string, k: nat, p: nat)
    requires CutAt(m, c, k) && p < k && StructureAt(m, p).Parsed? && m[p] == '['
    ensures ValueIsCut(m, c, k, p, StructureAt(m, p), StructureAt(c, p))
    decreases |m| - p, 0
  {
    hide *;
    CutSame(m, c, k, p);
    NothingMore(c, k, [], []);
    OpenArray(m, p);
    OpenArray(c, p);
    OpeningCut(m, c, k, p);
    var q := Skip(m, p + 1);
    if m[q] == ']' {
      EmptyCut(m, c, k, p, q, Array([]));
    } else if q < k {
      ItemsCut(m, c, k, q, []);
      SameStart(m, c, k, p, q, StructureAt(m, p), StructureAt(c, p));
    } else {
      RefusedAtCut(m, c, k, p, StructureAt(m, p));
    }
  }

  lemma ObjectCut(m: string, c: string, k: nat, p: nat)
    requires CutAt(m, c, k) && p < k && StructureAt(m, p).Parsed? && m[p] == '{'
    ensures ValueIsCut(m, c, k, p, StructureAt(m, p), StructureAt(c, p))
    decreases |m| - p, 0
  {
    hide *;
    CutSame(m, c, k, p);
    NothingMore(c, k, [], []);
    OpenObject(m, p);
    OpenObject(c, p);
    OpeningCut(m, c, k, p);
    var q := Skip(m, p + 1);
    if m[q] == '}' {
      EmptyCut(m, c, k, p, q, Object([]));
    } else if q < k {
      MembersCut(m, c, k, q, []);
      SameStart(m, c, k, p, q, StructureAt(m, p), StructureAt(c, p));
    } else {
      RefusedAtCut(m, c, k, p, StructureAt(m, p));
    }
  }

  /** The bracket and the spaces after it. */
  lemma OpeningCut(m: string, c: string, k: nat, p: nat)
    requires CutAt(m, c, k) && p < k && (m[p] == '[' || m[p] == '{')
    ensures var q := Skip(m, p + 1);
            && Skip(c, p + 1) <= k
            && (q < k ==> Skip(c, p + 1) == q && c[q] == m[q] && PlaceAt(m, q, k) == PlaceAt(m, p, k))
            && (q >= k ==> Skip(c, p + 1) == k && c[k] == NUL && c[k] !in "]}" && CleanFrom(m, p, k))
            && (m[q] == ']' || m[q] == '}' ==> (q < k ==> PlaceAt(m, q + 1, k) == PlaceAt(m, p, k)))
            && (m[q] == ']' || m[q] == '}' ==> (q + 1 == k ==> CleanFrom(m, p, k)))
  {
    hide PlaceAt, CleanEdge, CleanFrom;
    var q := Skip(m, p + 1);
    SkipCut(m, c, k, p + 1);
    BetweenIsClean(m, p, q, k);
    if Between(m[q]) { BetweenIsClean(m, p, q + 1, k); }
  }

  lemma EmptyCut(m: string, c: string, k: nat, p: nat, q: nat, v: Value)
    requires CutAt(m, c, k) && p < q < |m| && (v.Array? || v.Object?)
    requires q < k ==> PlaceAt(m, q + 1, k) == PlaceAt(m, p, k)
    requires q + 1 >= k ==> CleanFrom(m, p, k)
    ensures q < k ==> ValueIsCut(m, c, k, p, Parsed(v, q + 1), Parsed(v, q + 1))
    ensures q >= k ==> ValueIsCut(m, c, k, p, Parsed(v, q + 1), Rejected(k))
  {
    hide PlaceAt, CleanEdge, CutAt;
  }

  /** A value read from q on that begins at p. */
  lemma SameStart(m: string, c: string, k: nat, p: nat, q: nat, full: Outcome<Value>, part: Outcome<Value>)
    requires CutAt(m, c, k) && ValueIsCut(m, c, k, q, full, part) && PlaceAt(m, q, k) == PlaceAt(m, p, k)
    ensures ValueIsCut(m, c, k, p, full, part)
  {
  }

  lemma RefusedAtCut(m: string, c: string, k: nat, p: nat, full: Outcome<Value>)
    requires CutAt(m, c, k) && CleanFrom(m, p, k) && full.Parsed? && k < full.end <= |m|
    ensures ValueIsCut(m, c, k, p, full, Rejected(k))
  {
  }

  /**
   * An entry and what follows it, when `full` and `part` are what the loop over the entries makes of them.
   * Either the loop goes on as before or the cut is settled here.
   */
  lemma EntryCut<T>(m: string, c: string, k: nat, p: nat, entry: Outcome<T>, cut: Outcome<T>, close: char,
                        full: Outcome<Value>, part: Outcome<Value>)
    requires CutAt(m, c, k) && p < k && (close == ']' || close == '}')
    requires Cut(m, c, k, p, entry, cut) && entry.end < |m| && (cut.Parsed? ==> cut.end < |c|)
    requires full.Parsed? && full.end <= |m| && IsContainer(full.value)
    requires var f := AfterEntry(m, entry.end, close);
             !f.Bad? && (f.Close? ==> full.end == f.end) && (f.More? ==> full.end > f.next)
    requires cut.Undefined? ==> part == Undefined
    requires cut.Rejected? ==> part == Rejected(cut.end)
    requires cut.Parsed? ==> var g := AfterEntry(c, cut.end, close);
                             && (g.Bad? ==> part == Rejected(g.end)) && (g == More(k) ==> part == Rejected(k))
                             && (cut == entry && g.Close? && g == AfterEntry(m, entry.end, close) ==> part == full)
    ensures var f := AfterEntry(m, entry.end, close);
            if entry.end < k && f.More? && f.next < k then
              cut == entry && AfterEntry(c, entry.end, close) == f && PlaceAt(m, f.next, k) == PlaceAt(m, p, k)
            else ValueIsCut(m, c, k, p, full, part)
  {
    hide PlaceAt, CleanEdge, AfterEntry, CutAt;
    if entry.end < k {
      FollowCut(m, c, k, entry.end, close);
    } else {
      FollowIsBetween(m, entry.end, close);
      if cut.Parsed? {
        CutEnds(m, c, k);
        NothingLeft(c, cut.end);
      }
    }
  }

  lemma CutEnds(m: string, c: string, k: nat)
    requires CutAt(m, c, k)
    ensures c[k] == NUL
  {
  }

  lemma {:induction false} ItemsCut(m: string, c: string, k: nat, p: nat, done: seq<Value>)
    requires CutAt(m, c, k) && p < k && ItemsAt(m, p, done).Parsed?
    ensures ValueIsCut(m, c, k, p, ItemsAt(m, p, done), ItemsAt(c, p, done))
    decreases |m| - p, 5
  {
    hide *;
    ItemsUnfold(m, p, done);
    ItemsUnfold(c, p, done);
    ValueCut(m, c, k, p);
    ValueCutIsCut(m, c, k, p);
    var v, w := ValueAt(m, p), ValueAt(c, p);
    if w.Parsed? { NothingMore(c, k, done + [w.value], []); }
    ContainerKinds(ItemsAt(m, p, done).value);
    EntryCut(m, c, k, p, v, w, ']', ItemsAt(m, p, done), ItemsAt(c, p, done));
    var f := AfterEntry(m, v.end, ']');
    if v.end < k && f.More? && f.next < k {
      ItemsCut(m, c, k, f.next, done + [v.value]);
      SameStart(m, c, k, p, f.next, ItemsAt(m, p, done), ItemsAt(c, p, done));
    }
  }

  lemma ContainerKinds(v: Value)
    ensures IsContainer(v) <==> v.Array? || v.Object?
  {
  }

  lemma ValueCutIsCut(m: string, c: string, k: nat, p: nat)
    requires CutAt(m, c, k) && p < |m| && p < |c| && ValueIsCut(m, c, k, p, ValueAt(m, p), ValueAt(c, p))
    ensures Cut(m, c, k, p, ValueAt(m, p), ValueAt(c, p))
  {
    hide ValueAt;
  }

  /** A name, its colon and the spaces after it. */
  lemma NameCut(m: string, c: string, k: nat, p: nat)
    requires CutAt(m, c, k) && p < k && NameAt(m, p).Parsed?
    ensures Cut(m, c, k, p, NameAt(m, p), NameAt(c, p))
  {
    hide PlaceAt, CleanEdge, Skip, StringAt;
    var e := StringAt(m, p).end;
    StringCut(m, c, k, p);
    if e < k {
      SkipCut(m, c, k, e);
      var s := Skip(m, e);
      var t := Skip(m, s + 1);
      BetweenIsClean(m, e, t, k);
      if s < k { SkipCut(m, c, k, s + 1); }
    } else if StringAt(c, p).Parsed? {
      SkipsNothing(c, StringAt(c, p).end);
    }
  }

  lemma SkipsNothing(c: string, x: nat)
    requires Terminated(c) && x < |c| && !IsSpace(c[x])
    ensures Skip(c, x) == x
  {
  }

  lemma MemberCut(m: string, c: string, k: nat, p: nat)
    requires CutAt(m, c, k) && p < k && MemberAt(m, p).Parsed?
    ensures Cut(m, c, k, p, MemberAt(m, p), MemberAt(c, p))
    decreases |m| - p, 0
  {
    hide PlaceAt, CleanEdge, NameAt, ValueAt, CutAt;
    NameCut(m, c, k, p);
    NothingLeft(c, k);
    var q := NameAt(m, p).end;
    if q < k { ValueCut(m, c, k, q); }
    if NameAt(c, p).Parsed? && q >= k { NothingLeft(c, NameAt(c, p).end); }
  }

  lemma {:induction false} MembersCut(m: string, c: string, k: nat, p: nat, done: seq<Member>)
    requires CutAt(m, c, k) && p < k && MembersAt(m, p, done).Parsed?
    ensures ValueIsCut(m, c, k, p, MembersAt(m, p, done), MembersAt(c, p, done))
    decreases |m| - p, 1
  {
    hide *;
    MembersUnfold(m, p, done);
    MembersUnfold(c, p, done);
    MemberCut(m, c, k, p);
    var v, w := MemberAt(m, p), MemberAt(c, p);
    if w.Parsed? { NothingMore(c, k, [], done + [w.value]); }
    ContainerKinds(MembersAt(m, p, done).value);
    EntryCut(m, c, k, p, v, w, '}', MembersAt(m, p, done), MembersAt(c, p, done));
    var f := AfterEntry(m, v.end, '}');
    if v.end < k && f.More? && f.next < k {
      MembersCut(m, c, k, f.next, done + [v.value]);
      SameStart(m, c, k, p, f.next, MembersAt(m, p, done), MembersAt(c, p, done));
    }
  }

  /**
   * A container that the parser accepts, cut at any point and followed by terminators. Cut at its end or later
   * it is read as before; cut earlier, the parser stops exactly at the cut if and only if the cut is clean.
   */
  lemma BeginningsWait(m: string, c: string, k: nat)
    requires CutAt(m, c, k) && ParseStream(m).Parsed? && IsContainer(ParseStream(m).value)
    ensures k >= ParseStream(m).end ==> ParseStream(c) == ParseStream(m)
    ensures k < ParseStream(m).end ==> (ParseStream(c) == Rejected(k) <==> CleanCut(m, k)) && !ParseStream(c).Parsed?
  {
    hide ValueAt, IsContainer, PlaceAt, CleanEdge, CutAt;
    var p := Skip(m, 0);
    CutEnds(m, c, k);
    SkipCut(m, c, k, 0);
    BetweenIsClean(m, 0, p, k);
    if p < k {
      ValueCut(m, c, k, p);
    } else {
      NothingLeft(c, k);
      if k == 0 { StartIsClean(m); }
    }
  }

  lemma StartIsClean(m: string)
    requires Terminated(m)
    ensures CleanCut(m, 0)
  {
  }
}
