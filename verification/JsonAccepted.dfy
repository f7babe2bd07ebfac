/**
 * Just which arrays and objects the parser accepts, told by the bytes between their entries:
 * spaces, a comma, spaces; and at the end a closing bracket, or a comma and two closing brackets.
 */
module JsonAccepted {
  import opened Json
  import opened JsonText
  import opened JsonRoundTrip

  /** An entry, from its first byte to behind its last, and the comma or bracket after it. */
  datatype Place = Place(start: nat, end: nat, mark: nat)

  predicate Spaces(mem: string, p: nat, q: nat) {
    p <= q <= |mem| && forall i :: p <= i < q ==> mem[i] == ' ' || 9 <= mem[i] as int <= 13
  }

  /** From p on there are spaces up to q, and none at q. */
  predicate SpacesTo(mem: string, p: nat, q: nat) {
    Spaces(mem, p, q) && q < |mem| && !Spaces(mem, q, q + 1)
  }

  predicate IsPlace(mem: string, e: Place) {
    e.start < e.end <= e.mark < |mem| && Spaces(mem, e.end, e.mark)
  }

  /** A comma at m and the next entry at t, which does not begin with the closing bracket. */
  predicate Comma(mem: string, m: nat, t: nat, close: char) {
    m < |mem| && mem[m] == ',' && SpacesTo(mem, m + 1, t) && mem[t] != close
  }

  /** The end of the container: its bracket at m; or a comma there, and the bracket twice in a row. */
  predicate Ending(mem: string, m: nat, close: char, end: nat) {
    || (m < |mem| && mem[m] == close && end == m + 1)
    || (m < |mem| && mem[m] == ',' && 2 <= end <= |mem| && SpacesTo(mem, m + 1, end - 2)
        && mem[end - 2] == close && mem[end - 1] == close)
  }

  /** Entries from q on, separated, up to the end of their container. */
  predicate Listed(mem: string, q: nat, es: seq<Place>, close: char, end: nat)
    decreases |es|
  {
    && es != [] && es[0].start == q && IsPlace(mem, es[0])
    && if |es| == 1 then Ending(mem, es[0].mark, close, end)
       else Comma(mem, es[0].mark, es[1].start, close) && Listed(mem, es[1].start, es[1..], close, end)
  }

  /** A container whose bracket is at p: empty, or with entries. */
  predicate Contained(mem: string, p: nat, es: seq<Place>, close: char, end: nat) {
    if es == [] then 1 <= end <= |mem| && SpacesTo(mem, p + 1, end - 1) && mem[end - 1] == close
    else SpacesTo(mem, p + 1, es[0].start) && mem[es[0].start] != close && Listed(mem, es[0].start, es, close, end)
  }

  /** The entries are read as these values, each to its own end. */
  predicate Hold(mem: string, es: seq<Place>, vs: seq<Value>)
    requires Terminated(mem)
  {
    && |vs| == |es|
    && forall k :: 0 <= k < |es| ==> es[k].start < |mem| && ValueAt(mem, es[k].start) == Parsed(vs[k], es[k].end)
  }

  /** A name, spaces, a colon, spaces, and a value. */
  ghost predicate Named(mem: string, q: nat, m: Member, e: nat)
    requires Terminated(mem)
  {
    q < |mem| && exists s: nat, c: nat, t: nat ::
      && StringAt(mem, q) == Parsed(m.name, s) && Spaces(mem, s, c) && c < |mem| && mem[c] == ':'
      && SpacesTo(mem, c + 1, t) && t < |mem| && ValueAt(mem, t) == Parsed(m.value, e)
  }

  /** The entries are read as these members. */
  ghost predicate HoldNamed(mem: string, es: seq<Place>, ms: seq<Member>)
    requires Terminated(mem)
  {
    |ms| == |es| && forall k :: 0 <= k < |es| ==> Named(mem, es[k].start, ms[k], es[k].end)
  }

  // ---------------------------------------------------------------- spaces

  /** Skip goes over all the spaces and no further. */
  lemma SkipIs(mem: string, p: nat, q: nat)
    requires Terminated(mem) && p < |mem|
    ensures Skip(mem, p) == q <==> SpacesTo(mem, p, q)
  {
    var s := Skip(mem, p);
    hide Skip;
    assert forall c :: IsSpace(c) <==> c == ' ' || 9 <= c as int <= 13;
    if q > s { assert !IsSpace(mem[s]); }
  }

  lemma Mark(mem: string, p: nat, m: nat)
    requires Terminated(mem) && Spaces(mem, p, m) && m < |mem| && (mem[m] == ',' || mem[m] == ']' || mem[m] == '}' || mem[m] == ':')
    ensures p < |mem| && Skip(mem, p) == m
  {
    SkipIs(mem, p, m);
  }

  lemma SpacesThere(mem: string, p: nat)
    requires Terminated(mem) && p < |mem|
    ensures SpacesTo(mem, p, Skip(mem, p)) && Spaces(mem, p, Skip(mem, p))
  {
    SkipIs(mem, p, Skip(mem, p));
  }

  // ---------------------------------------------------------------- after an entry

  lemma AfterThere(mem: string, e: nat, close: char) returns (m: nat)
    requires Terminated(mem) && e < |mem| && (close == ']' || close == '}')
    ensures e <= m < |mem| && Spaces(mem, e, m)
    ensures AfterEntry(mem, e, close).More? ==> Comma(mem, m, AfterEntry(mem, e, close).next, close)
    ensures AfterEntry(mem, e, close).Close? ==> Ending(mem, m, close, AfterEntry(mem, e, close).end)
  {
    hide Skip, Spaces, SpacesTo;
    m := Skip(mem, e);
    SpacesThere(mem, e);
    if mem[m] == ',' { SpacesThere(mem, m + 1); }
  }

  lemma CommaGoesOn(mem: string, e: nat, m: nat, t: nat, close: char)
    requires Terminated(mem) && Spaces(mem, e, m) && Comma(mem, m, t, close) && (close == ']' || close == '}')
    ensures e < |mem| && AfterEntry(mem, e, close) == More(t)
  {
    hide Skip, Spaces, SpacesTo;
    Mark(mem, e, m);
    SkipIs(mem, m + 1, t);
  }

  lemma LastCloses(mem: string, e: nat, m: nat, end: nat, close: char)
    requires Terminated(mem) && Spaces(mem, e, m) && Ending(mem, m, close, end) && (close == ']' || close == '}')
    ensures e < |mem| && AfterEntry(mem, e, close) == Close(end)
  {
    hide Skip, Spaces, SpacesTo;
    Mark(mem, e, m);
    if mem[m] == ',' { SkipIs(mem, m + 1, end - 2); }
  }

  // ---------------------------------------------------------------- arrays

  lemma ListedStep(mem: string, e: Place, es: seq<Place>, close: char, end: nat)
    requires IsPlace(mem, e)
    requires if es == [] then Ending(mem, e.mark, close, end)
             else Comma(mem, e.mark, es[0].start, close) && Listed(mem, es[0].start, es, close, end)
    ensures Listed(mem, e.start, [e] + es, close, end)
  {
    hide Ending, Comma, IsPlace;
    assert ([e] + es)[1..] == es;
  }

  lemma HoldStep(mem: string, e: Place, es: seq<Place>, v: Value, vs: seq<Value>)
    requires Terminated(mem) && e.start < |mem| && ValueAt(mem, e.start) == Parsed(v, e.end) && Hold(mem, es, vs)
    ensures Hold(mem, [e] + es, [v] + vs)
  {
    hide ValueAt;
  }

  lemma HoldNone(mem: string)
    requires Terminated(mem)
    ensures Hold(mem, [], [])
  {
  }

  /** What the loop over entries has accepted. */
  lemma {:induction false} ItemsThere(mem: string, q: nat, done: seq<Value>) returns (es: seq<Place>, vs: seq<Value>)
    requires Terminated(mem) && q < |mem| && ItemsAt(mem, q, done).Parsed?
    ensures var o := ItemsAt(mem, q, done);
            Listed(mem, q, es, ']', o.end) && Hold(mem, es, vs) && o.value == Array(done + vs)
    decreases |mem| - q
  {
    hide ItemsAt, ValueAt, AfterEntry, Listed, Hold, Spaces, Comma, Ending;
    ItemsUnfold(mem, q, done);
    var v, e := ValueAt(mem, q).value, ValueAt(mem, q).end;
    var m := AfterThere(mem, e, ']');
    var first := Place(q, e, m);
    var f := AfterEntry(mem, e, ']');
    HoldNone(mem);
    if f.More? {
      es, vs := ItemsThere(mem, f.next, done + [v]);
      ListedFirst(mem, f.next, es, ']', ItemsAt(mem, q, done).end);
      assert done + [v] + vs == done + ([v] + vs);
    } else {
      es, vs := [], [];
    }
    ListedStep(mem, first, es, ']', ItemsAt(mem, q, done).end);
    HoldStep(mem, first, es, v, vs);
    es, vs := [first] + es, [v] + vs;
  }

  lemma ListedFirst(mem: string, q: nat, es: seq<Place>, close: char, end: nat)
    requires Listed(mem, q, es, close, end)
    ensures es != [] && es[0].start == q && IsPlace(mem, es[0])
    ensures |es| == 1 ==> Ending(mem, es[0].mark, close, end)
    ensures |es| > 1 ==> Comma(mem, es[0].mark, es[1].start, close) && Listed(mem, es[1].start, es[1..], close, end)
  {
    hide Ending, Comma, IsPlace;
  }

  lemma HoldFirst(mem: string, es: seq<Place>, vs: seq<Value>)
    requires Terminated(mem) && es != [] && Hold(mem, es, vs)
    ensures es[0].start < |mem| && vs != [] && ValueAt(mem, es[0].start) == Parsed(vs[0], es[0].end) && Hold(mem, es[1..], vs[1..])
  {
    hide ValueAt;
  }

  /** Entries that stand like that are accepted. */
  lemma {:induction false} ItemsAccepted(mem: string, q: nat, es: seq<Place>, vs: seq<Value>, end: nat, done: seq<Value>)
    requires Terminated(mem) && Listed(mem, q, es, ']', end) && Hold(mem, es, vs)
    ensures q < |mem| && ItemsAt(mem, q, done) == Parsed(Array(done + vs), end)
    decreases |es|
  {
    hide ItemsAt, ValueAt, AfterEntry, Listed, Hold, Spaces, Comma, Ending;
    ListedFirst(mem, q, es, ']', end);
    HoldFirst(mem, es, vs);
    ItemsUnfold(mem, q, done);
    var v := vs[0];
    if |es| == 1 {
      LastCloses(mem, es[0].end, es[0].mark, end, ']');
      HoldCount(mem, es, vs);
      assert vs == [v];
    } else {
      CommaGoesOn(mem, es[0].end, es[0].mark, es[1].start, ']');
      ItemsAccepted(mem, es[1].start, es[1..], vs[1..], end, done + [v]);
      assert done + [v] + vs[1..] == done + vs;
    }
  }

  lemma HoldCount(mem: string, es: seq<Place>, vs: seq<Value>)
    requires Terminated(mem) && Hold(mem, es, vs)
    ensures |vs| == |es|
  {
    hide ValueAt;
  }

  lemma ArrayThere(mem: string, p: nat) returns (es: seq<Place>, vs: seq<Value>)
    requires Terminated(mem) && p < |mem| && mem[p] == '[' && ValueAt(mem, p).Parsed?
    ensures var o := ValueAt(mem, p); o.value == Array(vs) && Contained(mem, p, es, ']', o.end) && Hold(mem, es, vs)
  {
    hide ItemsAt, ValueAt, Listed, Hold, SpacesTo, Skip, StructureAt;
    NotALiteral(mem, p);
    OpenArray(mem, p);
    var q := Skip(mem, p + 1);
    SpacesThere(mem, p + 1);
    HoldNone(mem);
    es, vs := [], [];
    if mem[q] != ']' {
      es, vs := ItemsThere(mem, q, []);
      ListedFirst(mem, q, es, ']', ValueAt(mem, p).end);
      assert [] + vs == vs;
    }
  }

  lemma ArrayAccepted(mem: string, p: nat, es: seq<Place>, vs: seq<Value>, end: nat)
    requires Terminated(mem) && p < |mem| && mem[p] == '[' && Contained(mem, p, es, ']', end) && Hold(mem, es, vs)
    ensures ValueAt(mem, p) == Parsed(Array(vs), end)
  {
    hide ItemsAt, ValueAt, Listed, Hold, SpacesTo, Skip, StructureAt;
    NotALiteral(mem, p);
    OpenArray(mem, p);
    SkipIs(mem, p + 1, if es == [] then end - 1 else es[0].start);
    if es == [] {
      HoldCount(mem, es, vs);
    } else {
      ItemsAccepted(mem, es[0].start, es, vs, end, []);
      assert [] + vs == vs;
    }
  }

  /** An array is accepted if and only if its entries are, and stand separated like that; it ends at the closing bracket. */
  lemma ArrayExactly(mem: string, p: nat, vs: seq<Value>, end: nat)
    requires Terminated(mem) && p < |mem| && mem[p] == '['
    ensures ValueAt(mem, p) == Parsed(Array(vs), end) <==> exists es :: Contained(mem, p, es, ']', end) && Hold(mem, es, vs)
  {
    hide ValueAt, Contained, Hold;
    if ValueAt(mem, p) == Parsed(Array(vs), end) {
      var es, us := ArrayThere(mem, p);
    }
    if es :| Contained(mem, p, es, ']', end) && Hold(mem, es, vs) { ArrayAccepted(mem, p, es, vs, end); }
  }

  // ---------------------------------------------------------------- objects

  lemma NameThere(mem: string, q: nat) returns (s: nat, c: nat, t: nat)
    requires Terminated(mem) && q < |mem| && NameAt(mem, q).Parsed?
    ensures StringAt(mem, q) == Parsed(NameAt(mem, q).value, s) && Spaces(mem, s, c) && c < |mem| && mem[c] == ':'
    ensures SpacesTo(mem, c + 1, t) && t == NameAt(mem, q).end
  {
    hide StringAt, Skip, Spaces, SpacesTo;
    s := StringAt(mem, q).end;
    c, t := Skip(mem, s), NameAt(mem, q).end;
    SpacesThere(mem, s);
    SpacesThere(mem, c + 1);
  }

  lemma NameAccepted(mem: string, q: nat, name: string, s: nat, c: nat, t: nat)
    requires Terminated(mem) && q < |mem| && StringAt(mem, q) == Parsed(name, s)
    requires Spaces(mem, s, c) && c < |mem| && mem[c] == ':' && SpacesTo(mem, c + 1, t)
    ensures NameAt(mem, q) == Parsed(name, t)
  {
    hide StringAt, Skip, Spaces, SpacesTo;
    Mark(mem, s, c);
    SkipIs(mem, c + 1, t);
  }

  lemma MemberIs(mem: string, q: nat)
    requires Terminated(mem) && q < |mem|
    ensures MemberAt(mem, q) == match NameAt(mem, q)
                                case Undefined => Undefined
                                case Rejected(e) => Rejected(e)
                                case Parsed(name, t) =>
                                  match ValueAt(mem, t)
                                  case Undefined => Undefined
                                  case Rejected(e) => Rejected(e)
                                  case Parsed(v, e) => Parsed(Member(name, v), e)
  {
    hide NameAt, ValueAt;
  }

  /** A member is accepted if and only if its name and value are, with a colon between them. */
  lemma MemberExactly(mem: string, q: nat, m: Member, e: nat)
    requires Terminated(mem) && q < |mem|
    ensures MemberAt(mem, q) == Parsed(m, e) <==> Named(mem, q, m, e)
  {
    hide MemberAt, NameAt, ValueAt, StringAt, Spaces, SpacesTo;
    MemberIs(mem, q);
    if MemberAt(mem, q) == Parsed(m, e) {
      var s, c, t := NameThere(mem, q);
    }
    if Named(mem, q, m, e) {
      var s: nat, c: nat, t: nat :|
        && StringAt(mem, q) == Parsed(m.name, s) && Spaces(mem, s, c) && c < |mem| && mem[c] == ':'
        && SpacesTo(mem, c + 1, t) && t < |mem| && ValueAt(mem, t) == Parsed(m.value, e);
      NameAccepted(mem, q, m.name, s, c, t);
    }
  }

  lemma NamedStep(mem: string, e: Place, es: seq<Place>, m: Member, ms: seq<Member>)
    requires Terminated(mem) && Named(mem, e.start, m, e.end) && HoldNamed(mem, es, ms)
    ensures HoldNamed(mem, [e] + es, [m] + ms)
  {
    hide Named;
  }

  lemma NamedNone(mem: string)
    requires Terminated(mem)
    ensures HoldNamed(mem, [], [])
  {
  }

  lemma NamedFirst(mem: string, es: seq<Place>, ms: seq<Member>)
    requires Terminated(mem) && HoldNamed(mem, es, ms)
    ensures |ms| == |es| && (es != [] ==> Named(mem, es[0].start, ms[0], es[0].end) && HoldNamed(mem, es[1..], ms[1..]))
  {
    hide Named;
  }

  lemma {:induction false} MembersThere(mem: string, q: nat, done: seq<Member>) returns (es: seq<Place>, ms: seq<Member>)
    requires Terminated(mem) && q < |mem| && MembersAt(mem, q, done).Parsed?
    ensures var o := MembersAt(mem, q, done);
            Listed(mem, q, es, '}', o.end) && HoldNamed(mem, es, ms) && o.value == Object(done + ms)
    decreases |mem| - q
  {
    hide MembersAt, MemberAt, AfterEntry, Listed, HoldNamed, Named, Spaces, Comma, Ending;
    MembersUnfold(mem, q, done);
    var v, e := MemberAt(mem, q).value, MemberAt(mem, q).end;
    MemberExactly(mem, q, v, e);
    var m := AfterThere(mem, e, '}');
    var first := Place(q, e, m);
    var f := AfterEntry(mem, e, '}');
    NamedNone(mem);
    if f.More? {
      es, ms := MembersThere(mem, f.next, done + [v]);
      ListedFirst(mem, f.next, es, '}', MembersAt(mem, q, done).end);
      assert done + [v] + ms == done + ([v] + ms);
    } else {
      es, ms := [], [];
    }
    ListedStep(mem, first, es, '}', MembersAt(mem, q, done).end);
    NamedStep(mem, first, es, v, ms);
    es, ms := [first] + es, [v] + ms;
  }

  lemma {:induction false} MembersAccepted(mem: string, q: nat, es: seq<Place>, ms: seq<Member>, end: nat, done: seq<Member>)
    requires Terminated(mem) && Listed(mem, q, es, '}', end) && HoldNamed(mem, es, ms)
    ensures q < |mem| && MembersAt(mem, q, done) == Parsed(Object(done + ms), end)
    decreases |es|
  {
    hide MembersAt, MemberAt, AfterEntry, Listed, HoldNamed, Named, Spaces, Comma, Ending;
    ListedFirst(mem, q, es, '}', end);
    NamedFirst(mem, es, ms);
    MemberExactly(mem, q, ms[0], es[0].end);
    MembersUnfold(mem, q, done);
    if |es| == 1 {
      LastCloses(mem, es[0].end, es[0].mark, end, '}');
      assert ms == [ms[0]];
    } else {
      CommaGoesOn(mem, es[0].end, es[0].mark, es[1].start, '}');
      MembersAccepted(mem, es[1].start, es[1..], ms[1..], end, done + [ms[0]]);
      assert done + [ms[0]] + ms[1..] == done + ms;
    }
  }

  lemma ObjectThere(mem: string, p: nat) returns (es: seq<Place>, ms: seq<Member>)
    requires Terminated(mem) && p < |mem| && mem[p] == '{' && ValueAt(mem, p).Parsed?
    ensures var o := ValueAt(mem, p); o.value == Object(ms) && Contained(mem, p, es, '}', o.end) && HoldNamed(mem, es, ms)
  {
    hide MembersAt, ValueAt, Listed, HoldNamed, SpacesTo, Skip, StructureAt;
    NotALiteral(mem, p);
    OpenObject(mem, p);
    var q := Skip(mem, p + 1);
    SpacesThere(mem, p + 1);
    NamedNone(mem);
    es, ms := [], [];
    if mem[q] != '}' {
      es, ms := MembersThere(mem, q, []);
      ListedFirst(mem, q, es, '}', ValueAt(mem, p).end);
      assert [] + ms == ms;
    }
  }

  lemma ObjectAccepted(mem: string, p: nat, es: seq<Place>, ms: seq<Member>, end: nat)
    requires Terminated(mem) && p < |mem| && mem[p] == '{' && Contained(mem, p, es, '}', end) && HoldNamed(mem, es, ms)
    ensures ValueAt(mem, p) == Parsed(Object(ms), end)
  {
    hide MembersAt, ValueAt, Listed, HoldNamed, SpacesTo, Skip, StructureAt;
    NotALiteral(mem, p);
    OpenObject(mem, p);
    SkipIs(mem, p + 1, if es == [] then end - 1 else es[0].start);
    NamedFirst(mem, es, ms);
    if es != [] {
      MembersAccepted(mem, es[0].start, es, ms, end, []);
      assert [] + ms == ms;
    }
  }

  /** The same for an object: each entry is a name, a colon and a value. */
  lemma ObjectExactly(mem: string, p: nat, ms: seq<Member>, end: nat)
    requires Terminated(mem) && p < |mem| && mem[p] == '{'
    ensures ValueAt(mem, p) == Parsed(Object(ms), end) <==> exists es :: Contained(mem, p, es, '}', end) && HoldNamed(mem, es, ms)
  {
    hide ValueAt, Contained, HoldNamed;
    if ValueAt(mem, p) == Parsed(Object(ms), end) {
      var es, ns := ObjectThere(mem, p);
    }
    if es :| Contained(mem, p, es, '}', end) && HoldNamed(mem, es, ms) { ObjectAccepted(mem, p, es, ms, end); }
  }
}
