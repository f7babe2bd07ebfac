/** The parser: it moves a cursor over the text and fills fresh nodes in place. */
module JsonParser {
  import opened Json
  import opened JsonText
  import opened JsonNode
  import opened JsonChain

  /** Wild: the text made the code read outside the memory it was given. */
  datatype Status = Done | Failed | Wild

  /** A `char **`: the text it points into, and where. */
  class Cursor {
    const text: string
    var pos: nat

    constructor (text: string)
      ensures this.text == text && pos == 0
    {
      this.text, pos := text, 0;
    }

    ghost predicate Valid()
      reads this
    {
      Terminated(text) && pos < |text|
    }

    /** skip */
    method SkipSpace()
      requires Valid()
      modifies this
      ensures Valid() && pos == Skip(text, old(pos))
    {
      while IsSpace(text[pos])
        invariant Valid() && Skip(text, pos) == Skip(text, old(pos))
        decreases |text| - pos
      {
        pos := pos + 1;
      }
    }

    /** stream_cmp: true when the literal was there. */
    method Matches(lit: string) returns (s: Status)
      requires Valid() && NUL !in lit
      modifies this
      ensures match Compare(text, old(pos), lit)
              case Parsed(b, e) => Valid() && pos == e && s == (if b then Done else Failed)
              case Rejected(_) => true
              case Undefined => s == Wild
    {
      var i := 0;
      while i < |lit| && text[pos] == lit[i]
        invariant Valid() && 0 <= i <= |lit|
        invariant Compare(text, pos, lit[i..]) == Compare(text, old(pos), lit)
             || (Compare(text, pos, lit[i..]).Parsed? && Compare(text, old(pos), lit) == Compare(text, pos, lit[i..]))
      {
        assert lit[i..][1..] == lit[i + 1..];
        pos := pos + 1;
        i := i + 1;
      }
      if i < |lit| {
        return Failed;
      }
      assert lit[i..] == [];
      // both stand at their terminators: the comparison would go on
      return if text[pos] == NUL then Wild else Done;
    }

    /** A run of digits, continuing n. */
    method ReadDigits(n0: int) returns (n: int)
      requires Valid()
      modifies this
      ensures Valid() && (n, pos) == Digits(text, old(pos), n0)
    {
      n := n0;
      while IsDigit(text[pos])
        invariant Valid() && Digits(text, pos, n) == Digits(text, old(pos), n0)
        decreases |text| - pos
      {
        n := 10 * n + (text[pos] as int - '0' as int);
        pos := pos + 1;
      }
    }

    method ReadWhole() returns (n: int)
      requires Valid()
      modifies this
      ensures Valid() && (n, pos) == Whole(text, old(pos))
    {
      n := 0;
      if text[pos] == '0' { pos := pos + 1; }
      if '1' <= text[pos] <= '9' { n := ReadDigits(0); }
    }

    method ReadFraction(whole: int) returns (n: int)
      requires Valid()
      modifies this
      ensures Valid() && (n, pos) == Fraction(text, old(pos), whole)
    {
      n := whole;
      if text[pos] == '.' && IsDigit(text[pos + 1]) {
        pos := pos + 1;
        n := ReadDigits(n);
      }
    }

    method ReadExponent() returns (n: int)
      requires Valid()
      modifies this
      ensures Valid() && (n, pos) == Exponent(text, old(pos))
    {
      n := 0;
      if text[pos] == 'e' || text[pos] == 'E' {
        pos := pos + 1;
        var negative := text[pos] == '-';
        if text[pos] == '+' || negative { pos := pos + 1; }
        n := ReadDigits(0);
        if negative { n := -n; }
      }
    }
  }

  /** The three parts of a number, one behind the other. */
  lemma NumberParts(mem: string, p: nat, q1: nat, q2: nat)
    requires Terminated(mem) && p < |mem|
    requires q1 == Whole(mem, if mem[p] == '-' then p + 1 else p).1
    requires q2 == Fraction(mem, q1, Whole(mem, if mem[p] == '-' then p + 1 else p).0).1
    ensures var mantissa := Fraction(mem, q1, Whole(mem, if mem[p] == '-' then p + 1 else p).0).0;
            var (exponent, q3) := Exponent(mem, q2);
            NumberAt(mem, p) == (Number(if mem[p] == '-' then -mantissa else mantissa,
                                        (if q2 == q1 then 0 else q1 + 1 - q2) + exponent), q3)
  {
    hide Whole, Fraction, Exponent;
  }

  method ParseNumber(item: Node, cur: Cursor) returns (s: Status)
    requires cur.Valid() && item.Blank()
    modifies item`kind, item`mantissa, item`exponent, cur
    ensures cur.Valid() && s == Done
    ensures var (v, e) := NumberAt(cur.text, old(cur.pos)); cur.pos == e && item.Valid() && item.Shows(v)
  {
    hide Node.Valid, Node.Shows, NumberAt, Whole, Fraction, Exponent;
    ghost var start := cur.pos;
    var negative := cur.text[cur.pos] == '-';
    if negative { cur.pos := cur.pos + 1; }
    var n := cur.ReadWhole();
    var point := cur.pos;
    n := cur.ReadFraction(n);
    NumberParts(cur.text, start, point, cur.pos);
    var scale := if cur.pos == point then 0 else point + 1 - cur.pos;
    var subscale := cur.ReadExponent();
    item.kind := NumberNode;
    item.mantissa, item.exponent := if negative then -n else n, scale + subscale;
    assert NumberAt(cur.text, start).0 == Number(item.mantissa, item.exponent);
    LeafShows(item);
    return Done;
  }

  // ---------------------------------------------------------------- strings

  /** The counting pass of parse_string: units up to the closing quote, and where it stands. */
  function CountPass(mem: string, p: nat): (o: Outcome<nat>)
    requires Terminated(mem)
    ensures !o.Rejected?
    ensures o.Parsed? ==> p <= o.end < |mem|
    decreases |mem| - p
  {
    if p >= |mem| then Undefined
    else if mem[p] == '\"' || mem[p] == NUL then Parsed(0, p)
    else match CountPass(mem, if mem[p] == '\\' then p + 2 else p + 1)
      case Parsed(n, e) => Parsed(n + 1, e)
      case _ => Undefined
  }

  /** From p to q the first pass counts k units. */
  ghost predicate Counted(mem: string, p: nat, q: nat, k: nat)
    requires Terminated(mem)
  {
    match CountPass(mem, q)
    case Parsed(n, e) => CountPass(mem, p) == Parsed(n + k, e)
    case _ => CountPass(mem, p) == Undefined
  }

  lemma CountOn(mem: string, p: nat, q: nat, r: nat, j: nat, k: nat)
    requires Terminated(mem)
    ensures Counted(mem, p, q, j) && Counted(mem, q, r, k) ==> Counted(mem, p, r, j + k)
  {
    hide CountPass;
  }

  lemma CountChar(mem: string, p: nat)
    requires Terminated(mem) && p < |mem| && mem[p] != '\"' && mem[p] != NUL
    ensures Counted(mem, p, if mem[p] == '\\' then p + 2 else p + 1, 1)
  {
  }

  lemma CountHex(mem: string, p: nat)
    requires Terminated(mem) && HasHex4(mem, p)
    ensures Counted(mem, p, p + 4, 4)
  {
    hide CountPass, Counted;
    CountChar(mem, p);
    CountChar(mem, p + 1);
    CountChar(mem, p + 2);
    CountChar(mem, p + 3);
    CountOn(mem, p, p + 1, p + 2, 1, 1);
    CountOn(mem, p, p + 2, p + 3, 2, 1);
    CountOn(mem, p, p + 3, p + 4, 3, 1);
  }

  /** Backslash, u and four digits. */
  lemma CountUnicode(mem: string, p: nat)
    requires Terminated(mem) && p < |mem| && mem[p] == '\\' && HasHex4(mem, p + 2)
    ensures Counted(mem, p, p + 6, 5)
  {
    hide CountPass, Counted, HasHex4;
    CountChar(mem, p);
    CountHex(mem, p + 2);
    CountOn(mem, p, p + 2, p + 6, 1, 4);
  }

  /** Where an escape can end, and what it then holds. */
  lemma EscapeEnds(mem: string, p: nat)
    requires Terminated(mem) && p < |mem| && mem[p] == '\\' && EscapeAt(mem, p).Parsed?
    ensures var u := EscapeAt(mem, p);
            || (u.end == p + 2 && |u.value| == 1)
            || (u.end == p + 6 && HasHex4(mem, p + 2))
            || (u.end == p + 12 && HasHex4(mem, p + 2) && p + 6 < |mem| && mem[p + 6] == '\\' && HasHex4(mem, p + 8))
  {
    hide HasHex4, EncodeUtf8;
  }

  /** An escape the second pass reads as one unit is passed over whole by the first, which counts enough room for it. */
  lemma CountEscape(mem: string, p: nat) returns (k: nat)
    requires Terminated(mem) && p < |mem| && mem[p] == '\\' && EscapeAt(mem, p).Parsed?
    ensures Counted(mem, p, EscapeAt(mem, p).end, k) && k >= |EscapeAt(mem, p).value|
  {
    hide CountPass, Counted, EscapeAt, HasHex4;
    EscapeEnds(mem, p);
    CountChar(mem, p);
    k := 1;
    if EscapeAt(mem, p).end != p + 2 {
      CountUnicode(mem, p);
      k := 5;
      if EscapeAt(mem, p).end == p + 12 {
        CountUnicode(mem, p + 6);
        CountOn(mem, p, p + 6, p + 12, 5, 5);
        k := 10;
      }
    }
  }

  /**
   * Both passes find the same closing quote, and the length the first pass counts
   * covers every byte the second one writes.
   */
  lemma {:induction false} PassesAgree(mem: string, p: nat)
    requires Terminated(mem) && Body(mem, p).Parsed?
    ensures CountPass(mem, p).Parsed? && |Body(mem, p).value| <= CountPass(mem, p).value
    ensures var e := CountPass(mem, p).end; Body(mem, p).end == (if mem[e] == '\"' then e + 1 else e)
    decreases |mem| - p
  {
    if mem[p] != '\"' && mem[p] != NUL {
      if mem[p] == '\\' {
        var _ := CountEscape(mem, p);
        PassesAgree(mem, EscapeAt(mem, p).end);
      } else {
        PassesAgree(mem, p + 1);
      }
    }
  }

  /** sscanf("%4x") on four digits. */
  method ReadHex4(text: string, p: nat) returns (uc: nat)
    requires HasHex4(text, p)
    ensures uc == Hex4(text, p)
  {
    uc := 0;
    var i := 0;
    while i < 4
      invariant 0 <= i <= 4
      invariant i == 1 ==> uc == HexValue(text[p])
      invariant i == 2 ==> uc == HexValue(text[p]) * 16 + HexValue(text[p + 1])
      invariant i == 3 ==> uc == HexValue(text[p]) * 256 + HexValue(text[p + 1]) * 16 + HexValue(text[p + 2])
      invariant i == 4 ==> uc == Hex4(text, p)
      invariant i == 0 ==> uc == 0
    {
      uc := uc * 16 + HexValue(text[p + i]);
      i := i + 1;
    }
  }

  /** Writes the UTF-8 bytes of a code point at out[n..], last byte first, and returns where they end. */
  method WriteUtf8(out: array<char>, n: nat, code: nat) returns (n': nat)
    requires code < 0x110000 && n + |EncodeUtf8(code)| <= out.Length
    modifies out
    ensures n' == n + |EncodeUtf8(code)| && out[..n'] == old(out[..n]) + EncodeUtf8(code)
  {
    hide EncodeUtf8;
    Utf8Size(code);
    ghost var before := out[..n];
    var len := 4;
    if code < 0x80 { len := 1; } else if code < 0x800 { len := 2; } else if code < 0x10000 { len := 3; }
    n' := n + len;
    var uc := code;
    if len == 4 { out[n + 3] := Continuation(uc); uc := uc / 64; }
    if len >= 3 { out[n + 2] := Continuation(uc); uc := uc / 64; }
    if len >= 2 { out[n + 1] := Continuation(uc); uc := uc / 64; }
    out[n] := (FirstByteMark(len) + uc) as char;
    BytesInPlace(out[n..n'], code);
    assert out[..n] == before;
    assert out[..n'] == out[..n] + out[n..n'];
  }

  lemma Utf8Size(code: nat)
    requires code < 0x110000
    ensures |EncodeUtf8(code)| == if code < 0x80 then 1 else if code < 0x800 then 2 else if code < 0x10000 then 3 else 4
  {
  }

  /** Shifting by six bits at a time gives the same digits as shifting once. */
  lemma BytesInPlace(s: string, code: nat)
    requires code < 0x110000 && |s| == |EncodeUtf8(code)|
    requires |s| == 1 ==> s[0] as int == code
    requires |s| == 2 ==> s[1] == Continuation(code) && s[0] as int == 0xC0 + code / 64
    requires |s| == 3 ==> s[2] == Continuation(code) && s[1] == Continuation(code / 64) && s[0] as int == 0xE0 + code / 64 / 64
    requires |s| == 4 ==> s[3] == Continuation(code) && s[2] == Continuation(code / 64)
                          && s[1] == Continuation(code / 64 / 64) && s[0] as int == 0xF0 + code / 64 / 64 / 64
    ensures s == EncodeUtf8(code)
  {
    assert code / 64 / 64 == code / 4096 && code / 4096 / 64 == code / 262144;
  }

  function FirstByteMark(len: nat): nat
    requires 1 <= len <= 4
  {
    if len == 1 then 0 else if len == 2 then 0xC0 else if len == 3 then 0xE0 else 0xF0
  }

  /** The second pass over one escape: `ptr` stands at its backslash. */
  method CopyEscape(text: string, ptr: nat, out: array<char>, n: nat) returns (s: Status, ptr': nat, n': nat)
    requires Terminated(text) && ptr < |text| && text[ptr] == '\\' && n <= out.Length
    requires EscapeAt(text, ptr).Parsed? ==> n + |EscapeAt(text, ptr).value| <= out.Length
    modifies out
    ensures match EscapeAt(text, ptr)
            case Parsed(bytes, e) =>
              s == Done && ptr' == e && n' == n + |bytes| && out[..n'] == old(out[..n]) + bytes
            case _ => s == Wild
  {
    hide Hex4, EncodeUtf8;
    var c := text[ptr + 1];
    ptr', n' := ptr + 2, n;
    if c != 'u' {
      out[n] := if c == 'b' then BACKSPACE else if c == 'f' then FORMFEED else if c == 'n' then '\n'
                else if c == 'r' then '\r' else if c == 't' then '\t' else c;
      return Done, ptr', n + 1;
    }
    if !HasHex4(text, ptr') { return Wild, ptr', n'; }
    var uc := ReadHex4(text, ptr');
    ptr' := ptr' + 4;
    if 0xDC00 <= uc <= 0xDFFF || uc == 0 { return Done, ptr', n'; }
    if 0xD800 <= uc <= 0xDBFF {
      if text[ptr'] != '\\' || text[ptr' + 1] != 'u' { return Done, ptr', n'; }
      if !HasHex4(text, ptr' + 2) { return Wild, ptr', n'; }
      var uc2 := ReadHex4(text, ptr' + 2);
      ptr' := ptr' + 6;
      if uc2 < 0xDC00 || uc2 > 0xDFFF { return Done, ptr', n'; }
      uc := CombineSurrogates(uc, uc2);
    }
    n' := WriteUtf8(out, n, uc);
    return Done, ptr', n';
  }

  /** The counting pass. */
  method CountUnits(text: string, p: nat) returns (s: Status, len: nat)
    requires Terminated(text) && p <= |text|
    ensures match CountPass(text, p)
            case Parsed(n, _) => s == Done && len == n
            case _ => s == Wild
  {
    var ptr := p;
    len := 0;
    while ptr < |text| && text[ptr] != '\"' && text[ptr] != NUL
      invariant p <= ptr <= |text|
      invariant match CountPass(text, ptr)
                case Parsed(n, e) => CountPass(text, p) == Parsed(len + n, e)
                case _ => CountPass(text, p) == Undefined
      decreases |text| - ptr
    {
      len := len + 1;
      ptr := if text[ptr] == '\\' then ptr + 2 else ptr + 1;
    }
    return if ptr < |text| then Done else Wild, len;
  }

  /** The writing pass never leaves the `len + 1` bytes that the counting pass asked for. */
  method CopyBody(text: string, p: nat, out: array<char>, len: nat) returns (s: Status, ptr: nat, n: nat)
    requires Terminated(text) && p <= |text| && CountPass(text, p).Parsed?
    requires CountPass(text, p).value == len && out.Length == len + 1
    modifies out
    ensures match Body(text, p)
            case Parsed(bytes, e) => s == Done && ptr == e && n <= len && out[..n] == bytes
            case _ => s == Wild
  {
    ptr, n := p, 0;
    PrependNothing(Body(text, p));
    assert out[..n] == "";
    while text[ptr] != '\"' && text[ptr] != NUL
      invariant p <= ptr && CountPass(text, ptr).Parsed? && n + CountPass(text, ptr).value <= len
      invariant n <= out.Length && Body(text, p) == Prepend(out[..n], Body(text, ptr))
      decreases |text| - ptr
    {
      ghost var before := out[..n];
      if text[ptr] != '\\' {
        out[n] := text[ptr];
        assert out[..n + 1] == before + [text[ptr]];
        PrependTwice(before, [text[ptr]], Body(text, ptr + 1));
        ptr, n := ptr + 1, n + 1;
      } else {
        var status, ptr', n' := EscapeWithin(text, ptr, out, n, len);
        if status == Wild { return Wild, ptr', n'; }
        PrependTwice(before, EscapeAt(text, ptr).value, Body(text, ptr'));
        ptr, n := ptr', n';
      }
    }
    if text[ptr] == '\"' { ptr := ptr + 1; }
    assert out[..n] + "" == out[..n];
    return Done, ptr, n;
  }

  lemma PrependNothing(o: Outcome<string>)
    ensures Prepend("", o) == o
  {
    if o.Parsed? { assert "" + o.value == o.value; }
  }

  lemma PrependTwice(a: string, b: string, o: Outcome<string>)
    ensures Prepend(a, Prepend(b, o)) == Prepend(a + b, o)
  {
    if o.Parsed? { assert a + (b + o.value) == a + b + o.value; }
  }

  method EscapeWithin(text: string, ptr: nat, out: array<char>, n: nat, len: nat) returns (s: Status, ptr': nat, n': nat)
    requires Terminated(text) && ptr < |text| && text[ptr] == '\\' && out.Length == len + 1
    requires CountPass(text, ptr).Parsed? && n + CountPass(text, ptr).value <= len
    modifies out
    ensures match EscapeAt(text, ptr)
            case Parsed(bytes, e) =>
              s == Done && ptr' == e && n' <= out.Length && out[..n'] == old(out[..n]) + bytes
              && CountPass(text, e).Parsed? && n' + CountPass(text, e).value <= len
            case _ => s == Wild
  {
    if EscapeAt(text, ptr).Parsed? { var _ := CountEscape(text, ptr); }
    s, ptr', n' := CopyEscape(text, ptr, out, n);
  }

  /** parse_string: the text read becomes the node's own string. */
  method ParseString(item: Node, cur: Cursor) returns (s: Status)
    requires cur.Valid() && item.Blank()
    modifies item`kind, item`valuestring, cur
    ensures match StringAt(cur.text, old(cur.pos))
            case Parsed(t, e) => s == Done && cur.Valid() && cur.pos == e && item.kind == StringNode && item.valuestring == Some(t)
            case Rejected(e) => s == Failed && cur.Valid() && cur.pos == e
            case Undefined => s == Wild
  {
    if cur.text[cur.pos] != '\"' { return Failed; }
    var start := cur.pos + 1;
    var len;
    s, len := CountUnits(cur.text, start);
    if s == Wild {
      if Body(cur.text, start).Parsed? { PassesAgree(cur.text, start); }
      return Wild;
    }
    var out := new char[len + 1];
    var end, n;
    s, end, n := CopyBody(cur.text, start, out, len);
    if s == Wild { return; }
    item.valuestring := Some(CString(out[..n]));
    item.kind := StringNode;
    cur.pos := end;
  }

  // ---------------------------------------------------------------- values

  /**
   * What a reading of the text leaves behind: the cursor where the reading ends, and a node that shows the value.
   * After a failure what was built is still a well-formed tree that can be deleted.
   */
  ghost predicate Ends(o: Outcome<Value>, s: Status, cur: Cursor, item: Node)
    reads cur, item, item.repr
  {
    match o
    case Parsed(v, e) => s == Done && cur.Valid() && cur.pos == e && item.Valid() && item.Shows(v)
    case Rejected(e) => s == Failed && cur.Valid() && cur.pos == e && item.Valid()
    case Undefined => s == Wild
  }

  /** parse_value */
  method ParseValue(item: Node, cur: Cursor, heap: Heap) returns (s: Status)
    requires item.repr <= heap.live
    requires cur.Valid() && item.Blank()
    modifies item`child, item`kids, item`repr, item`kind, item`valuestring, item`mantissa, item`exponent, cur, heap
    ensures fresh(item.repr - {item})
    ensures s != Wild ==> heap.live == old(heap.live) + item.repr
    ensures Ends(ValueAt(cur.text, old(cur.pos)), s, cur, item)
    decreases |cur.text| - cur.pos, 3
  {
    hide StructureAt, Compare, Node.Valid, Node.Shows;
    s := cur.Matches("null");
    if s == Done { item.kind := NullNode; LeafShows(item); }
    if s != Failed { return; }
    s := cur.Matches("false");
    if s == Done { item.kind := FalseNode; LeafShows(item); }
    if s != Failed { return; }
    s := cur.Matches("true");
    if s == Done { item.kind := TrueNode; LeafShows(item); }
    if s != Failed { return; }
    s := ParseStructure(item, cur, heap);
  }

  lemma LeafShows(item: Node)
    requires item.child == null && item.kids == [] && item.repr == {item} && !item.isReference
    ensures item.Valid()
    ensures item.kind == NullNode ==> item.Shows(Null)
    ensures item.kind == FalseNode ==> item.Shows(False)
    ensures item.kind == TrueNode ==> item.Shows(True)
    ensures item.kind == NumberNode ==> item.Shows(Number(item.mantissa, item.exponent))
    ensures item.kind == StringNode && item.valuestring.Some? ==> item.Shows(Str(item.valuestring.value))
    ensures item.kind == ArrayNode ==> item.Shows(Array([]))
    ensures item.kind == ObjectNode ==> item.Shows(Object([]))
  {
  }

  /** The switch of parse_value on the first character. */
  method ParseStructure(item: Node, cur: Cursor, heap: Heap) returns (s: Status)
    requires item.repr <= heap.live
    requires cur.Valid() && item.Blank()
    modifies item`child, item`kids, item`repr, item`kind, item`valuestring, item`mantissa, item`exponent, cur, heap
    ensures fresh(item.repr - {item})
    ensures s != Wild ==> heap.live == old(heap.live) + item.repr
    ensures Ends(StructureAt(cur.text, old(cur.pos)), s, cur, item)
    decreases |cur.text| - cur.pos, 2
  {
    hide Node.Valid, Node.Shows, NumberAt, StringAt;
    var c := cur.text[cur.pos];
    if c == '\"' {
      s := ParseString(item, cur);
      if s != Wild { LeafShows(item); }
    } else if c == '-' || IsDigit(c) {
      s := ParseNumber(item, cur);
    } else if c == '[' {
      s := ParseArray(item, cur, heap);
    } else if c == '{' {
      s := ParseObject(item, cur, heap);
    } else {
      LeafShows(item);
      s := Failed;
    }
  }

  /** `item->child=child=cJSON_New_Item()` */
  method FirstEntry(item: Node, heap: Heap) returns (child: Node)
    requires item.Blank() && item in heap.live
    modifies item`child, item`kids, item`repr, heap
    ensures fresh(child) && child.Blank() && child.Valid() && child.name == None && child.next == null
    ensures item.Valid() && item.kids == [child] && item.repr == {item, child}
    ensures heap.live == old(heap.live) + item.repr
  {
    child := new Node(heap);
    item.child := child;
    item.kids := [child];
    item.repr := {item, child};
    assert Union(item.kids[..0]) == {};
  }

  /** A new item after the last one: `child->next=new_item;new_item->prev=child`. */
  method NextEntry(item: Node, last: Node, heap: Heap) returns (child: Node)
    requires item.repr <= heap.live
    requires item.Valid() && !item.isReference && item.kids != [] && last == item.kids[|item.kids| - 1]
    modifies item`kids, item`repr, last`next, heap
    ensures fresh(child) && child.Blank() && child.Valid() && child.name == None && child.next == null
    ensures item.Valid() && item.kids == old(item.kids) + [child] && item.repr == old(item.repr) + {child}
    ensures heap.live == old(heap.live) + item.repr
  {
    child := new Node(heap);
    SuffixObject(item, last, child);
  }

  /** The last item of the chain has been filled: its parent owns what it owns. */
  ghost method Regrow(item: Node, last: Node, rest: set<Node>)
    requires !item.isReference && item.kids != [] && last == item.kids[|item.kids| - 1] && item !in item.kids
    requires item !in rest && item !in last.repr && Linked(item.kids, item.child)
    requires var init := item.kids[..|item.kids| - 1];
             Separate(init) && AllValid(init, rest) && Union(init) == rest
    requires last.Valid() && last.repr !! rest && item.repr == {item} + rest + {last}
    modifies item`repr
    ensures item.Valid() && item.repr == old(item.repr) + last.repr
  {
    hide Node.Valid, AllValid, Separate, Union, Linked;
    Unfold(last);
    item.repr := item.repr + last.repr;
    assert item.repr == {item} + rest + last.repr;
    FoldLast(item, last, rest);
  }

  /** Parses into the last item of the chain; the chain before it stays as it was. */
  method ParseEntry(item: Node, child: Node, cur: Cursor, heap: Heap) returns (s: Status)
    requires item.repr <= heap.live
    requires cur.Valid() && item.Valid() && !item.isReference
    requires item.kids != [] && child == item.kids[|item.kids| - 1] && child.Blank()
    modifies item`repr, cur, heap
    modifies child`child, child`kids, child`repr, child`kind, child`valuestring, child`mantissa, child`exponent
    ensures fresh(item.repr - old(item.repr)) && fresh(child.repr - {child})
    ensures s != Wild ==> heap.live == old(heap.live) + item.repr
    ensures s != Wild ==> item.repr == old(item.repr) + child.repr
    ensures Ends(ValueAt(cur.text, old(cur.pos)), s, cur, child) && (s != Wild ==> item.Valid())
    decreases |cur.text| - cur.pos, 4
  {
    hide ValueAt, Node.Valid, Node.Shows, AllValid, Separate, Union, Linked;
    ghost var init, rest := item.kids[..|item.kids| - 1], item.repr - {item} - {child};
    Unfold(item);
    SplitLast(item.kids, item.repr - {item});
    assert child.repr == {child} && item.repr == {item} + rest + {child};
    assert Separate(init) && AllValid(init, rest) && Union(init) == rest;
    s := ParseValue(child, cur, heap);
    if s != Wild {
      assert Separate(init) && AllValid(init, rest) && Union(init) == rest;
      Regrow(item, child, rest);
    }
  }

  /** What is still to come of an array once its entries so far have been read up to e. */
  ghost function ItemsAfter(mem: string, e: nat, done: seq<Value>): Outcome<Value>
    requires Terminated(mem) && e < |mem|
  {
    match AfterEntry(mem, e, ']')
    case Close(e') => Parsed(Array(done), e')
    case More(q) => ItemsAt(mem, q, done)
    case Bad(e') => Rejected(e')
  }

  ghost function MembersAfter(mem: string, e: nat, done: seq<Member>): Outcome<Value>
    requires Terminated(mem) && e < |mem|
  {
    match AfterEntry(mem, e, '}')
    case Close(e') => Parsed(Object(done), e')
    case More(q) => MembersAt(mem, q, done)
    case Bad(e') => Rejected(e')
  }

  /** The loops see the text after an entry with the spaces already skipped. */
  lemma AfterSkip(mem: string, e: nat)
    requires Terminated(mem) && e < |mem|
    ensures AfterEntry(mem, Skip(mem, e), ']') == AfterEntry(mem, e, ']')
    ensures AfterEntry(mem, Skip(mem, e), '}') == AfterEntry(mem, e, '}')
  {
    assert Skip(mem, Skip(mem, e)) == Skip(mem, e);
  }

  lemma ItemsSkip(mem: string, e: nat, done: seq<Value>)
    requires Terminated(mem) && e < |mem|
    ensures ItemsAfter(mem, Skip(mem, e), done) == ItemsAfter(mem, e, done)
  {
    hide AfterEntry, ItemsAt;
    AfterSkip(mem, e);
  }

  lemma MembersSkip(mem: string, e: nat, done: seq<Member>)
    requires Terminated(mem) && e < |mem|
    ensures MembersAfter(mem, Skip(mem, e), done) == MembersAfter(mem, e, done)
  {
    hide AfterEntry, MembersAt;
    AfterSkip(mem, e);
  }

  lemma ItemsEntry(mem: string, p: nat, done: seq<Value>)
    requires Terminated(mem) && p < |mem|
    ensures ValueAt(mem, p).Parsed? ==>
              ItemsAt(mem, p, done) == ItemsAfter(mem, ValueAt(mem, p).end, done + [ValueAt(mem, p).value])
    ensures !ValueAt(mem, p).Parsed? ==> ItemsAt(mem, p, done) == ValueAt(mem, p)
  {
    hide ValueAt;
  }

  /** The last step of both loops: the closing bracket is there, or the container is refused. */
  function Closing(mem: string, p: nat, close: char): Follow
    requires p < |mem|
  {
    if mem[p] == close then Close(p + 1) else Bad(p)
  }

  /** All that is left of the array from start on is its closing bracket, due at p. */
  ghost predicate ItemsClosed(mem: string, start: nat, p: nat, done: seq<Value>)
    requires Terminated(mem) && start < |mem| && p < |mem|
  {
    ItemsAt(mem, start, []) == if mem[p] == ']' then Parsed(Array(done), p + 1) else Rejected(p)
  }

  ghost predicate MembersClosed(mem: string, start: nat, p: nat, done: seq<Member>)
    requires Terminated(mem) && start < |mem| && p < |mem|
  {
    MembersAt(mem, start, []) == if mem[p] == '}' then Parsed(Object(done), p + 1) else Rejected(p)
  }

  lemma ItemsGoOn(mem: string, p: nat, q: nat, done: seq<Value>)
    requires Terminated(mem) && p < |mem| && q < |mem|
    ensures AfterEntry(mem, p, ']') == More(q) ==> ItemsAfter(mem, p, done) == ItemsAt(mem, q, done)
    ensures AfterEntry(mem, p, ']') == Closing(mem, q, ']') ==>
              ItemsAfter(mem, p, done) == if mem[q] == ']' then Parsed(Array(done), q + 1) else Rejected(q)
  {
    hide AfterEntry, ItemsAt;
  }

  lemma MembersGoOn(mem: string, p: nat, q: nat, done: seq<Member>)
    requires Terminated(mem) && p < |mem| && q < |mem|
    ensures AfterEntry(mem, p, '}') == More(q) ==> MembersAfter(mem, p, done) == MembersAt(mem, q, done)
    ensures AfterEntry(mem, p, '}') == Closing(mem, q, '}') ==>
              MembersAfter(mem, p, done) == if mem[q] == '}' then Parsed(Object(done), q + 1) else Rejected(q)
  {
    hide AfterEntry, MembersAt;
  }

  /** The comma, the spaces after it, and the bracket that may close the array there. */
  method NextOrClose(cur: Cursor, close: char) returns (more: bool)
    requires cur.Valid() && cur.text[cur.pos] == ',' && (close == ']' || close == '}')
    modifies cur
    ensures cur.Valid()
    ensures more ==> AfterEntry(cur.text, old(cur.pos), close) == More(cur.pos) && cur.pos > old(cur.pos)
    ensures !more ==> AfterEntry(cur.text, old(cur.pos), close) == Closing(cur.text, cur.pos, close)
  {
    cur.pos := cur.pos + 1;
    cur.SkipSpace();
    more := cur.text[cur.pos] != close;
    if !more { cur.pos := cur.pos + 1; }
  }

  /** No comma after an entry: the closing bracket, or a failure there. */
  lemma NoComma(mem: string, p: nat)
    requires Terminated(mem) && p < |mem| && !IsSpace(mem[p]) && mem[p] != ','
    ensures AfterEntry(mem, p, ']') == Closing(mem, p, ']') && AfterEntry(mem, p, '}') == Closing(mem, p, '}')
  {
    assert Skip(mem, p) == p;
  }

  lemma ItemsEnd(mem: string, p: nat, done: seq<Value>)
    requires Terminated(mem) && p < |mem|
    ensures !IsSpace(mem[p]) && mem[p] != ',' ==>
              ItemsAfter(mem, p, done) == if mem[p] == ']' then Parsed(Array(done), p + 1) else Rejected(p)
  {
    hide *;
    if !IsSpace(mem[p]) && mem[p] != ',' {
      NoComma(mem, p);
      ItemsGoOn(mem, p, p, done);
    }
  }

  lemma MembersEnd(mem: string, p: nat, done: seq<Member>)
    requires Terminated(mem) && p < |mem|
    ensures !IsSpace(mem[p]) && mem[p] != ',' ==>
              MembersAfter(mem, p, done) == if mem[p] == '}' then Parsed(Object(done), p + 1) else Rejected(p)
  {
    hide *;
    if !IsSpace(mem[p]) && mem[p] != ',' {
      NoComma(mem, p);
      MembersGoOn(mem, p, p, done);
    }
  }

  /** parse_array */
  method ParseArray(item: Node, cur: Cursor, heap: Heap) returns (s: Status)
    requires item.repr <= heap.live
    requires cur.Valid() && item.Blank() && cur.text[cur.pos] == '['
    modifies item`child, item`kids, item`repr, item`kind, item`valuestring, item`mantissa, item`exponent, cur, heap
    ensures fresh(item.repr - {item})
    ensures s != Wild ==> heap.live == old(heap.live) + item.repr
    ensures Ends(StructureAt(cur.text, old(cur.pos)), s, cur, item)
    decreases |cur.text| - cur.pos, 1
  {
    hide StructureAt, Skip, ItemsAt, MembersAt, Node.Valid, Node.Shows;
    OpenArray(cur.text, cur.pos);
    item.kind := ArrayNode;
    cur.pos := cur.pos + 1;
    cur.SkipSpace();
    if cur.text[cur.pos] == ']' {
      cur.pos := cur.pos + 1;
      LeafShows(item);
      return Done;
    }
    s := ParseItems(item, cur, heap);
  }

  /** An array under construction: its chain ends at `last` and shows the values read so far. */
  ghost predicate Building(item: Node, last: Node, vals: seq<Value>)
    reads item, item.repr
  {
    && item.Valid() && !item.isReference && item.kind == ArrayNode
    && item.kids != [] && last == item.kids[|item.kids| - 1]
    && ShowItems(item.kids, vals, item.repr - {item})
  }

  method FirstItem(item: Node, cur: Cursor, heap: Heap) returns (s: Status, child: Node)
    requires item.repr <= heap.live
    requires cur.Valid() && item.Blank() && item.kind == ArrayNode
    modifies item`child, item`kids, item`repr, cur, heap
    ensures fresh(item.repr - {item}) && fresh(child)
    ensures s != Wild ==> heap.live == old(heap.live) + item.repr
    ensures var o := ValueAt(cur.text, old(cur.pos));
            match o
            case Parsed(_, e) => s == Done && cur.Valid() && cur.pos == e && Building(item, child, [o.value])
            case Rejected(e) => s == Failed && cur.Valid() && cur.pos == e && item.Valid()
            case Undefined => s == Wild
    decreases |cur.text| - cur.pos, 5
  {
    hide ValueAt, AllValid, Separate, Union, Linked, ShowItems, Node.Valid, Node.Shows;
    child := FirstEntry(item, heap);
    s := ParseEntry(item, child, cur, heap);
    if s == Done { OneItem(item, child, ValueAt(cur.text, old(cur.pos)).value); }
  }

  /** One more entry at the end of the chain. */
  method NextItem(item: Node, last: Node, cur: Cursor, heap: Heap, ghost vals: seq<Value>)
    returns (s: Status, child: Node)
    requires item.repr <= heap.live
    requires cur.Valid() && Building(item, last, vals)
    modifies item`kids, item`repr, last`next, cur, heap
    ensures fresh(item.repr - old(item.repr)) && fresh(child)
    ensures s != Wild ==> heap.live == old(heap.live) + item.repr && old(item.repr) <= item.repr
    ensures var o := ValueAt(cur.text, old(cur.pos));
            match o
            case Parsed(_, e) => s == Done && cur.Valid() && cur.pos == e && Building(item, child, vals + [o.value])
            case Rejected(e) => s == Failed && cur.Valid() && cur.pos == e && item.Valid()
            case Undefined => s == Wild
    decreases |cur.text| - cur.pos, 5
  {
    hide ValueAt, AllValid, Separate, Union, Linked, ShowItems, Building, Node.Valid, Node.Shows;
    ghost var kids, was := item.kids, item.repr;
    UnfoldArray(item, last, vals);
    child := NextEntry(item, last, heap);
    s := ParseEntry(item, child, cur, heap);
    if s == Done { GrowArray(item, kids, was, vals, child, ValueAt(cur.text, old(cur.pos)).value); }
  }

  lemma UnfoldArray(item: Node, last: Node, vals: seq<Value>)
    requires Building(item, last, vals)
    ensures item.Valid() && !item.isReference && item.kids != [] && last == item.kids[|item.kids| - 1]
    ensures item in item.repr && Separate(item.kids) && AllValid(item.kids, item.repr - {item})
    ensures ShowItems(item.kids, vals, item.repr - {item}) && item.kind == ArrayNode
  {
    hide AllValid, Separate, Union, Linked, ShowItems, Node.Valid;
    Unfold(item);
  }

  lemma GrowArray(item: Node, kids: seq<Node>, was: set<Node>, vals: seq<Value>, child: Node, v: Value)
    requires Separate(kids) && AllValid(kids, was - {item}) && ShowItems(kids, vals, was - {item})
    requires child.Valid() && child.Shows(v) && child.repr !! was && item in was
    requires item.Valid() && !item.isReference && item.kind == ArrayNode
    requires item.kids == kids + [child] && item.repr == was + {child} + child.repr
    ensures Building(item, child, vals + [v])
  {
    hide AllValid, Separate, Union, Linked, ShowItems, Node.Valid, Node.Shows;
    Unfold(child);
    AppendItems(kids, vals, was - {item}, child, v);
    assert item.repr - {item} == was - {item} + child.repr;
  }

  /** The entries of a non-empty array, through its closing bracket. */
  method ParseItems(item: Node, cur: Cursor, heap: Heap) returns (s: Status)
    requires item.repr <= heap.live
    requires cur.Valid() && item.Blank() && item.kind == ArrayNode
    modifies item`child, item`kids, item`repr, cur, heap
    ensures fresh(item.repr - {item})
    ensures s != Wild ==> heap.live == old(heap.live) + item.repr
    ensures Ends(ItemsAt(cur.text, old(cur.pos), []), s, cur, item)
    decreases |cur.text| - cur.pos, 6
  {
    hide ValueAt, ItemsAt, ItemsAfter, AfterEntry, Closing, Skip, Building, Node.Valid, Node.Shows;
    ghost var text, start := cur.text, cur.pos;
    ItemsEntry(text, start, []);
    var child;
    s, child := FirstItem(item, cur, heap);
    if s != Done { return; }
    ghost var vals := [ValueAt(text, start).value];
    assert [] + [vals[0]] == vals;
    ItemsSkip(text, cur.pos, vals);
    cur.SkipSpace();
    while cur.text[cur.pos] == ','
      invariant cur.Valid() && !IsSpace(text[cur.pos]) && cur.pos > start
      invariant Building(item, child, vals) && fresh(item.repr - {item}) && fresh(child)
      invariant heap.live == old(heap.live) + item.repr
      invariant ItemsAt(text, start, []) == ItemsAfter(text, cur.pos, vals)
      decreases |text| - cur.pos
    {
      ghost var comma := cur.pos;
      var more := NextOrClose(cur, ']');
      ghost var at := cur.pos;
      ItemsGoOn(text, comma, at, vals);
      if !more { break; }
      ItemsEntry(text, at, vals);
      s, child := NextItem(item, child, cur, heap, vals);
      if s != Done { return; }
      vals := vals + [ValueAt(text, at).value];
      ItemsSkip(text, cur.pos, vals);
      cur.SkipSpace();
    }
    ItemsEnd(text, cur.pos, vals);
    assert ItemsClosed(text, start, cur.pos, vals);
    s := CloseArray(item, child, cur, start, vals);
  }

  /** The closing bracket, or a failure where it is missing. */
  method CloseArray(item: Node, last: Node, cur: Cursor, ghost start: nat, ghost vals: seq<Value>) returns (s: Status)
    requires cur.Valid() && Building(item, last, vals)
    requires start < |cur.text| && ItemsClosed(cur.text, start, cur.pos, vals)
    modifies cur
    ensures s != Wild && Ends(ItemsAt(cur.text, start, []), s, cur, item)
  {
    hide ItemsAt, Node.Valid, Node.Shows, Building;
    FoldArray(item, last, vals);
    if cur.text[cur.pos] != ']' { return Failed; }
    cur.pos := cur.pos + 1;
    return Done;
  }

  lemma OneItem(item: Node, child: Node, v: Value)
    requires item.Valid() && item.kids == [child] && child.Valid() && child.Shows(v)
    ensures Separate(item.kids) && AllValid(item.kids, item.repr - {item})
    ensures ShowItems(item.kids, [v], item.repr - {item})
  {
  }

  lemma FoldArray(item: Node, last: Node, vals: seq<Value>)
    requires Building(item, last, vals)
    ensures item.Valid() && item.Shows(Array(vals))
  {
  }

  // ---------------------------------------------------------------- objects

  lemma MembersEntry(mem: string, p: nat, done: seq<Member>)
    requires Terminated(mem) && p < |mem|
    ensures MemberAt(mem, p).Parsed? ==>
              MembersAt(mem, p, done) == MembersAfter(mem, MemberAt(mem, p).end, done + [MemberAt(mem, p).value])
    ensures MemberAt(mem, p).Rejected? ==> MembersAt(mem, p, done) == Rejected(MemberAt(mem, p).end)
    ensures MemberAt(mem, p).Undefined? ==> MembersAt(mem, p, done) == Undefined
  {
    hide MemberAt;
  }

  /** parse_string for a member's name, which is then moved to its place, and the colon. */
  method ReadName(child: Node, cur: Cursor) returns (s: Status)
    requires cur.Valid() && child.Blank()
    modifies child`kind, child`valuestring, child`name, cur
    ensures match NameAt(cur.text, old(cur.pos))
            case Parsed(name, e) => s == Done && cur.Valid() && cur.pos == e && child.Blank() && child.name == Some(name)
            case Rejected(e) => s == Failed && cur.Valid() && cur.pos == e
            case Undefined => s == Wild
  {
    hide StringAt;
    s := ParseString(child, cur);
    if s != Done { return; }
    child.name := child.valuestring;
    child.valuestring := None;
    cur.SkipSpace();
    if cur.text[cur.pos] != ':' { return Failed; }
    cur.pos := cur.pos + 1;
    cur.SkipSpace();
  }

  /** A name, a colon and a value, into the last item of the chain. */
  method ParseMember(item: Node, child: Node, cur: Cursor, heap: Heap) returns (s: Status)
    requires item.repr <= heap.live
    requires cur.Valid() && item.Valid() && !item.isReference
    requires item.kids != [] && child == item.kids[|item.kids| - 1] && child.Blank()
    modifies item`repr, cur, heap, child`name
    modifies child`child, child`kids, child`repr, child`kind, child`valuestring, child`mantissa, child`exponent
    ensures fresh(item.repr - old(item.repr)) && fresh(child.repr - {child})
    ensures s != Wild ==> heap.live == old(heap.live) + item.repr && old(item.repr) <= item.repr
    ensures s == Done ==> item.repr == old(item.repr) + child.repr
    ensures match MemberAt(cur.text, old(cur.pos))
            case Parsed(m, e) =>
              s == Done && cur.Valid() && cur.pos == e && item.Valid()
              && child.name == Some(m.name) && child.Valid() && child.Shows(m.value)
            case Rejected(e) => s == Failed && cur.Valid() && cur.pos == e && item.Valid()
            case Undefined => s == Wild
    decreases |cur.text| - cur.pos, 5
  {
    hide ValueAt, NameAt, AllValid, Separate, Union, Linked, Node.Valid, Node.Shows;
    Unfold(item);
    s := ReadName(child, cur);
    if s == Wild { return; }
    Fold(item);
    if s == Failed { return; }
    s := ParseEntry(item, child, cur, heap);
  }

  /** An object under construction. */
  ghost predicate BuildingObject(item: Node, last: Node, ms: seq<Member>)
    reads item, item.repr
  {
    && item.Valid() && !item.isReference && item.kind == ObjectNode
    && item.kids != [] && last == item.kids[|item.kids| - 1]
    && ShowMembers(item.kids, ms, item.repr - {item})
  }

  method FirstMember(item: Node, cur: Cursor, heap: Heap) returns (s: Status, child: Node)
    requires item.repr <= heap.live
    requires cur.Valid() && item.Blank() && item.kind == ObjectNode
    modifies item`child, item`kids, item`repr, cur, heap
    ensures fresh(item.repr - {item}) && fresh(child)
    ensures s != Wild ==> heap.live == old(heap.live) + item.repr
    ensures var o := MemberAt(cur.text, old(cur.pos));
            match o
            case Parsed(_, e) => s == Done && cur.Valid() && cur.pos == e && BuildingObject(item, child, [o.value])
            case Rejected(e) => s == Failed && cur.Valid() && cur.pos == e && item.Valid()
            case Undefined => s == Wild
    decreases |cur.text| - cur.pos, 6
  {
    hide MemberAt, AllValid, Separate, Union, Linked, ShowMembers, Node.Valid, Node.Shows;
    child := FirstEntry(item, heap);
    s := ParseMember(item, child, cur, heap);
    if s == Done { OneMember(item, child, MemberAt(cur.text, old(cur.pos)).value); }
  }

  /** One more member at the end of the chain. */
  method NextMember(item: Node, last: Node, cur: Cursor, heap: Heap, ghost ms: seq<Member>)
    returns (s: Status, child: Node)
    requires item.repr <= heap.live
    requires cur.Valid() && BuildingObject(item, last, ms)
    modifies item`kids, item`repr, last`next, cur, heap
    ensures fresh(item.repr - old(item.repr)) && fresh(child)
    ensures s != Wild ==> heap.live == old(heap.live) + item.repr && old(item.repr) <= item.repr
    ensures var o := MemberAt(cur.text, old(cur.pos));
            match o
            case Parsed(_, e) => s == Done && cur.Valid() && cur.pos == e && BuildingObject(item, child, ms + [o.value])
            case Rejected(e) => s == Failed && cur.Valid() && cur.pos == e && item.Valid()
            case Undefined => s == Wild
    decreases |cur.text| - cur.pos, 6
  {
    hide MemberAt, AllValid, Separate, Union, Linked, ShowMembers, BuildingObject, Node.Valid, Node.Shows;
    ghost var kids, was := item.kids, item.repr;
    UnfoldObject(item, last, ms);
    child := NextEntry(item, last, heap);
    s := ParseMember(item, child, cur, heap);
    if s == Done { GrowObject(item, kids, was, ms, child, MemberAt(cur.text, old(cur.pos)).value); }
  }

  lemma UnfoldObject(item: Node, last: Node, ms: seq<Member>)
    requires BuildingObject(item, last, ms)
    ensures item.Valid() && !item.isReference && item.kids != [] && last == item.kids[|item.kids| - 1]
    ensures item in item.repr && Separate(item.kids) && AllValid(item.kids, item.repr - {item})
    ensures ShowMembers(item.kids, ms, item.repr - {item}) && item.kind == ObjectNode
  {
    hide AllValid, Separate, Union, Linked, ShowMembers, Node.Valid;
    Unfold(item);
  }

  lemma GrowObject(item: Node, kids: seq<Node>, was: set<Node>, ms: seq<Member>, child: Node, m: Member)
    requires Separate(kids) && AllValid(kids, was - {item}) && ShowMembers(kids, ms, was - {item})
    requires child.Valid() && child.name == Some(m.name) && child.Shows(m.value)
    requires child.repr !! was && item in was
    requires item.Valid() && !item.isReference && item.kind == ObjectNode
    requires item.kids == kids + [child] && item.repr == was + {child} + child.repr
    ensures BuildingObject(item, child, ms + [m])
  {
    hide AllValid, Separate, Union, Linked, ShowMembers, Node.Valid, Node.Shows;
    Unfold(child);
    AppendMembers(kids, ms, was - {item}, child, m);
    assert item.repr - {item} == was - {item} + child.repr;
  }

  /** The members of a non-empty object, through its closing brace. */
  method ParseMembers(item: Node, cur: Cursor, heap: Heap) returns (s: Status)
    requires item.repr <= heap.live
    requires cur.Valid() && item.Blank() && item.kind == ObjectNode
    modifies item`child, item`kids, item`repr, cur, heap
    ensures fresh(item.repr - {item})
    ensures s != Wild ==> heap.live == old(heap.live) + item.repr
    ensures Ends(MembersAt(cur.text, old(cur.pos), []), s, cur, item)
    decreases |cur.text| - cur.pos, 7
  {
    hide MemberAt, MembersAt, MembersAfter, AfterEntry, Closing, Skip, BuildingObject, Node.Valid, Node.Shows;
    ghost var text, start := cur.text, cur.pos;
    MembersEntry(text, start, []);
    var child;
    s, child := FirstMember(item, cur, heap);
    if s != Done { return; }
    ghost var ms := [MemberAt(text, start).value];
    assert [] + [ms[0]] == ms;
    MembersSkip(text, cur.pos, ms);
    cur.SkipSpace();
    while cur.text[cur.pos] == ','
      invariant cur.Valid() && !IsSpace(text[cur.pos]) && cur.pos > start
      invariant BuildingObject(item, child, ms) && fresh(item.repr - {item}) && fresh(child)
      invariant heap.live == old(heap.live) + item.repr
      invariant MembersAt(text, start, []) == MembersAfter(text, cur.pos, ms)
      decreases |text| - cur.pos
    {
      ghost var comma := cur.pos;
      var more := NextOrClose(cur, '}');
      ghost var at := cur.pos;
      MembersGoOn(text, comma, at, ms);
      if !more { break; }
      MembersEntry(text, at, ms);
      s, child := NextMember(item, child, cur, heap, ms);
      if s != Done { return; }
      ms := ms + [MemberAt(text, at).value];
      MembersSkip(text, cur.pos, ms);
      cur.SkipSpace();
    }
    MembersEnd(text, cur.pos, ms);
    assert MembersClosed(text, start, cur.pos, ms);
    s := CloseObject(item, child, cur, start, ms);
  }

  /** The closing brace, or a failure where it is missing. */
  method CloseObject(item: Node, last: Node, cur: Cursor, ghost start: nat, ghost ms: seq<Member>) returns (s: Status)
    requires cur.Valid() && BuildingObject(item, last, ms)
    requires start < |cur.text| && MembersClosed(cur.text, start, cur.pos, ms)
    modifies cur
    ensures s != Wild && Ends(MembersAt(cur.text, start, []), s, cur, item)
  {
    hide MembersAt, Node.Valid, Node.Shows, BuildingObject;
    FoldObject(item, last, ms);
    if cur.text[cur.pos] != '}' { return Failed; }
    cur.pos := cur.pos + 1;
    return Done;
  }

  lemma OneMember(item: Node, child: Node, m: Member)
    requires item.Valid() && !item.isReference && item.kids == [child]
    requires child.Valid() && child.name == Some(m.name) && child.Shows(m.value)
    ensures Separate(item.kids) && AllValid(item.kids, item.repr - {item})
    ensures ShowMembers(item.kids, [m], item.repr - {item})
  {
  }

  lemma FoldObject(item: Node, last: Node, ms: seq<Member>)
    requires BuildingObject(item, last, ms)
    ensures item.Valid() && item.Shows(Object(ms))
  {
  }

  /** parse_object */
  method ParseObject(item: Node, cur: Cursor, heap: Heap) returns (s: Status)
    requires item.repr <= heap.live
    requires cur.Valid() && item.Blank() && cur.text[cur.pos] == '{'
    modifies item`child, item`kids, item`repr, item`kind, item`valuestring, item`mantissa, item`exponent, cur, heap
    ensures fresh(item.repr - {item})
    ensures s != Wild ==> heap.live == old(heap.live) + item.repr
    ensures Ends(StructureAt(cur.text, old(cur.pos)), s, cur, item)
    decreases |cur.text| - cur.pos, 1
  {
    hide StructureAt, Skip, ItemsAt, MembersAt, Node.Valid, Node.Shows;
    OpenObject(cur.text, cur.pos);
    item.kind := ObjectNode;
    cur.pos := cur.pos + 1;
    cur.SkipSpace();
    if cur.text[cur.pos] == '}' {
      cur.pos := cur.pos + 1;
      LeafShows(item);
      return Done;
    }
    s := ParseMembers(item, cur, heap);
  }

  /**
   * cJSON_Parse_Stream: a new root that shows the value and owns every node made, and where the reading ended.
   * After a failure no node made is left.
   */
  method ParseStreamInto(text: string, heap: Heap) returns (s: Status, root: Node?, end: nat)
    requires Terminated(text)
    modifies heap
    ensures match ParseStream(text)
            case Parsed(v, e) =>
              s == Done && end == e && root != null && root.Valid() && root.Shows(v) && fresh(root.repr)
              && heap.live == old(heap.live) + root.repr && root.next == null
            case Rejected(e) => s == Failed && end == e && root == null && heap.live == old(heap.live)
            case Undefined => s == Wild
  {
    hide ValueAt, Node.Valid, Node.Shows, Linked, Separate, AllValid, Union, Runs;
    var c := new Node(heap);
    var cur := new Cursor(text);
    cur.SkipSpace();
    s := ParseValue(c, cur, heap);
    end, root := cur.pos, c;
    if s != Wild { Unfold(c); }
    if s == Failed {
      OneAlone(c);
      Delete(c, heap, [c], c.repr);
      root := null;
    }
  }
}
