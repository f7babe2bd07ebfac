/**
 * One line of the group file, split in place: the names end where their separators were, and a table of pointers
 * to the members is packed behind them into the same buffer.
 */
module GroupEntry {
  import opened Json
  import opened CMemory
  import opened Sequences

  datatype Group = Group(name: string, passwd: string, gid: nat, members: seq<string>)

  /** What the parser leaves in the caller's struct: offsets into the line buffer, and the gid. */
  datatype Record = Record(name: nat, passwd: nat, gid: nat, mem: nat)

  // ---------------------------------------------------------------- what a line means

  /** The comma-separated names from q on; there is at least one, maybe empty. */
  function Names(line: string, q: nat): (names: seq<string>)
    requires q <= |line|
    ensures |names| >= 1
    decreases |line| - q
  {
    var c := Find(line, q, ',');
    [line[q..c]] + if c == |line| then [] else Names(line, c + 1)
  }

  predicate IsName(s: string) {
    s != "" && !IsSpace(s[0])
  }

  predicate AllNames(names: seq<string>) {
    forall s :: s in names ==> IsName(s)
  }

  /** The first place after p whose address is a multiple of the pointer size. */
  function AlignAfter(base: nat, p: nat): (t: nat)
    ensures p < t <= p + ADDRESS_SIZE && (base + t) % ADDRESS_SIZE == 0
  {
    p + ADDRESS_SIZE - (base + p) % ADDRESS_SIZE
  }

  /** The group a line describes, if it has all its separators, a number, proper names and a table that fits. */
  function GroupOf(line: string, base: nat, size: nat): Option<Group> {
    var n1 := Find(line, 0, ':');
    if n1 == |line| then None else
    var n2 := Find(line, n1 + 1, ':');
    if n2 == |line| then None else
    var (v, e) := StrToUl(line, n2 + 1);
    if e == n2 + 1 || e == |line| || line[e] != ':' then None
    else WithMembers(line, base, size, n1, n2, v, e)
  }

  /** The names behind the separator at e. */
  function NamesAfter(line: string, e: nat): seq<string>
    requires e < |line|
  {
    if e + 1 == |line| then [] else Names(line, e + 1)
  }

  /** The place of their table. */
  function TableAt(line: string, base: nat, e: nat, names: seq<string>): nat {
    AlignAfter(base, if names == [] then e else |line|)
  }

  /** The group, once its first two fields are known to end at n1 and n2, and its number v at e. */
  function WithMembers(line: string, base: nat, size: nat, n1: nat, n2: nat, v: nat, e: nat): Option<Group>
    requires n1 < n2 < e < |line|
  {
    var names := NamesAfter(line, e);
    if AllNames(names) && TableAt(line, base, e, names) + ADDRESS_SIZE * (|names| + 1) <= size then
      Some(Group(line[..n1], line[n1 + 1..n2], ToId(v), names))
    else None
  }

  /** At t stand the addresses of the names, in order, and a null; every name ends before t. */
  ghost predicate IsTable(mem: string, base: nat, t: nat, names: seq<string>) {
    && t + ADDRESS_SIZE * (|names| + 1) <= |mem| && (base + t) % ADDRESS_SIZE == 0
    && Pointer(mem, t + ADDRESS_SIZE * |names|) == 0
    && forall j :: 0 <= j < |names| ==> PointsAt(mem, base, t, j, names[j])
  }

  ghost predicate PointsAt(mem: string, base: nat, t: nat, j: nat, name: string)
    requires t + ADDRESS_SIZE * (j + 1) <= |mem|
  {
    var a := Pointer(mem, t + ADDRESS_SIZE * j);
    base <= a && HasEnd(mem, a - base) && CStr(mem, a - base) == name && a - base + |name| < t
  }

  /** The record stands for g. */
  ghost predicate Describes(mem: string, base: nat, r: Record, g: Group) {
    && HasEnd(mem, r.name) && CStr(mem, r.name) == g.name
    && HasEnd(mem, r.passwd) && CStr(mem, r.passwd) == g.passwd
    && r.gid == g.gid
    && IsTable(mem, base, r.mem, g.members)
  }

  // ---------------------------------------------------------------- where names start

  function Starts(line: string, q: nat): (s: seq<nat>)
    requires q <= |line|
    ensures |s| >= 1 && s[0] == q
    decreases |line| - q
  {
    var c := Find(line, q, ',');
    [q] + if c == |line| then [] else Starts(line, c + 1)
  }

  lemma StartsUnfold(line: string, q: nat)
    requires q <= |line|
    ensures var c := Find(line, q, ',');
            && Starts(line, q) == [q] + (if c == |line| then [] else Starts(line, c + 1))
            && Names(line, q) == [line[q..c]] + (if c == |line| then [] else Names(line, c + 1))
  {
    hide Find;
  }

  lemma {:induction false} StartsNames(line: string, q: nat, j: nat)
    requires q <= |line| && j < |Starts(line, q)|
    ensures |Names(line, q)| == |Starts(line, q)|
    ensures q <= Starts(line, q)[j] <= |line|
    ensures var s := Starts(line, q)[j];
            && Names(line, q)[j] == line[s..Find(line, s, ',')]
            && (if j + 1 < |Starts(line, q)| then Find(line, s, ',') < |line| && Starts(line, q)[j + 1] == Find(line, s, ',') + 1
                else Find(line, s, ',') == |line|)
    decreases |line| - q
  {
    hide *;
    StartsUnfold(line, q);
    var c := Find(line, q, ',');
    if c < |line| {
      StartsNames(line, c + 1, if j == 0 then 0 else j - 1);
    }
  }

  /** The names after the one that position p is in. */
  function Later(line: string, p: nat): seq<string>
    requires p <= |line|
  {
    var c := Find(line, p, ',');
    if c == |line| then [] else Names(line, c + 1)
  }

  lemma FindStep(s: string, p: nat, c: char)
    requires p < |s|
    ensures Find(s, p, c) == if s[p] == c then p else Find(s, p + 1, c)
  {
  }

  lemma LaterStep(line: string, p: nat)
    requires p < |line|
    ensures line[p] != ',' ==> Later(line, p) == Later(line, p + 1)
    ensures line[p] == ',' ==> Later(line, p) == Names(line, p + 1)
  {
    hide Find, Names;
    FindStep(line, p, ',');
  }

  /** A name from q on and those after it. */
  lemma NamesUnfold(line: string, q: nat)
    requires q <= |line|
    ensures Names(line, q) == [line[q..Find(line, q, ',')]] + Later(line, q)
    ensures IsName(line[q..Find(line, q, ',')]) <==> q < |line| && line[q] != ',' && !IsSpace(line[q])
  {
  }

  /** What the counting loop looks at when it steps over a comma. */
  lemma OverComma(line: string, p: nat)
    requires p < |line| && line[p] == ','
    ensures var q := p + 1;
            && |Later(line, p)| == 1 + |Later(line, q)|
            && (AllNames(Later(line, p)) <==> q < |line| && line[q] != ',' && !IsSpace(line[q]) && AllNames(Later(line, q)))
  {
    hide Names, Later, Find, AllNames, IsName;
    LaterStep(line, p);
    NamesUnfold(line, p + 1);
    AllNamesUnfold(line[p + 1..Find(line, p + 1, ',')], Later(line, p + 1));
  }

  lemma NoneLater(line: string)
    ensures Later(line, |line|) == [] && AllNames([])
  {
  }

  lemma AllNamesUnfold(name: string, names: seq<string>)
    ensures AllNames([name] + names) <==> IsName(name) && AllNames(names)
  {
    if AllNames([name] + names) {
      forall s | s in names ensures IsName(s) { assert s in [name] + names; }
      assert name in [name] + names;
    }
  }

  /** The memory after the commas from e up to p have become terminators. */
  predicate Split(mem: string, line: string, e: nat, p: nat) {
    && |line| < |mem| && mem[|line|] == NUL && e <= p <= |line|
    && forall i :: e <= i < |line| ==> mem[i] == if i < p && line[i] == ',' then NUL else line[i]
  }

  /**
   * The counting loop, from the separator at e on: every comma becomes a terminator.
   * It stops with `ok` false at the first name that is empty or starts with a space.
   */
  method SplitMembers(buf: array<char>, e: nat, ghost line: string) returns (ok: bool, i: nat, p: nat)
    requires e + 1 < |line| < buf.Length && NUL !in line && line[e] == ','
    requires Split(buf[..], line, e, e)
    modifies buf
    ensures forall j :: 0 <= j < buf.Length && !(e <= j < |line|) ==> buf[j] == old(buf[j])
    ensures ok <==> AllNames(Names(line, e + 1))
    ensures ok ==> i == 1 + |Names(line, e + 1)| && p == |line| && Split(buf[..], line, e, p)
  {
    hide Names, Later, Find, AllNames;
    i, p := 1, e;
    LaterStep(line, e);
    NoneLater(line);
    while true
      invariant e <= p < |line| && Split(buf[..], line, e, p)
      invariant forall j :: 0 <= j < buf.Length && !(e <= j < |line|) ==> buf[j] == old(buf[j])
      invariant |Later(line, p)| + i == 1 + |Names(line, e + 1)|
      invariant AllNames(Later(line, p)) <==> AllNames(Names(line, e + 1))
      decreases |line| - p
    {
      if buf[p] == ',' {
        i := i + 1;
        buf[p] := NUL;
        p := p + 1;
        OverComma(line, p - 1);
        if buf[p] == NUL || buf[p] == ',' || IsSpace(buf[p]) {
          return false, i, p;
        }
      }
      LaterStep(line, p);
      p := p + 1;
      if buf[p] == NUL { break; }
    }
    ok := true;
  }

  /** In the split memory the name that starts at s is a C string. */
  lemma NameIsThere(mem: string, line: string, e: nat, s: nat)
    requires Split(mem, line, e, |line|) && NUL !in line && e < s <= |line|
    ensures HasEnd(mem, s) && StrLen(mem, s) == Find(line, s, ',') - s && CStr(mem, s) == line[s..Find(line, s, ',')]
  {
    var c := Find(line, s, ',');
    StrLenIs(mem, s, c);
    assert mem[s..c] == line[s..c];
  }

  lemma PointerKept(m: string, c: string, p: nat)
    requires p + ADDRESS_SIZE <= |m| == |c| && forall i :: p <= i < p + ADDRESS_SIZE ==> m[i] == c[i]
    ensures Pointer(m, p) == Pointer(c, p)
  {
    LoadSame(m, c, p, ADDRESS_SIZE);
  }

  /** The pointers stored so far. */
  ghost predicate Filled(mem: string, base: nat, t: nat, starts: seq<nat>, k: nat) {
    && k <= |starts| && t + ADDRESS_SIZE * k <= |mem|
    && forall j :: 0 <= j < k ==> t + ADDRESS_SIZE * j + ADDRESS_SIZE <= |mem| && Pointer(mem, t + ADDRESS_SIZE * j) == base + starts[j]
  }

  lemma FilledKept(m: string, c: string, base: nat, t: nat, starts: seq<nat>, k: nat)
    requires Filled(m, base, t, starts, k) && |m| == |c|
    requires forall i :: t <= i < t + ADDRESS_SIZE * k ==> m[i] == c[i]
    ensures Filled(c, base, t, starts, k)
  {
    hide Pointer;
    forall j | 0 <= j < k
      ensures t + ADDRESS_SIZE * j + ADDRESS_SIZE <= |c| && Pointer(c, t + ADDRESS_SIZE * j) == base + starts[j]
    {
      PointerKept(m, c, t + ADDRESS_SIZE * j);
    }
  }

  method StorePointer(buf: array<char>, base: nat, t: nat, k: nat, p: nat, ghost starts: seq<nat>)
    requires k < |starts| && starts[k] == p && t + ADDRESS_SIZE * (k + 1) <= buf.Length && IsAddress(base + p)
    requires Filled(buf[..], base, t, starts, k)
    modifies buf
    ensures Filled(buf[..], base, t, starts, k + 1) && buf[..t] == old(buf[..t])
  {
    hide Filled, Pointer, IsAddress;
    ghost var was := buf[..];
    Store(buf, t + ADDRESS_SIZE * k, base + p);
    FilledKept(was, buf[..], base, t, starts, k);
    OneFilled(buf[..], base, t, starts, k);
  }

  lemma OneFilled(mem: string, base: nat, t: nat, starts: seq<nat>, k: nat)
    requires Filled(mem, base, t, starts, k) && k < |starts| && t + ADDRESS_SIZE * (k + 1) <= |mem|
    requires Pointer(mem, t + ADDRESS_SIZE * k) == base + starts[k]
    ensures Filled(mem, base, t, starts, k + 1)
  {
    hide Pointer;
  }

  /** The loop that walks over the names, strlen by strlen, and the null at the end. */
  method FillTable(buf: array<char>, base: nat, e: nat, t: nat, n: nat, ghost line: string)
    requires e + 1 < |line| < t && NUL !in line && IsAddress(base + buf.Length)
    requires Split(buf[..], line, e, |line|) && AllNames(Names(line, e + 1)) && n == |Names(line, e + 1)|
    requires t + ADDRESS_SIZE * (n + 1) <= buf.Length
    modifies buf
    ensures buf[..t] == old(buf[..t])
    ensures |Starts(line, e + 1)| == n && Filled(buf[..], base, t, Starts(line, e + 1), n)
    ensures Pointer(buf[..], t + ADDRESS_SIZE * n) == 0
  {
    hide Names, Starts, Find, StrLen, HasEnd, Filled, Split, AllNames;
    ghost var starts := Starts(line, e + 1);
    ghost var mem := buf[..];
    StartsNames(line, e + 1, 0);
    NoneFilled(mem, base, t, starts);
    var k: nat, p := 0, e;
    while true
      invariant 0 <= k < n == |starts| && p + 1 == starts[k] && p < |line|
      invariant Filled(buf[..], base, t, starts, k) && buf[..t] == mem[..t]
      decreases n - k
    {
      p := p + 1;
      StorePointer(buf, base, t, k, p, starts);
      NextStart(line, mem, e, k);
      k := k + 1;
      if k == n { break; }
      p := WalkName(buf, p, t, mem);
    }
    EndTable(buf, base, t, n, starts);
  }

  /** The null pointer behind the last name. */
  method EndTable(buf: array<char>, base: nat, t: nat, n: nat, ghost starts: seq<nat>)
    requires n <= |starts| && t + ADDRESS_SIZE * (n + 1) <= buf.Length && Filled(buf[..], base, t, starts, n)
    modifies buf
    ensures Filled(buf[..], base, t, starts, n) && Pointer(buf[..], t + ADDRESS_SIZE * n) == 0 && buf[..t] == old(buf[..t])
  {
    hide Filled, Pointer;
    ghost var full := buf[..];
    Store(buf, t + ADDRESS_SIZE * n, 0);
    FilledKept(full, buf[..], base, t, starts, n);
  }

  lemma NoneFilled(mem: string, base: nat, t: nat, starts: seq<nat>)
    requires t <= |mem|
    ensures Filled(mem, base, t, starts, 0)
  {
  }

  lemma NextStart(line: string, mem: string, e: nat, k: nat)
    requires e + 1 <= |line| && k < |Starts(line, e + 1)| && NUL !in line
    requires Split(mem, line, e, |line|) && AllNames(Names(line, e + 1))
    ensures var p := Starts(line, e + 1)[k];
            && p < |line| && HasEnd(mem, p) && StrLen(mem, p) > 0 && p + StrLen(mem, p) <= |line|
            && (k + 1 < |Starts(line, e + 1)| ==> Starts(line, e + 1)[k + 1] == p + StrLen(mem, p) + 1 && p + StrLen(mem, p) < |line|)
  {
    hide Names, Starts, Find, StrLen, HasEnd, Split;
    var p := Starts(line, e + 1)[k];
    StartsNames(line, e + 1, k);
    NameIsThere(mem, line, e, p);
    assert Names(line, e + 1)[k] in Names(line, e + 1);
  }

  /** `while (*++p)` */
  method WalkName(buf: array<char>, p: nat, t: nat, ghost mem: string) returns (q: nat)
    requires HasEnd(mem, p) && StrLen(mem, p) > 0 && p + StrLen(mem, p) < t <= |mem| == buf.Length && buf[..t] == mem[..t]
    ensures q == p + StrLen(mem, p)
  {
    forall i | 0 <= i < t ensures buf[i] == mem[i] { assert buf[..t][i] == mem[..t][i]; }
    q := p + 1;
    while buf[q] != NUL
      invariant p < q <= p + StrLen(mem, p)
      decreases t - q
    {
      q := q + 1;
    }
  }

  /** A filled table over split memory is the table of the line's names. */
  lemma FilledIsTable(mem: string, base: nat, e: nat, t: nat, line: string)
    requires e + 1 < |line| < t && NUL !in line && Split(mem, line, e, |line|) && (base + t) % ADDRESS_SIZE == 0
    requires t + ADDRESS_SIZE * (|Names(line, e + 1)| + 1) <= |mem| && |Names(line, e + 1)| == |Starts(line, e + 1)|
    requires Filled(mem, base, t, Starts(line, e + 1), |Names(line, e + 1)|)
    requires Pointer(mem, t + ADDRESS_SIZE * |Names(line, e + 1)|) == 0
    ensures IsTable(mem, base, t, Names(line, e + 1))
  {
    var names, starts := Names(line, e + 1), Starts(line, e + 1);
    hide *;
    forall j | 0 <= j < |names| ensures t + ADDRESS_SIZE * (j + 1) <= |mem| && PointsAt(mem, base, t, j, names[j]) {
      NamePointed(mem, base, e, t, line, j);
    }
    IsTableIs(mem, base, t, names);
  }

  lemma NamePointed(mem: string, base: nat, e: nat, t: nat, line: string, j: nat)
    requires e + 1 < |line| < t && NUL !in line && Split(mem, line, e, |line|) && j < |Names(line, e + 1)| == |Starts(line, e + 1)|
    requires Filled(mem, base, t, Starts(line, e + 1), |Names(line, e + 1)|)
    ensures t + ADDRESS_SIZE * (j + 1) <= |mem| && PointsAt(mem, base, t, j, Names(line, e + 1)[j])
  {
    hide *;
    var starts := Starts(line, e + 1);
    FilledAt(mem, base, t, starts, |starts|, j);
    StartsNames(line, e + 1, j);
    NameIsThere(mem, line, e, starts[j]);
    PointsAtIs(mem, base, t, j, Names(line, e + 1)[j], starts[j]);
  }

  lemma IsTableIs(mem: string, base: nat, t: nat, names: seq<string>)
    requires t + ADDRESS_SIZE * (|names| + 1) <= |mem| && (base + t) % ADDRESS_SIZE == 0
    requires Pointer(mem, t + ADDRESS_SIZE * |names|) == 0
    requires forall j :: 0 <= j < |names| ==> t + ADDRESS_SIZE * (j + 1) <= |mem| && PointsAt(mem, base, t, j, names[j])
    ensures IsTable(mem, base, t, names)
  {
    hide PointsAt, Pointer;
  }

  lemma FilledAt(mem: string, base: nat, t: nat, starts: seq<nat>, k: nat, j: nat)
    requires Filled(mem, base, t, starts, k) && j < k
    ensures t + ADDRESS_SIZE * j + ADDRESS_SIZE <= |mem| && Pointer(mem, t + ADDRESS_SIZE * j) == base + starts[j]
  {
  }

  lemma PointsAtIs(mem: string, base: nat, t: nat, j: nat, name: string, s: nat)
    requires t + ADDRESS_SIZE * (j + 1) <= |mem| && Pointer(mem, t + ADDRESS_SIZE * j) == base + s
    requires HasEnd(mem, s) && CStr(mem, s) == name && s + |name| < t
    ensures PointsAt(mem, base, t, j, name)
  {
  }

  // ---------------------------------------------------------------- the parser

  lemma SuffixFind(a: string, b: string, q: nat)
    requires q <= |a| == |b| && forall i :: q <= i < |a| ==> a[i] == b[i]
    ensures var c := Find(a, q, ','); Find(b, q, ',') == c && a[q..c] == b[q..c]
  {
    FindIs(b, q, ',', Find(a, q, ','));
  }

  lemma {:induction false} NamesSuffix(a: string, b: string, q: nat)
    requires q <= |a| == |b| && forall i :: q <= i < |a| ==> a[i] == b[i]
    ensures Names(a, q) == Names(b, q)
    decreases |a| - q
  {
    hide *;
    StartsUnfold(a, q);
    StartsUnfold(b, q);
    SuffixFind(a, b, q);
    var c := Find(a, q, ',');
    if c < |a| { NamesSuffix(a, b, c + 1); }
  }

  /** No byte behind the last colon: the table is its terminator alone. */
  method NoMembers(buf: array<char>, base: nat, e: nat, ghost line: string) returns (r: Option<nat>)
    requires HoldsFrom(buf, e, line) && e + 1 == |line| && line[e] == ':' && IsAddress(base + buf.Length)
    modifies buf
    ensures buf[..e] == old(buf[..e])
    ensures NamesAfter(line, e) == []
    ensures var t := TableAt(line, base, e, []);
            if t + ADDRESS_SIZE <= buf.Length then r == Some(t) && e < t && IsTable(buf[..], base, t, []) else r == None
  {
    hide Names, Pointer;
    var t := AlignAfter(base, e);
    if t + ADDRESS_SIZE > buf.Length { return None; }
    Store(buf, t, 0);
    return Some(t);
  }

  /** The member list from the separator at e on, and its table: the place of the table, if there is room for it. */
  method ParseMembers(buf: array<char>, base: nat, e: nat, ghost line: string) returns (r: Option<nat>)
    requires HoldsFrom(buf, e, line) && e < |line| && line[e] == ':' && IsAddress(base + buf.Length)
    modifies buf
    ensures buf[..e] == old(buf[..e])
    ensures var names := NamesAfter(line, e);
            var t := TableAt(line, base, e, names);
            if AllNames(names) && t + ADDRESS_SIZE * (|names| + 1) <= buf.Length then
              r == Some(t) && e < t && IsTable(buf[..], base, t, names)
            else r == None
  {
    hide Names, Starts, Find, Filled, Pointer;
    if buf[e + 1] == NUL {
      r := NoMembers(buf, base, e, line);
      return;
    }
    buf[e] := ',';
    ghost var comma := line[e := ','];
    NamesSuffix(line, comma, e + 1);
    var ok, i, p := SplitMembers(buf, e, comma);
    if !ok { return None; }
    var t := AlignAfter(base, p);
    if t + ADDRESS_SIZE * i > buf.Length { return None; }
    ghost var mem := buf[..];
    FillTable(buf, base, e, t, i - 1, comma);
    SplitKept(mem, buf[..], comma, e, t);
    FilledIsTable(buf[..], base, e, t, comma);
    assert buf[..e] == buf[..t][..e] == mem[..t][..e];
    r := Some(t);
  }

  lemma SplitKept(m: string, c: string, line: string, e: nat, t: nat)
    requires Split(m, line, e, |line|) && |line| < t <= |m| == |c| && m[..t] == c[..t]
    ensures Split(c, line, e, |line|)
  {
    forall i | 0 <= i < t ensures m[i] == c[i] { assert m[..t][i] == c[..t][i]; }
  }

  /** The last field, when the others are in place. */
  method WithTable(buf: array<char>, base: nat, n1: nat, n2: nat, v: nat, e: nat, ghost line: string) returns (r: Option<Record>)
    requires HoldsFrom(buf, e, line) && n1 < n2 < e < |line| && line[e] == ':' && IsAddress(base + buf.Length)
    requires buf[n1] == NUL && buf[n2] == NUL
    requires (forall i :: 0 <= i < n1 ==> buf[i] == line[i]) && (forall i :: n1 + 1 <= i < n2 ==> buf[i] == line[i])
    modifies buf
    ensures r.Some? <==> WithMembers(line, base, buf.Length, n1, n2, v, e).Some?
    ensures r.Some? ==> Describes(buf[..], base, r.value, WithMembers(line, base, buf.Length, n1, n2, v, e).value)
  {
    hide NamesAfter, TableAt, AllNames, IsTable, IsAddress, WithMembers, Describes;
    ghost var mem := buf[..];
    MembersDecide(line, base, buf.Length, n1, n2, v, e);
    var t := ParseMembers(buf, base, e, line);
    if t == None { return None; }
    FieldsKept(mem, buf[..], line, n1, n2, e);
    RecordDescribes(buf[..], base, line, n1, n2, v, t.value, NamesAfter(line, e));
    r := Some(Record(0, n1 + 1, ToId(v), t.value));
  }

  /** bb__parsegrent */
  method ParseGrent(buf: array<char>, base: nat, ghost line: string) returns (r: Option<Record>)
    requires HoldsFrom(buf, 0, line) && IsAddress(base + buf.Length)
    modifies buf
    ensures r.Some? <==> GroupOf(line, base, buf.Length).Some?
    ensures r.Some? ==> Describes(buf[..], base, r.value, GroupOf(line, base, buf.Length).value)
  {
    hide StrToUl, Find, IsAddress, WithMembers, Describes;
    var n1 := StrChr(buf, 0, ':', line);
    if buf[n1] == NUL { return None; }
    buf[n1] := NUL;
    var n2 := StrChr(buf, n1 + 1, ':', line);
    if buf[n2] == NUL { return None; }
    buf[n2] := NUL;
    var v, e := ReadUl(buf, n2 + 1, line);
    if e == n2 + 1 || buf[e] != ':' { return None; }
    r := WithTable(buf, base, n1, n2, v, e, line);
  }

  lemma MembersDecide(line: string, base: nat, size: nat, n1: nat, n2: nat, v: nat, e: nat)
    requires n1 < n2 < e < |line|
    ensures var names := NamesAfter(line, e);
            WithMembers(line, base, size, n1, n2, v, e) ==
              if AllNames(names) && TableAt(line, base, e, names) + ADDRESS_SIZE * (|names| + 1) <= size then
                Some(Group(line[..n1], line[n1 + 1..n2], ToId(v), names))
              else None
  {
  }

  lemma RecordDescribes(mem: string, base: nat, line: string, n1: nat, n2: nat, v: nat, t: nat, names: seq<string>)
    requires n1 < n2 <= |line| && HasEnd(mem, 0) && CStr(mem, 0) == line[0..n1]
    requires HasEnd(mem, n1 + 1) && CStr(mem, n1 + 1) == line[n1 + 1..n2] && IsTable(mem, base, t, names)
    ensures Describes(mem, base, Record(0, n1 + 1, ToId(v), t), Group(line[..n1], line[n1 + 1..n2], ToId(v), names))
  {
    hide HasEnd, CStr, IsTable;
    assert line[0..n1] == line[..n1];
  }

  lemma FieldsKept(m: string, c: string, line: string, n1: nat, n2: nat, e: nat)
    requires n1 < n2 < e <= |m| == |c| && n2 <= |line| && m[..e] == c[..e] && NUL !in line && m[n1] == NUL && m[n2] == NUL
    requires (forall i :: 0 <= i < n1 ==> m[i] == line[i]) && (forall i :: n1 + 1 <= i < n2 ==> m[i] == line[i])
    ensures HasEnd(c, 0) && CStr(c, 0) == line[0..n1] && HasEnd(c, n1 + 1) && CStr(c, n1 + 1) == line[n1 + 1..n2]
  {
    hide HasEnd, CStr;
    FieldKept(m, c, line, 0, n1, e);
    FieldKept(m, c, line, n1 + 1, n2, e);
  }

  /** A field that ends before e is still there after the members have been split off. */
  lemma FieldKept(m: string, c: string, line: string, p: nat, q: nat, e: nat)
    requires p <= q < e <= |m| == |c| && q <= |line| && m[..e] == c[..e] && NUL !in line
    requires m[q] == NUL && forall i :: p <= i < q ==> m[i] == line[i]
    ensures HasEnd(c, p) && CStr(c, p) == line[p..q]
  {
    forall i | 0 <= i < e ensures c[i] == m[i] { assert m[..e][i] == c[..e][i]; }
    StrLenIs(c, p, q);
    assert c[p..q] == line[p..q];
  }

  // ---------------------------------------------------------------- lines as they are written

  function Join(names: seq<string>): string
    requires names != []
  {
    if |names| == 1 then names[0] else names[0] + "," + Join(names[1..])
  }

  function LineOf(g: Group): string {
    g.name + ":" + g.passwd + ":" + Decimal(g.gid) + ":" + if g.members == [] then "" else Join(g.members)
  }

  lemma JoinIs(names: seq<string>)
    requires names != []
    ensures Join(names) == names[0] + if |names| == 1 then "" else "," + Join(names[1..])
  {
    if |names| == 1 { assert names[0] + "" == names[0]; } else { Regroup(names[0], ",", Join(names[1..])); }
  }

  lemma FirstOfJoin(before: string, names: seq<string>)
    requires names != [] && ',' !in names[0]
    ensures var line, c := before + Join(names), |before| + |names[0]|;
            && c <= |line| && Find(line, |before|, ',') == c && line[|before|..c] == names[0]
            && (c == |line| <==> |names| == 1)
            && (|names| > 1 ==> line == before + names[0] + "," + Join(names[1..]))
  {
    hide *;
    var rest := if |names| == 1 then "" else "," + Join(names[1..]);
    JoinIs(names);
    Regroup(before, names[0], rest);
    FirstPiece(before, names[0], rest);
    if |names| > 1 { Regroup(before + names[0], ",", Join(names[1..])); }
  }

  lemma FirstPiece(before: string, name: string, rest: string)
    requires ',' !in name && (rest == "" || rest[0] == ',')
    ensures var line, c := before + name + rest, |before| + |name|;
            c <= |line| && Find(line, |before|, ',') == c && line[|before|..c] == name && (c == |line| <==> rest == "")
  {
    var line, c := before + name + rest, |before| + |name|;
    assert line[|before|..c] == name;
    forall i | |before| <= i < c ensures line[i] != ',' { assert line[i] == name[i - |before|]; }
    assert rest != "" ==> line[c] == rest[0];
    FindIs(line, |before|, ',', c);
  }

  lemma {:induction false} NamesOfJoin(before: string, names: seq<string>)
    requires names != [] && forall s :: s in names ==> ',' !in s
    ensures Names(before + Join(names), |before|) == names
    decreases |names|
  {
    hide *;
    FirstOfJoin(before, names);
    StartsUnfold(before + Join(names), |before|);
    if |names| > 1 { NamesOfJoin(before + names[0] + ",", names[1..]); }
    assert names == [names[0]] + names[1..];
  }

  lemma NumberOf(line: string, p: nat, n: nat)
    requires p + |Decimal(n)| < |line| && line[p..p + |Decimal(n)|] == Decimal(n) && line[p + |Decimal(n)|] == ':'
    requires n <= ULONG_MAX
    ensures StrToUl(line, p) == (n, p + |Decimal(n)|)
  {
    hide Decimal, StrToUl;
    SpelledDecimal(n);
    StrToUlReads(line, p, p, "", Decimal(n));
  }

  /** Where the fields of a written line are. */
  lemma Layout(name: string, passwd: string, number: string, rest: string)
    ensures var line := name + ":" + passwd + ":" + number + ":" + rest;
            var n1 := |name|;
            var n2 := n1 + 1 + |passwd|;
            var e := n2 + 1 + |number|;
            && |line| == e + 1 + |rest| && line[n1] == line[n2] == line[e] == ':'
            && line[..n1] == name && line[n1 + 1..n2] == passwd && line[n2 + 1..e] == number && line == line[..e + 1] + rest
  {
  }

  lemma EndsAt(line: string, p: nat, q: nat, field: string)
    requires p <= q < |line| && line[p..q] == field && ':' !in field && line[q] == ':'
    ensures Find(line, p, ':') == q
  {
    forall i | p <= i < q ensures line[i] != ':' { assert line[i] == field[i - p]; }
    FindIs(line, p, ':', q);
  }

  /** The parser's decision on a line whose separators are known. */
  lemma Decided(line: string, base: nat, size: nat, n1: nat, n2: nat, v: nat, e: nat)
    requires n1 < n2 && n2 + 1 < e < |line| && line[e] == ':'
    requires Find(line, 0, ':') == n1 && Find(line, n1 + 1, ':') == n2 && StrToUl(line, n2 + 1) == (v, e)
    ensures GroupOf(line, base, size) == WithMembers(line, base, size, n1, n2, v, e)
  {
    hide StrToUl, WithMembers, Find;
  }

  /** The table of a written group fits into the buffer. */
  predicate TableFits(g: Group, base: nat, size: nat) {
    var last := if g.members == [] then |LineOf(g)| - 1 else |LineOf(g)|;
    AlignAfter(base, last) + ADDRESS_SIZE * (|g.members| + 1) <= size
  }

  /**
   * A group written out field by field is read back as itself exactly when its members are names and their table fits.
   * Otherwise it is refused, but for a single empty member, which is read as no members.
   */
  lemma WrittenGroup(g: Group, base: nat, size: nat)
    requires ':' !in g.name && ':' !in g.passwd && g.gid < UINT_SIZE && forall s :: s in g.members ==> ',' !in s
    ensures GroupOf(LineOf(g), base, size) == Some(g) <==> AllNames(g.members) && TableFits(g, base, size)
    ensures var r := GroupOf(LineOf(g), base, size);
            r == Some(g) || r == None || (g.members == [""] && r == Some(g.(members := [])))
  {
    hide AllNames, IsName, TableFits, GroupOf, LineOf;
    if g.members == [""] {
      var h := g.(members := []);
      SameLine(g);
      GroupRead(h, base, size);
      assert g.members[0] == "";
      EmptyIsNoName(g.members);
    } else {
      GroupRead(g, base, size);
    }
  }

  lemma SameLine(g: Group)
    requires g.members == [""]
    ensures LineOf(g) == LineOf(g.(members := []))
  {
    hide Decimal;
  }

  lemma EmptyIsNoName(names: seq<string>)
    requires "" in names
    ensures !AllNames(names)
  {
    assert !IsName("");
  }

  lemma GroupRead(g: Group, base: nat, size: nat)
    requires ':' !in g.name && ':' !in g.passwd && g.gid < UINT_SIZE && forall s :: s in g.members ==> ',' !in s
    requires g.members != [""]
    ensures GroupOf(LineOf(g), base, size) == if AllNames(g.members) && TableFits(g, base, size) then Some(g) else None
  {
    var n1 := |g.name|;
    var n2 := n1 + 1 + |g.passwd|;
    var e := n2 + 1 + |Decimal(g.gid)|;
    WrittenFields(g, n1, n2, e);
    WrittenNames(g, e);
    hide *;
    Decided(LineOf(g), base, size, n1, n2, g.gid, e);
    WrittenDecided(g, base, size, n1, n2, e);
  }

  function MembersText(g: Group): string {
    if g.members == [] then "" else Join(g.members)
  }

  /** Where the fields of a group's line are, and what the parser finds there. */
  lemma WrittenFields(g: Group, n1: nat, n2: nat, e: nat)
    requires ':' !in g.name && ':' !in g.passwd && g.gid < UINT_SIZE
    requires n1 == |g.name| && n2 == n1 + 1 + |g.passwd| && e == n2 + 1 + |Decimal(g.gid)|
    ensures var line := LineOf(g);
            && n2 + 1 < e < |line| && line[e] == ':' && line[..n1] == g.name && line[n1 + 1..n2] == g.passwd
            && Find(line, 0, ':') == n1 && Find(line, n1 + 1, ':') == n2 && StrToUl(line, n2 + 1) == (g.gid, e)
            && line == line[..e + 1] + MembersText(g)
  {
    hide Join, Decimal, Find, StrToUl;
    var line := LineOf(g);
    Layout(g.name, g.passwd, Decimal(g.gid), MembersText(g));
    assert line == g.name + ":" + g.passwd + ":" + Decimal(g.gid) + ":" + MembersText(g);
    hide LineOf, MembersText;
    EndsAt(line, 0, n1, g.name);
    EndsAt(line, n1 + 1, n2, g.passwd);
    NumberOf(line, n2 + 1, g.gid);
  }

  lemma WrittenNames(g: Group, e: nat)
    requires e < |LineOf(g)| && LineOf(g) == LineOf(g)[..e + 1] + MembersText(g)
    requires g.members != [""] && forall s :: s in g.members ==> ',' !in s
    ensures NamesAfter(LineOf(g), e) == g.members && (g.members == [] ==> e == |LineOf(g)| - 1)
  {
    hide LineOf, Names, Join;
    if g.members != [] {
      NamesOfJoin(LineOf(g)[..e + 1], g.members);
      JoinIsLong(g.members);
    }
  }

  lemma WrittenDecided(g: Group, base: nat, size: nat, n1: nat, n2: nat, e: nat)
    requires n1 < n2 < e < |LineOf(g)| && LineOf(g)[..n1] == g.name && LineOf(g)[n1 + 1..n2] == g.passwd && g.gid < UINT_SIZE
    requires NamesAfter(LineOf(g), e) == g.members && (g.members == [] ==> e == |LineOf(g)| - 1)
    ensures WithMembers(LineOf(g), base, size, n1, n2, g.gid, e) ==
              if AllNames(g.members) && TableFits(g, base, size) then Some(g) else None
  {
    hide LineOf, NamesAfter, AllNames, AlignAfter;
  }

  lemma JoinIsLong(names: seq<string>)
    requires names != [] && names != [""]
    ensures Join(names) != ""
  {
  }
}
