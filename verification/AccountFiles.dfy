/** The account files: fixed-size reads stitched into lines, entries picked from them, and lookups by name or number. */
module AccountFiles {
  import opened Json
  import opened CMemory
  import GroupEntry
  import PasswdEntry

  const PWD_BUFFER_SIZE: nat := 256

  datatype Kind = Groups | Users

  datatype Entry = Group(group: GroupEntry.Group) | User(user: PasswdEntry.Passwd)

  /** The struct a parser has filled in. */
  datatype Record = GroupRecord(group: GroupEntry.Record) | UserRecord(user: PasswdEntry.Record)

  datatype Status = Found | NoEntry | TooSmall

  // ---------------------------------------------------------------- a file as lines

  /** Where the line after the one at p starts, or the end of the file. */
  function LineEnd(text: string, p: nat): (q: nat)
    requires p < |text|
    ensures p < q <= |text|
  {
    var e := Find(text, p, '\n');
    if e == |text| then e else e + 1
  }

  function LineAt(text: string, p: nat): string
    requires p < |text|
  {
    text[p..Find(text, p, '\n')]
  }

  function EntryOf(kind: Kind, line: string, base: nat, size: nat): Option<Entry> {
    match kind
    case Groups => (match GroupEntry.GroupOf(line, base, size) case Some(g) => Some(Group(g)) case None => None)
    case Users => (match PasswdEntry.PasswdOf(line) case Some(u) => Some(User(u)) case None => None)
  }

  /** Lines that are not handed to the parser at all: too long for the buffer, empty, comments, or starting with a space. */
  predicate Skipped(line: string, size: nat) {
    |line| + 2 > size || line == "" || line[0] == '#' || IsSpace(line[0])
  }

  /** The first line from p on that is an entry, and the place after that line. */
  function Next(kind: Kind, text: string, p: nat, base: nat, size: nat): (r: Option<(Entry, nat)>)
    requires p <= |text|
    ensures r.Some? ==> p < r.value.1 <= |text|
    decreases |text| - p
  {
    if p == |text| then None else
    var line, q := LineAt(text, p), LineEnd(text, p);
    var e := if Skipped(line, size) then None else EntryOf(kind, line, base, size);
    if e.Some? then Some((e.value, q)) else Next(kind, text, q, base, size)
  }

  /** All the entries from p on, in file order. */
  function Entries(kind: Kind, text: string, p: nat, base: nat, size: nat): seq<Entry>
    requires p <= |text|
    decreases |text| - p
  {
    match Next(kind, text, p, base, size)
    case None => []
    case Some((e, q)) => [e] + Entries(kind, text, q, base, size)
  }

  ghost predicate Describes(mem: string, base: nat, r: Record, e: Entry) {
    match e
    case Group(g) => r.GroupRecord? && GroupEntry.Describes(mem, base, r.group, g)
    case User(u) => r.UserRecord? && PasswdEntry.Describes(mem, r.user, u)
  }

  // ---------------------------------------------------------------- fgets

  class Stream {
    const text: string
    var pos: nat

    constructor (text: string)
      ensures this.text == text && pos == 0
    {
      this.text, pos := text, 0;
    }

    /** Up to n - 1 bytes, no further than a newline; false at the end of the file. */
    method Gets(buf: array<char>, n: nat) returns (ok: bool)
      requires pos <= |text| && 2 <= n <= buf.Length
      modifies this, buf
      ensures pos <= |text| && (ok <==> old(pos) < |text|)
      ensures !ok ==> pos == old(pos)
      ensures ok ==> pos == (if LineEnd(text, old(pos)) < old(pos) + n then LineEnd(text, old(pos)) else old(pos) + n - 1)
      ensures ok ==> buf[pos - old(pos)] == NUL && buf[..pos - old(pos)] == text[old(pos)..pos]
    {
      var start := pos;
      if start == |text| { return false; }
      var k := 0;
      while k < n - 1 && start + k < |text| && (k == 0 || buf[k - 1] != '\n')
        invariant 0 <= k <= n - 1 && start + k <= LineEnd(text, start)
        invariant k > 0 ==> (buf[k - 1] == '\n' <==> start + k == LineEnd(text, start) && text[start + k - 1] == '\n')
        invariant forall i :: 0 <= i < k ==> buf[i] == text[start + i]
      {
        buf[k] := text[start + k];
        k := k + 1;
      }
      buf[k] := NUL;
      pos := start + k;
      ok := true;
    }
  }

  // ---------------------------------------------------------------- bb__pgsreader

  /** What one fgets has brought, and what the reader makes of it. */
  datatype Piece = Line | Overlong

  /** Drops the newline, or tells that the line goes on: the buffer is full and has none. */
  method EndPiece(buf: array<char>, ghost text: string, ghost p: nat, ghost q: nat) returns (piece: Piece)
    requires p < q <= |text| && NUL !in text && buf.Length >= 2 && q - p < buf.Length
    requires q == (if LineEnd(text, p) < p + buf.Length then LineEnd(text, p) else p + buf.Length - 1)
    requires buf[q - p] == NUL && buf[..q - p] == text[p..q]
    modifies buf
    ensures piece == Overlong <==> |LineAt(text, p)| + 2 > buf.Length
    ensures piece == Line ==> q == LineEnd(text, p) && HoldsFrom(buf, 0, LineAt(text, p))
    ensures piece == Overlong ==> (if q == |text| then |text| else LineEnd(text, q)) == LineEnd(text, p)
  {
    forall i | 0 <= i < q - p ensures buf[i] == text[p + i] { assert buf[..q - p][i] == text[p..q][i]; }
    forall i | p <= i < q ensures text[i] != NUL { assert text[i] in text; }
    ghost var e := Find(text, p, '\n');
    StrLenIs(buf[..], 0, q - p);
    var last := StrLen(buf[..], 0) - 1;
    if buf[last] == '\n' {
      assert q == e + 1;
      buf[last] := NUL;
      LineHeld(buf, text, p);
      return Line;
    }
    if last + 2 == buf.Length {
      FindIs(text, q, '\n', e);
      return Overlong;
    }
    assert q == e == |text|;
    LineHeld(buf, text, p);
    return Line;
  }

  lemma LineHeld(buf: array<char>, text: string, p: nat)
    requires p < |text| && NUL !in text && |LineAt(text, p)| < buf.Length && buf[|LineAt(text, p)|] == NUL
    requires forall i :: 0 <= i < |LineAt(text, p)| ==> buf[i] == text[p + i]
    ensures HoldsFrom(buf, 0, LineAt(text, p))
  {
    var line := LineAt(text, p);
    forall i | 0 <= i < |line| ensures line[i] == text[p + i] { }
  }

  method Parse(kind: Kind, buf: array<char>, base: nat, ghost line: string) returns (r: Option<Record>)
    requires HoldsFrom(buf, 0, line) && IsAddress(base + buf.Length)
    modifies buf
    ensures r.Some? <==> EntryOf(kind, line, base, buf.Length).Some?
    ensures r.Some? ==> Describes(buf[..], base, r.value, EntryOf(kind, line, base, buf.Length).value)
  {
    hide GroupEntry.GroupOf, PasswdEntry.PasswdOf, GroupEntry.Describes, PasswdEntry.Describes;
    match kind {
      case Groups =>
        var g := GroupEntry.ParseGrent(buf, base, line);
        r := if g.Some? then Some(GroupRecord(g.value)) else None;
      case Users =>
        var u := PasswdEntry.ParsePwent(buf, line);
        r := if u.Some? then Some(UserRecord(u.value)) else None;
    }
  }

  lemma NextStep(kind: Kind, text: string, p: nat, base: nat, size: nat)
    requires p < |text|
    ensures var line, q := LineAt(text, p), LineEnd(text, p);
            if Skipped(line, size) || EntryOf(kind, line, base, size).None? then
              Next(kind, text, p, base, size) == Next(kind, text, q, base, size)
            else Next(kind, text, p, base, size) == Some((EntryOf(kind, line, base, size).value, q))
  {
    hide EntryOf, Skipped;
  }

  /** Where the line that position p is in ends; nothing is left at the end of the file. */
  function Resume(text: string, p: nat, skip: bool): (q: nat)
    requires p <= |text|
    ensures p <= q <= |text|
  {
    if skip && p < |text| then LineEnd(text, p) else p
  }

  /**
   * bb__pgsreader: whatever the size of the reads, the next entry of the file,
   * with the stream left just after its line.
   */
  method PgsReader(kind: Kind, buf: array<char>, base: nat, f: Stream) returns (rv: Status, r: Option<Record>)
    requires f.pos <= |f.text| && NUL !in f.text && IsAddress(base + buf.Length)
    modifies f, buf
    ensures f.pos <= |f.text|
    ensures rv == TooSmall <==> buf.Length < 256
    ensures rv == TooSmall ==> f.pos == old(f.pos) && r == None
    ensures rv == NoEntry ==> Next(kind, f.text, old(f.pos), base, buf.Length) == None && f.pos == |f.text| && r == None
    ensures rv == Found ==> r.Some? && Next(kind, f.text, old(f.pos), base, buf.Length).Some?
    ensures rv == Found ==> var (e, q) := Next(kind, f.text, old(f.pos), base, buf.Length).value;
                            f.pos == q && Describes(buf[..], base, r.value, e)
  {
    hide Next, EntryOf, LineAt, LineEnd, Find, Describes, HoldsFrom;
    if buf.Length < PWD_BUFFER_SIZE { return TooSmall, None; }
    var skip := false;
    ghost var goal := Next(kind, f.text, f.pos, base, buf.Length);
    while true
      invariant f.pos <= |f.text| && Next(kind, f.text, Resume(f.text, f.pos, skip), base, buf.Length) == goal
      decreases |f.text| - f.pos
    {
      ghost var p := f.pos;
      var more := f.Gets(buf, buf.Length);
      if !more {
        NoNext(kind, f.text, base, buf.Length);
        return NoEntry, None;
      }
      var piece := EndPiece(buf, f.text, p, f.pos);
      NextStep(kind, f.text, p, base, buf.Length);
      if piece == Overlong {
        skip := true;
        continue;
      }
      if skip {
        skip := false;
        continue;
      }
      ghost var line := LineAt(f.text, p);
      FirstHeld(buf, line);
      if buf[0] != NUL && buf[0] != '#' && !IsSpace(buf[0]) {
        r := Parse(kind, buf, base, line);
        if r.Some? { return Found, r; }
      }
    }
  }

  lemma NoNext(kind: Kind, text: string, base: nat, size: nat)
    ensures Next(kind, text, |text|, base, size) == None
  {
  }

  lemma FirstHeld(buf: array<char>, line: string)
    requires HoldsFrom(buf, 0, line)
    ensures buf.Length > 0 && (buf[0] == NUL <==> line == "") && (line != "" ==> buf[0] == line[0])
  {
  }

  // ---------------------------------------------------------------- looking up one entry

  datatype Key = ByName(name: string) | ById(id: nat)

  predicate Fits(e: Entry, key: Key) {
    match key
    case ByName(name) => name == (if e.Group? then e.group.name else e.user.name)
    case ById(id) => id == (if e.Group? then e.group.gid else e.user.uid)
  }

  /** The first entry that fits, if any. */
  function Pick(entries: seq<Entry>, key: Key): (r: Option<Entry>)
    ensures r.Some? <==> exists i :: 0 <= i < |entries| && Fits(entries[i], key)
    ensures r.Some? ==> exists i :: 0 <= i < |entries| && entries[i] == r.value && Fits(r.value, key) && forall j :: 0 <= j < i ==> !Fits(entries[j], key)
  {
    if entries == [] then None
    else if Fits(entries[0], key) then Some(entries[0])
    else
      var rest := Pick(entries[1..], key);
      PickShift(entries, key, rest);
      rest
  }

  lemma PickShift(entries: seq<Entry>, key: Key, r: Option<Entry>)
    requires entries != [] && !Fits(entries[0], key)
    requires var rest := entries[1..];
             && (r.Some? <==> exists i :: 0 <= i < |rest| && Fits(rest[i], key))
             && (r.Some? ==> exists i :: 0 <= i < |rest| && rest[i] == r.value && Fits(r.value, key) && forall j :: 0 <= j < i ==> !Fits(rest[j], key))
    ensures r.Some? <==> exists i :: 0 <= i < |entries| && Fits(entries[i], key)
    ensures r.Some? ==> exists i :: 0 <= i < |entries| && entries[i] == r.value && Fits(r.value, key) && forall j :: 0 <= j < i ==> !Fits(entries[j], key)
  {
    var rest := entries[1..];
    if r.Some? {
      var i :| 0 <= i < |rest| && rest[i] == r.value && Fits(r.value, key) && forall j :: 0 <= j < i ==> !Fits(rest[j], key);
      assert entries[i + 1] == r.value;
      forall j | 0 <= j < i + 1 ensures !Fits(entries[j], key) {
        if j > 0 { assert entries[j] == rest[j - 1]; }
      }
    } else {
      forall j | 0 <= j < |entries| ensures !Fits(entries[j], key) {
        if j > 0 { assert entries[j] == rest[j - 1]; }
      }
    }
  }

  /** GETXXKEY_R_TEST: strcmp with the name, or equality of the id. */
  method Test(buf: array<char>, r: Record, key: Key, ghost base: nat, ghost e: Entry) returns (fits: bool)
    requires Describes(buf[..], base, r, e)
    ensures fits <==> Fits(e, key)
  {
    match key {
      case ByName(name) =>
        var p := if r.GroupRecord? then r.group.name else r.user.name;
        return CStr(buf[..], p) == name;
      case ById(id) =>
        return id == if r.GroupRecord? then r.group.gid else r.user.uid;
    }
  }

  lemma EntriesStep(kind: Kind, text: string, p: nat, base: nat, size: nat)
    requires p <= |text|
    ensures var n, all := Next(kind, text, p, base, size), Entries(kind, text, p, base, size);
            if n.None? then all == [] else all == [n.value.0] + Entries(kind, text, n.value.1, base, size)
  {
    hide Next;
  }

  lemma PickStep(e: Entry, rest: seq<Entry>, key: Key)
    ensures Pick([e] + rest, key) == if Fits(e, key) then Some(e) else Pick(rest, key)
  {
    assert ([e] + rest)[1..] == rest;
  }

  /** The lookup functions of pwd_grp_internal.c on a file that could be opened: 0 whether or not an entry is found. */
  method Lookup(kind: Kind, key: Key, text: string, buf: array<char>, base: nat) returns (rv: Status, result: Option<Record>)
    requires NUL !in text && IsAddress(base + buf.Length)
    modifies buf
    ensures rv == (if buf.Length < 256 then TooSmall else Found)
    ensures rv == TooSmall ==> result == None
    ensures rv == Found ==> var e := Pick(Entries(kind, text, 0, base, buf.Length), key);
                            if e.None? then result == None
                            else result.Some? && Describes(buf[..], base, result.value, e.value)
  {
    hide Next, Entries, Pick, Describes, Fits;
    var f := new Stream(text);
    ghost var goal := Pick(Entries(kind, text, 0, base, buf.Length), key);
    while true
      invariant f.text == text && f.pos <= |text|
      invariant goal == Pick(Entries(kind, text, f.pos, base, buf.Length), key)
      decreases |text| - f.pos
    {
      ghost var p := f.pos;
      EntriesStep(kind, text, p, base, buf.Length);
      var s, r := PgsReader(kind, buf, base, f);
      if s != Found {
        NonePicked(key);
        return if s == NoEntry then Found else s, None;
      }
      ghost var n := Next(kind, text, p, base, buf.Length).value;
      PickStep(n.0, Entries(kind, text, n.1, base, buf.Length), key);
      var fits := Test(buf, r.value, key, base, n.0);
      if fits { return Found, r; }
    }
  }

  lemma NonePicked(key: Key)
    ensures Pick([], key) == None
  {
  }

  // ---------------------------------------------------------------- lines that are passed over

  /** A line that is empty, a comment, indented, or too long for the buffer leaves no entry, whatever else it says. */
  lemma LinePassedOver(kind: Kind, text: string, p: nat, base: nat, size: nat)
    requires p < |text|
    requires var line := LineAt(text, p); line == "" || line[0] == '#' || line[0] == ' ' || line[0] == '\t' || |line| > size - 2
    ensures Entries(kind, text, p, base, size) == Entries(kind, text, LineEnd(text, p), base, size)
  {
    hide Next, Entries, EntryOf, LineAt, LineEnd;
    EntriesStep(kind, text, p, base, size);
    EntriesStep(kind, text, LineEnd(text, p), base, size);
    NextStep(kind, text, p, base, size);
  }

  // ---------------------------------------------------------------- files as they are written

  function LineOf(e: Entry): string {
    match e
    case Group(g) => GroupEntry.LineOf(g)
    case User(u) => PasswdEntry.LineOf(u)
  }

  function FileOf(entries: seq<Entry>): string {
    if entries == [] then "" else LineOf(entries[0]) + "\n" + FileOf(entries[1..])
  }

  predicate OfKind(e: Entry, kind: Kind) {
    e.Group? <==> kind == Groups
  }

  /** No field holds a separator of its own, and the numbers are such that an id can be. */
  predicate Separated(e: Entry) {
    match e
    case Group(g) => SeparatedGroup(g)
    case User(u) => SeparatedUser(u)
  }

  predicate SeparatedGroup(g: GroupEntry.Group) {
    && ':' !in g.name && ':' !in g.passwd && '\n' !in g.name && '\n' !in g.passwd && g.gid < UINT_SIZE
    && forall s :: s in g.members ==> ',' !in s && '\n' !in s
  }

  /** The shell may hold the separator of fields, but not that of lines. */
  predicate SeparatedUser(u: PasswdEntry.Passwd) {
    && ':' !in u.name && ':' !in u.passwd && ':' !in u.gecos && ':' !in u.dir && u.uid < UINT_SIZE && u.gid < UINT_SIZE
    && '\n' !in u.name && '\n' !in u.passwd && '\n' !in u.gecos && '\n' !in u.dir && '\n' !in u.shell
  }

  /** An entry that survives: its line does not look like a comment and fits the buffer; a group's members are names. */
  predicate Keepable(e: Entry, base: nat, size: nat) {
    match e
    case Group(g) => Plain(g.name) && GroupEntry.AllNames(g.members) && GroupEntry.TableFits(g, base, size)
    case User(u) => Plain(u.name) && |PasswdEntry.LineOf(u)| + 2 <= size
  }

  predicate Plain(name: string) {
    name == "" || (name[0] != '#' && !IsSpace(name[0]))
  }

  /** What the reader makes of a line. */
  function Kept(kind: Kind, line: string, base: nat, size: nat): Option<Entry> {
    if Skipped(line, size) then None else EntryOf(kind, line, base, size)
  }

  lemma {:induction false} NoNewline(names: seq<string>)
    requires names != [] && forall s :: s in names ==> '\n' !in s
    ensures '\n' !in GroupEntry.Join(names)
  {
    if |names| > 1 { NoNewline(names[1..]); }
  }

  lemma {:induction false} NoNewlineInDecimal(n: nat)
    ensures '\n' !in Decimal(n)
  {
    assert forall i :: 0 <= i < |Decimal(n)| ==> Decimal(n)[i] != '\n';
  }

  lemma {:induction false} NoNewlineJoined(fields: seq<string>)
    requires fields != [] && forall i :: 0 <= i < |fields| ==> '\n' !in fields[i]
    ensures '\n' !in PasswdEntry.Joined(fields)
  {
    if |fields| > 1 { NoNewlineJoined(fields[1..]); }
  }

  /** The start of a written line, and that it is one line. */
  lemma GroupStart(g: GroupEntry.Group)
    requires SeparatedGroup(g)
    ensures var line := GroupEntry.LineOf(g);
            line != "" && line[0] == (if g.name == "" then ':' else g.name[0]) && '\n' !in line
  {
    hide GroupEntry.Join, Decimal;
    NoNewlineInDecimal(g.gid);
    if g.members != [] { NoNewline(g.members); }
  }

  lemma UserStart(u: PasswdEntry.Passwd)
    requires SeparatedUser(u)
    ensures var line := PasswdEntry.LineOf(u);
            line != "" && line[0] == (if u.name == "" then ':' else u.name[0]) && '\n' !in line
  {
    hide Decimal;
    var fields := [u.name, u.passwd, Decimal(u.uid), Decimal(u.gid), u.gecos, u.dir, u.shell];
    NoNewlineInDecimal(u.uid);
    NoNewlineInDecimal(u.gid);
    NoNewlineJoined(fields);
    assert PasswdEntry.Joined(fields) == fields[0] + (":" + PasswdEntry.Joined(fields[1..]));
  }

  lemma GroupKept(g: GroupEntry.Group, base: nat, size: nat)
    requires SeparatedGroup(g)
    ensures Kept(Groups, GroupEntry.LineOf(g), base, size) == Some(Group(g)) <==> Keepable(Group(g), base, size)
  {
    hide GroupEntry.LineOf, GroupEntry.GroupOf, GroupEntry.AllNames;
    GroupStart(g);
    GroupEntry.WrittenGroup(g, base, size);
  }

  lemma UserKept(u: PasswdEntry.Passwd, base: nat, size: nat)
    requires SeparatedUser(u)
    ensures Kept(Users, PasswdEntry.LineOf(u), base, size) == Some(User(u)) <==> Keepable(User(u), base, size)
  {
    hide PasswdEntry.LineOf, PasswdEntry.PasswdOf;
    UserStart(u);
    PasswdEntry.WrittenUser(u);
  }

  lemma EntryKept(e: Entry, kind: Kind, base: nat, size: nat)
    requires OfKind(e, kind) && Separated(e)
    ensures '\n' !in LineOf(e)
    ensures Kept(kind, LineOf(e), base, size) == Some(e) <==> Keepable(e, base, size)
  {
    hide Kept, Keepable, SeparatedGroup, SeparatedUser, GroupEntry.LineOf, PasswdEntry.LineOf;
    match e
    case Group(g) => GroupStart(g); GroupKept(g, base, size);
    case User(u) => UserStart(u); UserKept(u, base, size);
  }

  lemma LineStep(kind: Kind, text: string, p: nat, base: nat, size: nat, line: string, q: nat)
    requires q == p + |line| + 1 <= |text| && text[p..q - 1] == line && text[q - 1] == '\n' && '\n' !in line
    ensures var e, rest := Kept(kind, line, base, size), Entries(kind, text, q, base, size);
            Entries(kind, text, p, base, size) == if e.Some? then [e.value] + rest else rest
  {
    hide Next, Entries, EntryOf;
    LineIs(text, p, line, q);
    EntriesStep(kind, text, p, base, size);
    EntriesStep(kind, text, q, base, size);
    NextStep(kind, text, p, base, size);
  }

  /** A file of entries, one a line, holds exactly those entries, in order, if and only if each of them is keepable. */
  lemma {:induction false} FileReadsBack(kind: Kind, before: string, entries: seq<Entry>, base: nat, size: nat)
    requires forall e :: e in entries ==> OfKind(e, kind) && Separated(e)
    ensures var read := Entries(kind, before + FileOf(entries), |before|, base, size);
            |read| <= |entries| && (read == entries <==> forall e :: e in entries ==> Keepable(e, base, size))
    decreases |entries|
  {
    hide Next, Entries, LineOf, EntryOf, Kept, Separated, Keepable, OfKind;
    var text := before + FileOf(entries);
    if entries == [] {
      EntriesStep(kind, text, |before|, base, size);
      NoNext(kind, text, base, size);
    } else {
      var line := LineOf(entries[0]);
      var after := before + line + "\n";
      EntryKept(entries[0], kind, base, size);
      assert text == after + FileOf(entries[1..]);
      LineStep(kind, text, |before|, base, size, line, |after|);
      FileReadsBack(kind, after, entries[1..], base, size);
      HeadAndRest(Kept(kind, line, base, size), entries, Entries(kind, text, |after|, base, size));
      EachOf(entries, base, size);
    }
  }

  lemma HeadAndRest(e: Option<Entry>, entries: seq<Entry>, rest: seq<Entry>)
    requires entries != [] && |rest| <= |entries| - 1
    ensures var read := if e.Some? then [e.value] + rest else rest;
            |read| <= |entries| && (read == entries <==> e == Some(entries[0]) && rest == entries[1..])
  {
    if e.Some? {
      assert ([e.value] + rest)[0] == e.value && ([e.value] + rest)[1..] == rest;
      assert entries == [entries[0]] + entries[1..];
    }
  }

  lemma EachOf(entries: seq<Entry>, base: nat, size: nat)
    requires entries != []
    ensures (forall e :: e in entries ==> Keepable(e, base, size)) <==>
            Keepable(entries[0], base, size) && forall e :: e in entries[1..] ==> Keepable(e, base, size)
  {
    hide Keepable;
    assert entries == [entries[0]] + entries[1..];
  }

  lemma LineIs(text: string, p: nat, line: string, q: nat)
    requires q == p + |line| + 1 <= |text| && text[p..q - 1] == line && text[q - 1] == '\n' && '\n' !in line
    ensures LineAt(text, p) == line && LineEnd(text, p) == q
  {
    forall i | p <= i < q - 1 ensures text[i] != '\n' { assert text[i] == line[i - p]; }
    FindIs(text, p, '\n', q - 1);
  }

  // ---------------------------------------------------------------- what lookups find in such a file

  predicate HasName(e: Entry, name: string) {
    match e
    case Group(g) => g.name == name
    case User(u) => u.name == name
  }

  predicate HasId(e: Entry, id: nat) {
    match e
    case Group(g) => g.gid == id
    case User(u) => u.uid == id
  }

  /** The entry is the first of some that has the name. */
  ghost predicate FirstByName(entries: seq<Entry>, name: string, e: Entry) {
    exists i :: 0 <= i < |entries| && entries[i] == e && HasName(e, name) && forall j :: 0 <= j < i ==> !HasName(entries[j], name)
  }

  ghost predicate FirstById(entries: seq<Entry>, id: nat, e: Entry) {
    exists i :: 0 <= i < |entries| && entries[i] == e && HasId(e, id) && forall j :: 0 <= j < i ==> !HasId(entries[j], id)
  }

  lemma FitsIs(e: Entry, name: string, id: nat)
    ensures (Fits(e, ByName(name)) <==> HasName(e, name)) && (Fits(e, ById(id)) <==> HasId(e, id))
  {
  }

  /** By name and by number, a file that was written is searched for just the entries that were written. */
  lemma LookupFinds(kind: Kind, entries: seq<Entry>, base: nat, size: nat, name: string, id: nat)
    requires forall e :: e in entries ==> OfKind(e, kind) && Separated(e) && Keepable(e, base, size)
    ensures var r := Pick(Entries(kind, FileOf(entries), 0, base, size), ByName(name));
            if r.Some? then FirstByName(entries, name, r.value) else forall e :: e in entries ==> !HasName(e, name)
    ensures var r := Pick(Entries(kind, FileOf(entries), 0, base, size), ById(id));
            if r.Some? then FirstById(entries, id, r.value) else forall e :: e in entries ==> !HasId(e, id)
  {
    hide Entries, FileOf, OfKind, Separated, Keepable, Fits, HasName, HasId;
    FileReadsBack(kind, "", entries, base, size);
    assert "" + FileOf(entries) == FileOf(entries);
    forall e ensures (Fits(e, ByName(name)) <==> HasName(e, name)) && (Fits(e, ById(id)) <==> HasId(e, id)) { FitsIs(e, name, id); }
  }
}
