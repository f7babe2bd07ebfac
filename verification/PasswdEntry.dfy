/** One line of the passwd file, split in place into its seven fields. */
module PasswdEntry {
  import opened Json
  import opened CMemory
  import opened Sequences

  datatype Passwd = Passwd(name: string, passwd: string, uid: nat, gid: nat, gecos: string, dir: string, shell: string)

  /** What the parser leaves in the caller's struct: offsets into the line buffer, and the two ids. */
  datatype Record = Record(name: nat, passwd: nat, uid: nat, gid: nat, gecos: nat, dir: nat, shell: nat)

  /** The number at p and the place of the separator after it, if both are there. */
  function IdAt(line: string, p: nat): (r: Option<(nat, nat)>)
    requires p <= |line|
    ensures r.Some? ==> p < r.value.1 < |line| && line[r.value.1] == ':'
  {
    var (v, e) := StrToUl(line, p);
    if e == p || e == |line| || line[e] != ':' then None else Some((ToId(v), e))
  }

  /** All six separators are required; what follows the last is the shell, separators and all. */
  function PasswdOf(line: string): Option<Passwd> {
    var n1 := Find(line, 0, ':');
    if n1 == |line| then None else
    var n2 := Find(line, n1 + 1, ':');
    if n2 == |line| then None else IdsOf(line, n1, n2)
  }

  /** The fields from the third on, once the first two are known to end at n1 and n2. */
  function IdsOf(line: string, n1: nat, n2: nat): Option<Passwd>
    requires n1 < n2 < |line|
  {
    var uid := IdAt(line, n2 + 1);
    if uid == None then None else
    var gid := IdAt(line, uid.value.1 + 1);
    if gid == None then None else LastOf(line, n1, n2, uid.value.0, gid.value.0, gid.value.1)
  }

  /** The last three fields, behind the separator at g. */
  function LastOf(line: string, n1: nat, n2: nat, uid: nat, gid: nat, g: nat): Option<Passwd>
    requires n1 < n2 < |line| && g < |line|
  {
    var n5 := Find(line, g + 1, ':');
    if n5 == |line| then None else
    var n6 := Find(line, n5 + 1, ':');
    if n6 == |line| then None
    else Some(Passwd(line[..n1], line[n1 + 1..n2], uid, gid, line[g + 1..n5], line[n5 + 1..n6], line[n6 + 1..]))
  }

  ghost predicate IsField(mem: string, p: nat, s: string) {
    HasEnd(mem, p) && CStr(mem, p) == s
  }

  ghost predicate Describes(mem: string, r: Record, p: Passwd) {
    && IsField(mem, r.name, p.name) && IsField(mem, r.passwd, p.passwd) && r.uid == p.uid && r.gid == p.gid
    && IsField(mem, r.gecos, p.gecos) && IsField(mem, r.dir, p.dir) && IsField(mem, r.shell, p.shell)
  }

  /** Each offset of the record is that of the field of its own name. */
  lemma FieldsDescribed(mem: string, r: Record, p: Passwd)
    requires Describes(mem, r, p)
    ensures HasEnd(mem, r.name) && CStr(mem, r.name) == p.name && HasEnd(mem, r.passwd) && CStr(mem, r.passwd) == p.passwd
    ensures HasEnd(mem, r.gecos) && CStr(mem, r.gecos) == p.gecos && HasEnd(mem, r.dir) && CStr(mem, r.dir) == p.dir
    ensures HasEnd(mem, r.shell) && CStr(mem, r.shell) == p.shell && r.uid == p.uid && r.gid == p.gid
  {
    hide HasEnd, CStr;
  }

  /** A stretch of the line that the parser has ended with a terminator. */
  ghost predicate Ended(mem: string, line: string, p: nat, q: nat) {
    p <= q <= |line| && q < |mem| && mem[q] == NUL && forall i :: p <= i < q ==> mem[i] == line[i]
  }

  lemma EndedIsField(mem: string, line: string, p: nat, q: nat)
    requires Ended(mem, line, p, q) && NUL !in line
    ensures IsField(mem, p, line[p..q])
  {
    StrLenIs(mem, p, q);
    assert mem[p..q] == line[p..q];
  }

  lemma EndedKept(m: string, c: string, line: string, p: nat, q: nat, t: nat)
    requires Ended(m, line, p, q) && q < t <= |m| == |c| && forall i :: 0 <= i < t ==> m[i] == c[i]
    ensures Ended(c, line, p, q)
  {
  }

  /** strchr for the separator, which becomes a terminator; nothing before p changes. */
  method EndField(buf: array<char>, p: nat, ghost line: string) returns (q: nat, ok: bool)
    requires HoldsFrom(buf, p, line)
    modifies buf
    ensures q == Find(line, p, ':') && forall i :: 0 <= i < p ==> buf[i] == old(buf[i])
    ensures ok <==> q < |line|
    ensures ok ==> Ended(buf[..], line, p, q) && HoldsFrom(buf, q + 1, line)
  {
    q := StrChr(buf, p, ':', line);
    ok := buf[q] != NUL;
    if ok { buf[q] := NUL; }
  }

  method EndId(buf: array<char>, p: nat, ghost line: string) returns (id: nat, q: nat, ok: bool)
    requires HoldsFrom(buf, p, line)
    modifies buf
    ensures forall i :: 0 <= i < p ==> buf[i] == old(buf[i])
    ensures ok <==> IdAt(line, p).Some?
    ensures ok ==> IdAt(line, p) == Some((id, q)) && HoldsFrom(buf, q + 1, line)
  {
    var v;
    v, q := ReadUl(buf, p, line);
    id, ok := ToId(v), q != p && buf[q] == ':';
    if ok { buf[q] := NUL; }
  }

  /** Two text fields in a row. */
  method EndTwoFields(buf: array<char>, p: nat, ghost line: string) returns (q1: nat, q2: nat, ok: bool)
    requires HoldsFrom(buf, p, line)
    modifies buf
    ensures forall i :: 0 <= i < p ==> buf[i] == old(buf[i])
    ensures q1 == Find(line, p, ':') && (q1 < |line| ==> q2 == Find(line, q1 + 1, ':'))
    ensures ok <==> q1 < |line| && q2 < |line|
    ensures ok ==> Ended(buf[..], line, p, q1) && Ended(buf[..], line, q1 + 1, q2) && HoldsFrom(buf, q2 + 1, line)
  {
    hide Find, Ended;
    q2 := 0;
    q1, ok := EndField(buf, p, line);
    if ok {
      ghost var mem := buf[..];
      q2, ok := EndField(buf, q1 + 1, line);
      if ok { EndedKept(mem, buf[..], line, p, q1, q1 + 1); }
    }
  }

  /** The last three fields; those before p stay as they are. */
  method ParseLast(buf: array<char>, g: nat, ghost line: string, ghost n1: nat, ghost n2: nat, ghost uid: nat, ghost gid: nat)
      returns (n5: nat, n6: nat, ok: bool)
    requires n1 < n2 < |line| && g < |line| && HoldsFrom(buf, g + 1, line)
    modifies buf
    ensures forall i :: 0 <= i < g + 1 ==> buf[i] == old(buf[i])
    ensures ok <==> LastOf(line, n1, n2, uid, gid, g).Some?
    ensures ok ==>
              && Ended(buf[..], line, g + 1, n5) && Ended(buf[..], line, n5 + 1, n6) && Ended(buf[..], line, n6 + 1, |line|)
              && LastOf(line, n1, n2, uid, gid, g) ==
                 Some(Passwd(line[..n1], line[n1 + 1..n2], uid, gid, line[g + 1..n5], line[n5 + 1..n6], line[n6 + 1..]))
  {
    hide Find, Ended, HoldsFrom;
    n5, n6, ok := EndTwoFields(buf, g + 1, line);
    if ok { RestEnded(buf, line, n6 + 1); }
  }

  /** The two numbers, and all that follows them. */
  method ParseIds(buf: array<char>, ghost line: string, ghost n1: nat, n2: nat) returns (r: Option<(nat, nat, nat, nat, nat)>)
    requires n1 < n2 < |line| && HoldsFrom(buf, n2 + 1, line)
    modifies buf
    ensures forall i :: 0 <= i < n2 + 1 ==> buf[i] == old(buf[i])
    ensures r.Some? <==> IdsOf(line, n1, n2).Some?
    ensures r.Some? ==>
              var (uid, gid, g, n5, n6) := r.value;
              && Ended(buf[..], line, g + 1, n5) && Ended(buf[..], line, n5 + 1, n6) && Ended(buf[..], line, n6 + 1, |line|)
              && g < n5 < n6 < |line|
              && IdsOf(line, n1, n2) ==
                 Some(Passwd(line[..n1], line[n1 + 1..n2], uid, gid, line[g + 1..n5], line[n5 + 1..n6], line[n6 + 1..]))
  {
    hide IdAt, LastOf, HoldsFrom;
    var uid, u, ok := EndId(buf, n2 + 1, line);
    if !ok { return None; }
    var gid, g;
    gid, g, ok := EndId(buf, u + 1, line);
    if !ok { return None; }
    var n5, n6;
    n5, n6, ok := ParseLast(buf, g, line, n1, n2, uid, gid);
    if !ok { return None; }
    r := Some((uid, gid, g, n5, n6));
  }

  /** bb__parsepwent, its loop over the fields written out. */
  method ParsePwent(buf: array<char>, ghost line: string) returns (r: Option<Record>)
    requires HoldsFrom(buf, 0, line)
    modifies buf
    ensures r.Some? <==> PasswdOf(line).Some?
    ensures r.Some? ==> Describes(buf[..], r.value, PasswdOf(line).value)
    ensures r.Some? ==> r.value.uid == PasswdOf(line).value.uid && r.value.gid == PasswdOf(line).value.gid
  {
    hide Find, IdsOf, IsField, Ended, HoldsFrom;
    HeldIsNulFree(buf, line);
    var n1, n2, ok := EndTwoFields(buf, 0, line);
    if !ok { return None; }
    ghost var mem := buf[..];
    var rest := ParseIds(buf, line, n1, n2);
    if rest == None { return None; }
    var (uid, gid, g, n5, n6) := rest.value;
    EndedKept(mem, buf[..], line, 0, n1, n1 + 1);
    EndedKept(mem, buf[..], line, n1 + 1, n2, n2 + 1);
    AllFields(buf[..], line, n1, n2, g, n5, n6);
    r := Some(Record(0, n1 + 1, uid, gid, g + 1, n5 + 1, n6 + 1));
  }

  lemma HeldIsNulFree(buf: array<char>, line: string)
    requires HoldsFrom(buf, 0, line)
    ensures NUL !in line && |line| < buf.Length
  {
  }

  lemma RestEnded(buf: array<char>, line: string, p: nat)
    requires HoldsFrom(buf, p, line)
    ensures Ended(buf[..], line, p, |line|)
  {
  }

  lemma AllFields(mem: string, line: string, n1: nat, n2: nat, g: nat, n5: nat, n6: nat)
    requires Ended(mem, line, 0, n1) && Ended(mem, line, n1 + 1, n2) && NUL !in line
    requires Ended(mem, line, g + 1, n5) && Ended(mem, line, n5 + 1, n6) && Ended(mem, line, n6 + 1, |line|)
    ensures n1 < n2 <= |line| && g < n5 < n6 < |line|
    ensures IsField(mem, 0, line[..n1]) && IsField(mem, n1 + 1, line[n1 + 1..n2]) && IsField(mem, g + 1, line[g + 1..n5])
    ensures IsField(mem, n5 + 1, line[n5 + 1..n6]) && IsField(mem, n6 + 1, line[n6 + 1..])
  {
    hide IsField;
    EndedIsField(mem, line, 0, n1);
    EndedIsField(mem, line, n1 + 1, n2);
    EndedIsField(mem, line, g + 1, n5);
    EndedIsField(mem, line, n5 + 1, n6);
    EndedIsField(mem, line, n6 + 1, |line|);
    assert line[..n1] == line[0..n1] && line[n6 + 1..] == line[n6 + 1..|line|];
  }

  // ---------------------------------------------------------------- lines as they are written

  /** Fields, one separator between every two. */
  function Joined(fields: seq<string>): string
    requires fields != []
  {
    if |fields| == 1 then fields[0] else fields[0] + (":" + Joined(fields[1..]))
  }

  function LineOf(u: Passwd): string {
    Joined([u.name, u.passwd, Decimal(u.uid), Decimal(u.gid), u.gecos, u.dir, u.shell])
  }

  /** The rest of the line from p on is these fields. */
  predicate Stands(line: string, p: nat, fields: seq<string>) {
    fields != [] && p <= |line| && line[p..] == Joined(fields)
  }

  /** The first of several fields, and where the others stand. */
  lemma FieldAt(line: string, p: nat, fields: seq<string>)
    requires Stands(line, p, fields) && |fields| > 1
    ensures var q := p + |fields[0]|;
            q < |line| && line[p..q] == fields[0] && line[q] == ':' && Stands(line, q + 1, fields[1..])
  {
    var rest, q := Joined(fields[1..]), p + |fields[0]|;
    assert line[p..] == fields[0] + (":" + rest);
    hide Joined;
    Behind(line, p, fields[0], ":" + rest);
    Behind(line, q, ":", rest);
  }

  lemma Behind(line: string, p: nat, a: string, b: string)
    requires p <= |line| && line[p..] == a + b
    ensures p + |a| <= |line| && line[p..p + |a|] == a && line[p + |a|..] == b
    ensures a != "" ==> line[p] == a[0]
  {
    assert line[p..][..|a|] == line[p..p + |a|] && line[p..][|a|..] == line[p + |a|..];
    Seam(a, b);
    assert (a + b)[..|a|] == a;
    assert a != "" ==> line[p] == line[p..][0];
  }

  lemma TextFieldEnds(line: string, p: nat, fields: seq<string>)
    requires Stands(line, p, fields) && |fields| > 1 && ':' !in fields[0]
    ensures Find(line, p, ':') == p + |fields[0]|
  {
    hide Stands;
    FieldAt(line, p, fields);
    var q := p + |fields[0]|;
    forall i | p <= i < q ensures line[i] != ':' { assert line[i] == line[p..q][i - p]; }
    FindIs(line, p, ':', q);
  }

  /** A field that is a number: what its digits spell, cut to 32 bits. */
  lemma NumberFieldEnds(line: string, p: nat, fields: seq<string>)
    requires Stands(line, p, fields) && |fields| > 1 && fields[0] != "" && AllDigits(fields[0])
    ensures p <= |line| && IdAt(line, p) == Some((IdOf(fields[0]), p + |fields[0]|))
  {
    hide Stands, Spelled, StrToUl, Clamped;
    FieldAt(line, p, fields);
    StrToUlReads(line, p, p, "", fields[0]);
  }

  /** The id that digits are read as. */
  function IdOf(d: string): nat
    requires AllDigits(d)
  {
    Clamped(Spelled(d), false) % 0x1_0000_0000
  }

  /** The last three fields. */
  lemma LastRead(line: string, g: nat, f: seq<string>, n1: nat, n2: nat, uid: nat, gid: nat)
    requires n1 < n2 < g && Stands(line, g + 1, f) && |f| == 3 && ':' !in f[0] && ':' !in f[1]
    ensures g < |line| && LastOf(line, n1, n2, uid, gid, g) ==
                          Some(Passwd(line[..n1], line[n1 + 1..n2], uid, gid, f[0], f[1], f[2]))
  {
    hide Stands, Find;
    FieldAt(line, g + 1, f);
    TextFieldEnds(line, g + 1, f);
    var n5 := g + 1 + |f[0]|;
    FieldAt(line, n5 + 1, f[1..]);
    TextFieldEnds(line, n5 + 1, f[1..]);
    LastStands(line, n5 + 1 + |f[1]| + 1, f[1..][1..]);
  }

  lemma LastStands(line: string, p: nat, f: seq<string>)
    requires Stands(line, p, f) && |f| == 1
    ensures p <= |line| && line[p..] == f[0]
  {
  }

  /** The fields from the third on. */
  lemma IdsRead(line: string, f: seq<string>, n1: nat, n2: nat)
    requires n1 < n2 && Stands(line, n2 + 1, f)
    requires |f| == 5 && f[0] != "" && f[1] != "" && AllDigits(f[0]) && AllDigits(f[1]) && ':' !in f[2] && ':' !in f[3]
    ensures n2 < |line| && IdsOf(line, n1, n2) ==
                           Some(Passwd(line[..n1], line[n1 + 1..n2], IdOf(f[0]), IdOf(f[1]), f[2], f[3], f[4]))
  {
    hide Stands, IdAt, LastOf, IdOf;
    FieldAt(line, n2 + 1, f);
    NumberFieldEnds(line, n2 + 1, f);
    var u := n2 + 1 + |f[0]|;
    FieldAt(line, u + 1, f[1..]);
    NumberFieldEnds(line, u + 1, f[1..]);
    LastRead(line, u + 1 + |f[1]|, f[1..][1..], n1, n2, IdOf(f[0]), IdOf(f[1]));
  }

  /** Seven fields, the third and the fourth digits, no separator inside the first six: the line is read as they say. */
  lemma LineRead(f: seq<string>)
    requires |f| == 7 && f[2] != "" && f[3] != "" && AllDigits(f[2]) && AllDigits(f[3])
    requires ':' !in f[0] && ':' !in f[1] && ':' !in f[4] && ':' !in f[5]
    ensures PasswdOf(Joined(f)) == Some(Passwd(f[0], f[1], IdOf(f[2]), IdOf(f[3]), f[4], f[5], f[6]))
  {
    hide *;
    var line, n1 := Joined(f), |f[0]|;
    var n2 := n1 + 1 + |f[1]|;
    WholeLine(f);
    FieldAt(line, 0, f);
    TextFieldEnds(line, 0, f);
    FieldAt(line, n1 + 1, f[1..]);
    TextFieldEnds(line, n1 + 1, f[1..]);
    assert f[1..][1..] == f[2..];
    IdsRead(line, f[2..], n1, n2);
    FirstTwo(line, n1, n2);
  }

  lemma WholeLine(f: seq<string>)
    requires f != []
    ensures Stands(Joined(f), 0, f)
  {
    assert Joined(f)[0..] == Joined(f);
  }

  lemma FirstTwo(line: string, n1: nat, n2: nat)
    requires n1 < n2 < |line| && Find(line, 0, ':') == n1 && Find(line, n1 + 1, ':') == n2
    ensures PasswdOf(line) == IdsOf(line, n1, n2) && line[0..n1] == line[..n1]
  {
    hide Find, IdsOf;
  }

  /** A user written out field by field is read back as itself; the shell may hold separators. */
  lemma WrittenUser(u: Passwd)
    requires ':' !in u.name && ':' !in u.passwd && ':' !in u.gecos && ':' !in u.dir && u.uid < 0x1_0000_0000 && u.gid < 0x1_0000_0000
    ensures PasswdOf(LineOf(u)) == Some(u)
  {
    hide PasswdOf, Joined, Decimal, Spelled;
    SpelledDecimal(u.uid);
    SpelledDecimal(u.gid);
    LineRead([u.name, u.passwd, Decimal(u.uid), Decimal(u.gid), u.gecos, u.dir, u.shell]);
  }

  /** A field up to the separator at q, before the others. */
  lemma FieldBefore(line: string, p: nat, q: nat, rest: seq<string>)
    requires p <= q < |line| && line[q] == ':' && Stands(line, q + 1, rest)
    ensures Stands(line, p, [line[p..q]] + rest)
  {
    var f := [line[p..q]] + rest;
    assert f[1..] == rest;
    assert line[p..] == line[p..q] + ([line[q]] + line[q + 1..]);
  }

  /** Where the separators of an accepted line are. */
  lemma Separators(line: string) returns (n1: nat, n2: nat, n3: nat, n4: nat, n5: nat, n6: nat)
    requires PasswdOf(line).Some?
    ensures n1 < n2 < n3 < n4 < n5 < n6 < |line|
    ensures line[n1] == line[n2] == line[n3] == line[n4] == line[n5] == line[n6] == ':'
    ensures var u := PasswdOf(line).value;
            && u.name == line[0..n1] && u.passwd == line[n1 + 1..n2] && u.gecos == line[n4 + 1..n5] && u.dir == line[n5 + 1..n6]
            && u.shell == line[n6 + 1..] && ':' !in u.name && ':' !in u.passwd && ':' !in u.gecos && ':' !in u.dir
  {
    hide *;
    n1, n2 := FirstThere(line);
    n3, n4 := IdsThere(line, n1, n2);
    n5, n6 := LastThere(line, n1, n2, IdAt(line, n2 + 1).value.0, IdAt(line, n3 + 1).value.0, n4);
    NoneBetween(line, 0, n1);
    NoneBetween(line, n1 + 1, n2);
    NoneBetween(line, n4 + 1, n5);
    NoneBetween(line, n5 + 1, n6);
  }

  lemma FirstThere(line: string) returns (n1: nat, n2: nat)
    requires PasswdOf(line).Some?
    ensures n1 < n2 < |line| && line[n1] == line[n2] == ':' && PasswdOf(line) == IdsOf(line, n1, n2)
    ensures (forall i :: 0 <= i < n1 ==> line[i] != ':') && forall i :: n1 < i < n2 ==> line[i] != ':'
  {
    hide Find, IdsOf;
    n1 := Find(line, 0, ':');
    n2 := Find(line, n1 + 1, ':');
  }

  lemma IdsThere(line: string, n1: nat, n2: nat) returns (n3: nat, n4: nat)
    requires n1 < n2 < |line| && IdsOf(line, n1, n2).Some?
    ensures n2 < n3 < n4 < |line| && line[n3] == line[n4] == ':' && IdAt(line, n2 + 1).Some? && IdAt(line, n3 + 1).Some?
    ensures IdsOf(line, n1, n2) == LastOf(line, n1, n2, IdAt(line, n2 + 1).value.0, IdAt(line, n3 + 1).value.0, n4)
  {
    hide IdAt, LastOf;
    n3 := IdAt(line, n2 + 1).value.1;
    n4 := IdAt(line, n3 + 1).value.1;
  }

  lemma LastThere(line: string, n1: nat, n2: nat, uid: nat, gid: nat, g: nat) returns (n5: nat, n6: nat)
    requires n1 < n2 < |line| && g < |line| && LastOf(line, n1, n2, uid, gid, g).Some?
    ensures g < n5 < n6 < |line| && line[n5] == line[n6] == ':'
    ensures (forall i :: g < i < n5 ==> line[i] != ':') && forall i :: n5 < i < n6 ==> line[i] != ':'
    ensures LastOf(line, n1, n2, uid, gid, g) ==
            Some(Passwd(line[0..n1], line[n1 + 1..n2], uid, gid, line[g + 1..n5], line[n5 + 1..n6], line[n6 + 1..]))
  {
    hide Find;
    n5 := Find(line, g + 1, ':');
    n6 := Find(line, n5 + 1, ':');
    assert line[..n1] == line[0..n1];
  }

  lemma NoneBetween(line: string, p: nat, q: nat)
    requires p <= q <= |line| && forall i :: p <= i < q ==> line[i] != ':'
    ensures ':' !in line[p..q]
  {
  }

  /** A line that is accepted has at least its six separators; its text fields are what stands between them. */
  lemma AcceptedLine(line: string) returns (uid: string, gid: string)
    requires PasswdOf(line).Some?
    ensures var u := PasswdOf(line).value;
            && line == Joined([u.name, u.passwd, uid, gid, u.gecos, u.dir, u.shell])
            && ':' !in u.name && ':' !in u.passwd && ':' !in u.gecos && ':' !in u.dir
  {
    hide *;
    var n1, n2, n3, n4, n5, n6 := Separators(line);
    var u := PasswdOf(line).value;
    uid, gid := line[n2 + 1..n3], line[n3 + 1..n4];
    Shell(line, n6 + 1);
    FieldBefore(line, n5 + 1, n6, [u.shell]);
    FieldBefore(line, n4 + 1, n5, [u.dir] + [u.shell]);
    FieldBefore(line, n3 + 1, n4, [u.gecos] + ([u.dir] + [u.shell]));
    FieldBefore(line, n2 + 1, n3, [gid] + ([u.gecos] + ([u.dir] + [u.shell])));
    FieldBefore(line, n1 + 1, n2, [uid] + ([gid] + ([u.gecos] + ([u.dir] + [u.shell]))));
    FieldBefore(line, 0, n1, [u.passwd] + ([uid] + ([gid] + ([u.gecos] + ([u.dir] + [u.shell])))));
    SevenFields(u, uid, gid);
    FromStart(line, [u.name, u.passwd, uid, gid, u.gecos, u.dir, u.shell]);
  }

  lemma SevenFields(u: Passwd, uid: string, gid: string)
    ensures [u.name] + ([u.passwd] + ([uid] + ([gid] + ([u.gecos] + ([u.dir] + [u.shell])))))
         == [u.name, u.passwd, uid, gid, u.gecos, u.dir, u.shell]
  {
  }

  lemma FromStart(line: string, fields: seq<string>)
    requires Stands(line, 0, fields)
    ensures fields != [] && line == Joined(fields)
  {
    assert line[0..] == line;
  }

  lemma Shell(line: string, p: nat)
    requires p <= |line|
    ensures Stands(line, p, [line[p..]])
  {
  }
}
