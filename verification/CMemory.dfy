/** Strings, numbers and pointers as C lays them out in a buffer of bytes. */
module CMemory {
  import opened Json
  import opened Arithmetic

  // ---------------------------------------------------------------- strings

  predicate HasEnd(mem: string, p: nat) {
    exists i :: p <= i < |mem| && mem[i] == NUL
  }

  function StrLen(mem: string, p: nat): (n: nat)
    requires HasEnd(mem, p)
    ensures p + n < |mem| && mem[p + n] == NUL && forall i :: p <= i < p + n ==> mem[i] != NUL
    decreases |mem| - p
  {
    if mem[p] == NUL then 0 else 1 + StrLen(mem, p + 1)
  }

  lemma StrLenIs(mem: string, p: nat, q: nat)
    requires p <= q < |mem| && mem[q] == NUL && forall i :: p <= i < q ==> mem[i] != NUL
    ensures HasEnd(mem, p) && StrLen(mem, p) == q - p
  {
  }

  /** The C string at p. */
  function CStr(mem: string, p: nat): (s: string)
    requires HasEnd(mem, p)
    ensures NUL !in s
  {
    mem[p..p + StrLen(mem, p)]
  }

  /** The first c at or after p, or the length of s. */
  function Find(s: string, p: nat, c: char): (k: nat)
    requires p <= |s|
    ensures p <= k <= |s| && (k < |s| ==> s[k] == c) && forall i :: p <= i < k ==> s[i] != c
    decreases |s| - p
  {
    if p == |s| || s[p] == c then p else Find(s, p + 1, c)
  }

  lemma FindIs(s: string, p: nat, c: char, k: nat)
    requires p <= k <= |s| && (k < |s| ==> s[k] == c) && forall i :: p <= i < k ==> s[i] != c
    ensures Find(s, p, c) == k
  {
  }

  /** The buffer holds line and its terminator from p on. */
  ghost predicate HoldsFrom(buf: array<char>, p: nat, line: string)
    reads buf
  {
    && NUL !in line && p <= |line| < buf.Length && buf[|line|] == NUL
    && forall i :: p <= i < |line| ==> buf[i] == line[i]
  }

  /** strchr; the length of the line stands for a null result. */
  method StrChr(buf: array<char>, p: nat, c: char, ghost line: string) returns (k: nat)
    requires c != NUL && HoldsFrom(buf, p, line)
    ensures k == Find(line, p, c)
  {
    k := p;
    while buf[k] != c && buf[k] != NUL
      invariant p <= k <= |line| && forall i :: p <= i < k ==> line[i] != c
      decreases |line| - k
    {
      k := k + 1;
    }
    FindIs(line, p, c, k);
  }

  // ---------------------------------------------------------------- numbers

  const ULONG_MAX: nat := 0xffff_ffff_ffff_ffff
  const UINT_SIZE: nat := 0x1_0000_0000

  function SkipSpaces(s: string, p: nat): (q: nat)
    requires p <= |s|
    ensures p <= q <= |s| && (q < |s| ==> !IsSpace(s[q])) && forall i :: p <= i < q ==> IsSpace(s[i])
    decreases |s| - p
  {
    if p < |s| && IsSpace(s[p]) then SkipSpaces(s, p + 1) else p
  }

  /** The run of digits at p read on from n: its value and its end. */
  function DigitRun(s: string, p: nat, n: nat): (r: (nat, nat))
    requires p <= |s|
    ensures p <= r.1 <= |s| && (r.1 < |s| ==> !IsDigit(s[r.1])) && forall i :: p <= i < r.1 ==> IsDigit(s[i])
    decreases |s| - p
  {
    if p < |s| && IsDigit(s[p]) then DigitRun(s, p + 1, 10 * n + (s[p] as int - '0' as int)) else (n, p)
  }

  /** strtoul in base 10: the value, and where it stopped; at p itself when there is no digit. */
  function StrToUl(s: string, p: nat): (r: (nat, nat))
    requires p <= |s|
    ensures p <= r.1 <= |s| && r.0 <= ULONG_MAX
  {
    var q := SkipSpaces(s, p);
    var signed := q < |s| && (s[q] == '-' || s[q] == '+');
    var start := if signed then q + 1 else q;
    var (n, e) := DigitRun(s, start, 0);
    if e == start then (0, p)
    else if n > ULONG_MAX then (ULONG_MAX, e)
    else if signed && s[q] == '-' && n > 0 then (ULONG_MAX + 1 - n, e)
    else (n, e)
  }

  /** Digits that stand at p are read on from n to what they spell. */
  lemma {:induction false} RunOver(s: string, p: nat, d: string, n: nat)
    requires AllDigits(d) && p + |d| <= |s| && s[p..p + |d|] == d
    ensures DigitRun(s, p, n) == DigitRun(s, p + |d|, n * Power10(|d|) + Spelled(d))
    decreases |d|
  {
    if d == "" {
      assert n * Power10(0) == n;
    } else {
      var last := |d| - 1;
      hide Power10;
      LastAt(s, p, d);
      RunOver(s, p, d[..last], n);
      OnePlaceMore(n, last, Spelled(d[..last]));
    }
  }

  lemma LastAt(line: string, p: nat, s: string)
    requires s != "" && p + |s| <= |line| && line[p..p + |s|] == s
    ensures line[p + |s| - 1] == s[|s| - 1] && line[p..p + |s| - 1] == s[..|s| - 1]
  {
    assert line[p..p + |s|][|s| - 1] == line[p + |s| - 1];
    assert line[p..p + |s|][..|s| - 1] == line[p..p + |s| - 1];
  }

  lemma {:induction false} SpacesOver(s: string, p: nat, q: nat)
    requires p <= q <= |s| && forall i :: p <= i < q ==> IsSpace(s[i])
    ensures SkipSpaces(s, p) == SkipSpaces(s, q)
    decreases q - p
  {
    if p < q { SpacesOver(s, p + 1, q); }
  }

  /** What an unsigned long of this size and sign is. */
  function Clamped(n: nat, minus: bool): nat {
    if n >= 0x1_0000_0000_0000_0000 then 0xffff_ffff_ffff_ffff
    else if minus && n > 0 then 0x1_0000_0000_0000_0000 - n else n
  }

  /** Spaces, a sign or none, and digits: strtoul gives what they spell, cut to an unsigned long, and stops behind them. */
  lemma StrToUlReads(s: string, p: nat, q: nat, sign: string, d: string)
    requires p <= q && (forall i :: p <= i < q ==> i < |s| && IsSpace(s[i])) && (sign == "" || sign == "+" || sign == "-")
    requires d != "" && AllDigits(d) && q + |sign| + |d| <= |s| && s[q..q + |sign|] == sign && s[q + |sign|..q + |sign| + |d|] == d
    requires q + |sign| + |d| < |s| ==> !IsDigit(s[q + |sign| + |d|])
    ensures StrToUl(s, p) == (Clamped(Spelled(d), sign == "-"), q + |sign| + |d|)
  {
    hide StrToUl, SkipSpaces, DigitRun, Clamped, Spelled, AllDigits;
    var at, e := q + |sign|, q + |sign| + |d|;
    if sign != "" { FirstAt(s, q, sign); }
    FirstAt(s, at, d);
    DigitFirst(d);
    SpacesOver(s, p, q);
    NoSpace(s, q);
    RunRead(s, at, d);
    StrToUlParts(s, p, q, at, Spelled(d), e);
  }

  lemma FirstAt(s: string, p: nat, t: string)
    requires t != "" && p + |t| <= |s| && s[p..p + |t|] == t
    ensures s[p] == t[0]
  {
    assert s[p..p + |t|][0] == s[p];
  }

  lemma DigitFirst(d: string)
    requires d != "" && AllDigits(d)
    ensures IsDigit(d[0]) && d[0] != '+' && d[0] != '-'
  {
  }

  lemma RunRead(s: string, p: nat, d: string)
    requires AllDigits(d) && p + |d| <= |s| && s[p..p + |d|] == d && (p + |d| < |s| ==> !IsDigit(s[p + |d|]))
    ensures DigitRun(s, p, 0) == (Spelled(d), p + |d|)
  {
    hide *;
    RunOver(s, p, d, 0);
    NoneBefore(|d|);
    RunEnds(s, p + |d|, Spelled(d));
  }

  lemma NoneBefore(k: nat)
    ensures 0 * Power10(k) == 0
  {
  }

  lemma RunEnds(s: string, e: nat, n: nat)
    requires e <= |s| && (e < |s| ==> !IsDigit(s[e]))
    ensures DigitRun(s, e, n) == (n, e)
  {
  }

  lemma StrToUlParts(s: string, p: nat, q: nat, at: nat, n: nat, e: nat)
    requires p <= q <= at < e <= |s| && SkipSpaces(s, p) == q && DigitRun(s, at, 0) == (n, e)
    requires at == if s[q] == '-' || s[q] == '+' then q + 1 else q
    ensures StrToUl(s, p) == (Clamped(n, s[q] == '-'), e)
  {
    hide SkipSpaces, DigitRun;
  }

  lemma NoSpace(s: string, q: nat)
    requires q < |s| && (IsDigit(s[q]) || s[q] == '+' || s[q] == '-')
    ensures SkipSpaces(s, q) == q
  {
  }

  /** Without a digit there, nothing is read. */
  lemma StrToUlNothing(s: string, p: nat, q: nat)
    requires p <= q <= |s| && (forall i :: p <= i < q ==> IsSpace(s[i])) && (q < |s| ==> !IsSpace(s[q]) && !IsDigit(s[q]))
    requires q + 1 < |s| && (s[q] == '+' || s[q] == '-') ==> !IsDigit(s[q + 1])
    ensures StrToUl(s, p) == (0, p)
  {
    SpacesOver(s, p, q);
  }

  method SkipBlanks(buf: array<char>, p: nat, ghost line: string) returns (q: nat)
    requires HoldsFrom(buf, p, line)
    ensures q == SkipSpaces(line, p)
  {
    q := p;
    while IsSpace(buf[q])
      invariant p <= q <= |line| && SkipSpaces(line, q) == SkipSpaces(line, p)
      decreases |line| - q
    {
      q := q + 1;
    }
  }

  method ReadDigits(buf: array<char>, p: nat, ghost line: string) returns (n: nat, e: nat)
    requires HoldsFrom(buf, p, line)
    ensures (n, e) == DigitRun(line, p, 0)
  {
    n, e := 0, p;
    while IsDigit(buf[e])
      invariant p <= e <= |line| && DigitRun(line, e, n) == DigitRun(line, p, 0)
      decreases |line| - e
    {
      n := 10 * n + (buf[e] as int - '0' as int);
      e := e + 1;
    }
  }

  /** strtoul itself */
  method ReadUl(buf: array<char>, p: nat, ghost line: string) returns (n: nat, e: nat)
    requires HoldsFrom(buf, p, line)
    ensures (n, e) == StrToUl(line, p)
  {
    hide SkipSpaces, DigitRun;
    var q := SkipBlanks(buf, p, line);
    var negative, start := buf[q] == '-', q;
    if buf[q] == '-' || buf[q] == '+' { start := q + 1; }
    n, e := ReadDigits(buf, start, line);
    if e == start { return 0, p; }
    if n > ULONG_MAX { n := ULONG_MAX; }
    else if negative && n > 0 { n := ULONG_MAX + 1 - n; }
  }

  /** Assignment of an unsigned long to a 32-bit id. */
  function ToId(n: nat): (id: nat)
    ensures id < UINT_SIZE
  {
    n % UINT_SIZE
  }

  // ---------------------------------------------------------------- pointers

  const ADDRESS_SIZE: nat := 8

  /** Addresses that fit a pointer. */
  predicate IsAddress(a: nat) {
    a <= ULONG_MAX
  }

  function Byte(c: char): nat {
    c as int % 256
  }

  /** The number whose bytes stand at p, least significant first. */
  function Load(mem: string, p: nat, n: nat): (a: nat)
    requires p + n <= |mem|
    decreases n
  {
    if n == 0 then 0 else Byte(mem[p]) + 256 * Load(mem, p + 1, n - 1)
  }

  function Power256(n: nat): nat {
    if n == 0 then 1 else 256 * Power256(n - 1)
  }

  lemma {:induction false} LoadSame(m: string, c: string, p: nat, n: nat)
    requires p + n <= |m| && p + n <= |c| && forall i :: p <= i < p + n ==> m[i] == c[i]
    ensures Load(m, p, n) == Load(c, p, n)
    decreases n
  {
    if n > 0 { LoadSame(m, c, p + 1, n - 1); }
  }

  function Pointer(mem: string, p: nat): nat
    requires p + ADDRESS_SIZE <= |mem|
  {
    Load(mem, p, ADDRESS_SIZE)
  }

  /** The bytes of a number, least significant first, read back. */
  method StoreBytes(buf: array<char>, p: nat, a: nat, n: nat)
    requires p + n <= buf.Length && a < Power256(n)
    modifies buf
    ensures Load(buf[..], p, n) == a
    ensures forall i :: 0 <= i < buf.Length && !(p <= i < p + n) ==> buf[i] == old(buf[i])
    decreases n
  {
    if n > 0 {
      StoreBytes(buf, p + 1, a / 256, n - 1);
      ghost var mid := buf[..];
      buf[p] := (a % 256) as char;
      LoadSame(mid, buf[..], p + 1, n - 1);
    }
  }

  method Store(buf: array<char>, p: nat, a: nat)
    requires p + ADDRESS_SIZE <= buf.Length && IsAddress(a)
    modifies buf
    ensures Pointer(buf[..], p) == a
    ensures forall i :: 0 <= i < buf.Length && !(p <= i < p + ADDRESS_SIZE) ==> buf[i] == old(buf[i])
  {
    assert Power256(8) == 0x1_0000_0000_0000_0000 by { assert Power256(4) == 0x1_0000_0000; }
    StoreBytes(buf, p, a, ADDRESS_SIZE);
  }
}
