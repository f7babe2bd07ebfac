/**
 * The read buffer of one connection: what connection_cb does on each readiness event.
 * A read adds bytes; the parser's stopping point decides between waiting, serving a request and giving up.
 */
module Connection {
  import opened Json
  import opened JsonText
  import opened JsonPlace
  import opened JsonPrefix
  import opened JsonPlain
  import opened JsonRoundTrip
  import opened JsonNode
  import opened JsonParser
  import opened CMemory
  import opened Sequences

  const FIRST_SIZE: nat := 1500

  /** The memory of the buffer and how many bytes of it have been received. */
  datatype Buffer = Buffer(mem: string, pos: nat)

  /** What read returns. `beyond` is the byte that memmove finds just past the buffer, should it look there. */
  datatype Input = ReadError | EndOfFile | Bytes(chunk: string, beyond: char)

  /** Lost: the parser, or memmove before it, has left the buffer without a terminator to stop at. */
  datatype Event = Waiting | Served(root: Value) | Refused | Closed | Lost

  predicate IsSize(n: nat) {
    n == FIRST_SIZE || (n > FIRST_SIZE && n % 2 == 0 && IsSize(n / 2))
  }

  predicate Zeros(mem: string, p: nat) {
    forall i :: p <= i < |mem| ==> mem[i] == NUL
  }

  /** Room for a terminator after what was received, and nothing but terminators there. */
  predicate Valid(b: Buffer) {
    IsSize(|b.mem|) && b.pos < |b.mem| && Zeros(b.mem, b.pos)
  }

  /** The least that keeps the code inside its buffer. */
  predicate InBuffer(b: Buffer) {
    |b.mem| >= FIRST_SIZE && b.pos < |b.mem|
  }

  lemma SizeIsLarge(n: nat)
    requires IsSize(n)
    ensures n >= FIRST_SIZE && IsSize(2 * n)
  {
  }

  function Fill(n: nat): (s: string)
    ensures |s| == n && Zeros(s, 0)
  {
    Repeat(n, NUL)
  }

  // ---------------------------------------------------------------- the steps of connection_cb

  function Grow(b: Buffer): (g: Buffer)
    requires InBuffer(b)
    ensures InBuffer(g) && g.pos == b.pos && g.mem[..b.pos] == b.mem[..b.pos] && Room(g) >= 1
  {
    if b.pos == |b.mem| - 1 then Buffer(b.mem[..b.pos] + Fill(2 * |b.mem| - b.pos), b.pos) else b
  }

  /** max_read_size */
  function Room(b: Buffer): int {
    |b.mem| - b.pos - 1
  }

  predicate Fits(b: Buffer, i: Input) {
    InBuffer(b) && (i.Bytes? ==> 1 <= |i.chunk| <= Room(Grow(b)))
  }

  function Receive(b: Buffer, chunk: string): (r: Buffer)
    requires InBuffer(b) && |chunk| <= Room(b)
    ensures InBuffer(r) && |r.mem| == |b.mem| && r.pos == b.pos + |chunk|
  {
    Buffer(b.mem[..b.pos] + chunk + b.mem[b.pos + |chunk|..], b.pos + |chunk|)
  }

  /** memmove of the bytes from e on, one more than the terminator. */
  function Move(mem: string, e: nat, beyond: char): (moved: string)
    requires Terminated(mem) && 1 <= e < |mem| && |mem| >= FIRST_SIZE
    ensures |moved| == |mem| && HasEnd(moved, e)
  {
    var n := StrLen(mem, e) + 2;
    var moved := (mem + [beyond])[e..e + n] + mem[n..];
    MovedEnds(mem, e, beyond, moved);
    moved
  }

  lemma MovedAt(mem: string, e: nat, beyond: char, moved: string, i: nat)
    requires Terminated(mem) && 1 <= e < |mem| && i < |mem|
    requires var n := StrLen(mem, e) + 2; moved == (mem + [beyond])[e..e + n] + mem[n..]
    ensures |moved| == |mem|
    ensures moved[i] == if i >= StrLen(mem, e) + 2 then mem[i] else if e + i < |mem| then mem[e + i] else beyond
  {
    var n, src := StrLen(mem, e) + 2, mem + [beyond];
    hide StrLen;
    Seam(src[e..e + n], mem[n..]);
    if i < n {
      assert moved[i] == src[e..e + n][i] == src[e + i];
    } else {
      assert moved[i] == moved[n..][i - n] == mem[n..][i - n];
    }
  }

  lemma MovedEnds(mem: string, e: nat, beyond: char, moved: string)
    requires Terminated(mem) && 1 <= e < |mem| && |mem| >= FIRST_SIZE
    requires var n := StrLen(mem, e) + 2; moved == (mem + [beyond])[e..e + n] + mem[n..]
    ensures |moved| == |mem| && HasEnd(moved, e)
  {
    var n := StrLen(mem, e);
    var i := if e <= n then n else |mem| - 1;
    MovedAt(mem, e, beyond, moved, i);
    assert moved[i] == NUL;
  }

  /** Drops the e bytes of a request: the rest is moved to the front, measured where it stood, and cleared after. */
  function Shift(mem: string, e: nat, beyond: char): (b: Buffer)
    requires Terminated(mem) && 1 <= e < |mem| && |mem| >= FIRST_SIZE
    ensures InBuffer(b) && |b.mem| == |mem|
  {
    var moved := Move(mem, e, beyond);
    var n := StrLen(moved, e);
    Buffer(moved[..n] + Fill(|mem| - n - 1) + [moved[|mem| - 1]], n)
  }

  /** After the read: parse all that is there and act on where the parser stopped. */
  function React(b: Buffer, beyond: char): (r: (Buffer, Event))
    requires InBuffer(b)
    ensures InBuffer(r.0) && |r.0.mem| == |b.mem|
  {
    if !Terminated(b.mem) then (b, Lost) else
    match ParseStream(b.mem)
    case Parsed(v, e) => (Shift(b.mem, e, beyond), Served(v))
    case Rejected(e) => (b, if e == b.pos then Waiting else Refused)
    case Undefined => (b, Lost)
  }

  function Step(b: Buffer, i: Input): (r: (Buffer, Event))
    requires Fits(b, i)
    ensures InBuffer(r.0)
  {
    match i
    case ReadError => (Grow(b), Closed)
    case EndOfFile => (Grow(b), Closed)
    case Bytes(chunk, beyond) => React(Receive(Grow(b), chunk), beyond)
  }

  // ---------------------------------------------------------------- what every step keeps

  lemma GrowKeeps(b: Buffer)
    requires Valid(b)
    ensures Valid(Grow(b)) && |Grow(b).mem| == if b.pos == |b.mem| - 1 then 2 * |b.mem| else |b.mem|
  {
    SizeIsLarge(|b.mem|);
  }

  lemma ReceiveKeeps(b: Buffer, chunk: string)
    requires Valid(b) && |chunk| <= Room(b)
    ensures InBuffer(b) && Valid(Receive(b, chunk)) && Terminated(Receive(b, chunk).mem)
    ensures Receive(b, chunk).mem[..b.pos + |chunk|] == b.mem[..b.pos] + chunk
  {
    SizeIsLarge(|b.mem|);
  }

  /** The request is one byte long and all the rest of a full buffer follows it. */
  predicate Overruns(mem: string, e: nat, beyond: char)
    requires Terminated(mem) && e < |mem|
  {
    e == 1 && StrLen(mem, 1) == |mem| - 2 && beyond != NUL
  }

  lemma MoveAt(mem: string, e: nat, beyond: char, i: nat)
    requires Terminated(mem) && 1 <= e < |mem| && |mem| >= FIRST_SIZE && i < |mem|
    ensures var n := StrLen(mem, e) + 2;
            Move(mem, e, beyond)[i] == if i >= n then mem[i] else if e + i < |mem| then mem[e + i] else beyond
  {
    hide StrLen;
    MovedAt(mem, e, beyond, Move(mem, e, beyond), i);
  }

  lemma ShiftAt(mem: string, e: nat, beyond: char, i: nat)
    requires Terminated(mem) && 1 <= e < |mem| && |mem| >= FIRST_SIZE && i < |mem|
    ensures var moved, s := Move(mem, e, beyond), Shift(mem, e, beyond);
            && s.pos == StrLen(moved, e)
            && s.mem[i] == if i < s.pos || i == |mem| - 1 then moved[i] else NUL
  {
    hide StrLen, Move;
  }

  lemma LastByte(mem: string, e: nat, beyond: char)
    requires Terminated(mem) && 1 <= e < |mem| && |mem| >= FIRST_SIZE
    ensures var last := |mem| - 1;
            Shift(mem, e, beyond).mem[last] == if e == 1 && StrLen(mem, 1) == last - 1 then beyond else NUL
  {
    hide Shift, Move, StrLen, HasEnd;
    ShiftAt(mem, e, beyond, |mem| - 1);
    MoveAt(mem, e, beyond, |mem| - 1);
  }

  lemma ShiftZeros(mem: string, e: nat, beyond: char)
    requires Terminated(mem) && 1 <= e < |mem| && |mem| >= FIRST_SIZE
    ensures var s := Shift(mem, e, beyond); Zeros(s.mem, s.pos) <==> s.mem[|mem| - 1] == NUL
  {
    hide Shift, Move, StrLen, HasEnd;
    var s := Shift(mem, e, beyond);
    forall i | s.pos <= i < |mem| - 1 ensures s.mem[i] == NUL {
      ShiftAt(mem, e, beyond, i);
    }
  }

  /** Dropping a request keeps the buffer well formed, unless memmove brings in a byte from past its end. */
  lemma ShiftKeeps(mem: string, e: nat, beyond: char)
    requires Terminated(mem) && 1 <= e < |mem| && IsSize(|mem|)
    ensures |mem| >= FIRST_SIZE
    ensures Valid(Shift(mem, e, beyond)) <==> !Overruns(mem, e, beyond)
  {
    SizeIsLarge(|mem|);
    hide Shift, StrLen, IsSize, HasEnd, Zeros;
    LastByte(mem, e, beyond);
    ShiftZeros(mem, e, beyond);
  }

  /**
   * How many bytes of the rest survive, whatever was received: the rest ends at its first NUL, and the moved copy of it
   * is measured at the place that it came from.
   */
  function KeptLength(mem: string, e: nat, beyond: char): nat
    requires Terminated(mem) && 1 <= e < |mem| && |mem| >= FIRST_SIZE
  {
    var rest := StrLen(mem, e);
    if rest + 2 <= e then rest
    else if rest >= e then rest - e
    else if (mem + [beyond])[2 * e] == NUL then 0
    else if rest > 0 then rest
    else 1 + StrLen(mem, 2)
  }

  /** Where the moved copy ends, as it is measured. */
  lemma MovedLength(mem: string, e: nat, beyond: char, q: nat)
    requires Terminated(mem) && 1 <= e < |mem| && |mem| >= FIRST_SIZE && e <= q < |mem|
    requires Move(mem, e, beyond)[q] == NUL && forall i :: e <= i < q ==> Move(mem, e, beyond)[i] != NUL
    ensures Shift(mem, e, beyond).pos == q - e
  {
    hide Shift, Move, StrLen, HasEnd;
    StrLenIs(Move(mem, e, beyond), e, q);
    ShiftAt(mem, e, beyond, 0);
  }

  lemma ShiftLength(mem: string, e: nat, beyond: char)
    requires Terminated(mem) && 1 <= e < |mem| && |mem| >= FIRST_SIZE
    ensures Shift(mem, e, beyond).pos == KeptLength(mem, e, beyond)
  {
    hide Shift, Move;
    var rest := StrLen(mem, e);
    hide HasEnd;
    var kept := KeptLength(mem, e, beyond);
    assert rest < e && kept > 0 ==> rest + 2 <= e || (mem + [beyond])[2 * e] != NUL;
    hide StrLen;
    if rest == 0 && kept > 0 {
      ZeroAndMore(mem, beyond);
    } else {
      var q := if rest >= e then rest else e + kept;
      forall i | e <= i <= q ensures Move(mem, e, beyond)[i] == NUL <==> i == q {
        MoveAt(mem, e, beyond, i);
      }
      MovedLength(mem, e, beyond, q);
    }
  }

  /** A request of one byte, a NUL, and more. */
  lemma ZeroAndMore(mem: string, beyond: char)
    requires Terminated(mem) && |mem| >= FIRST_SIZE && StrLen(mem, 1) == 0 && mem[2] != NUL
    ensures Shift(mem, 1, beyond).pos == 1 + StrLen(mem, 2)
  {
    hide Shift, Move;
    var q := 2 + StrLen(mem, 2);
    forall i | 1 <= i <= q ensures Move(mem, 1, beyond)[i] == NUL <==> i == q {
      MoveAt(mem, 1, beyond, i);
    }
    MovedLength(mem, 1, beyond, q);
  }

  /** The rest, if it has no NUL in it. */
  lemma PlainRest(b: Buffer, e: nat, beyond: char)
    requires Valid(b) && 1 <= e <= b.pos && NUL !in b.mem[e..b.pos]
    ensures Terminated(b.mem) && |b.mem| >= FIRST_SIZE && StrLen(b.mem, e) == b.pos - e
    ensures var rest := b.pos - e;
            KeptLength(b.mem, e, beyond) ==
              if rest == 0 || rest + 2 <= e || (rest + 1 == e && b.pos == |b.mem| - 1 && beyond != NUL) then rest
              else if rest > e then rest - e else 0
  {
    SizeIsLarge(|b.mem|);
    forall j | e <= j < b.pos ensures b.mem[j] != NUL { assert b.mem[j] == b.mem[e..b.pos][j - e]; }
    StrLenIs(b.mem, e, b.pos);
    hide StrLen, IsSize;
  }

  /**
   * The rest of the buffer, if no NUL is in it, is kept whole exactly when there is none, when it is at least two bytes
   * shorter than the request before it, or when it is one byte shorter, fills the buffer and no NUL follows.
   * Otherwise only a beginning of it is kept.
   */
  lemma RemainderKept(b: Buffer, e: nat, beyond: char)
    requires Valid(b) && 1 <= e <= b.pos && NUL !in b.mem[e..b.pos]
    ensures Terminated(b.mem) && |b.mem| >= FIRST_SIZE
    ensures var rest, s := b.pos - e, Shift(b.mem, e, beyond);
            && s.pos <= rest && s.mem[..s.pos] == b.mem[e..e + s.pos]
            && (s.pos == rest <==> rest == 0 || rest + 2 <= e || (rest + 1 == e && b.pos == |b.mem| - 1 && beyond != NUL))
  {
    hide Valid, Shift, Zeros, StrLen, IsSize;
    PlainRest(b, e, beyond);
    ShiftLength(b.mem, e, beyond);
    KeptInPlace(b.mem, e, beyond);
  }

  /** As much as is kept stands in front. */
  lemma KeptInPlace(mem: string, e: nat, beyond: char)
    requires Terminated(mem) && 1 <= e < |mem| && |mem| >= FIRST_SIZE
    ensures var s := Shift(mem, e, beyond);
            s.pos <= StrLen(mem, e) ==> e + s.pos < |mem| && s.mem[..s.pos] == mem[e..e + s.pos]
  {
    hide Shift, Move;
    var s, n := Shift(mem, e, beyond), StrLen(mem, e);
    hide StrLen, HasEnd;
    if s.pos <= n {
      forall i | 0 <= i < s.pos ensures s.mem[i] == mem[e + i] {
        ShiftAt(mem, e, beyond, i);
        MoveAt(mem, e, beyond, i);
      }
    }
  }

  /** Every step from a well-formed buffer, but for one overrun, leaves a well-formed buffer: twice as large if it was full. */
  lemma StepKeeps(b: Buffer, i: Input)
    requires Valid(b) && Fits(b, i)
    ensures |Step(b, i).0.mem| == if b.pos == |b.mem| - 1 then 2 * |b.mem| else |b.mem|
    ensures i.Bytes? ==> Terminated(Receive(Grow(b), i.chunk).mem)
    ensures Valid(Step(b, i).0) <==> !StepOverruns(b, i)
  {
    hide Grow, Receive, Shift, IsSize;
    GrowKeeps(b);
    if i.Bytes? {
      ReceiveKeeps(Grow(b), i.chunk);
      var r := Receive(Grow(b), i.chunk);
      if ParseStream(r.mem).Parsed? { ShiftKeeps(r.mem, ParseStream(r.mem).end, i.beyond); }
    }
  }

  /** The memory that the parser is given after a read: all bytes received and not served, and zeros. */
  function Received(b: Buffer, chunk: string): string
    requires Valid(b) && |chunk| <= Room(Grow(b))
  {
    var got := b.mem[..b.pos] + chunk;
    got + Fill((if b.pos == |b.mem| - 1 then 2 * |b.mem| else |b.mem|) - |got|)
  }

  lemma ReceivedIs(b: Buffer, chunk: string)
    requires Valid(b) && |chunk| <= Room(Grow(b))
    ensures Receive(Grow(b), chunk) == Buffer(Received(b, chunk), b.pos + |chunk|)
  {
    var g, r := Grow(b), Receive(Grow(b), chunk);
    GrowKeeps(b);
    hide IsSize, Grow;
    ReceiveKeeps(g, chunk);
    hide Receive;
    assert r.mem == r.mem[..r.pos] + r.mem[r.pos..];
    assert r.mem[r.pos..] == Fill(|r.mem| - r.pos);
  }

  /**
   * What a read leads to: the end of the connection if there are no more bytes; otherwise the parser decides, on just the
   * bytes received so far. Stopping behind the last of them means to wait, with all of them kept; stopping before, to refuse.
   */
  lemma StepDecides(b: Buffer, i: Input)
    requires Valid(b) && Fits(b, i)
    ensures !i.Bytes? ==> Step(b, i).1 == Closed
    ensures i.Bytes? ==>
              var mem, n, r := Received(b, i.chunk), b.pos + |i.chunk|, Step(b, i);
              && Terminated(mem)
              && (ParseStream(mem).Parsed? <==> r.1.Served?)
              && (r.1.Served? ==> r.1.root == ParseStream(mem).value)
              && (r.1 == Waiting <==> ParseStream(mem) == Rejected(n))
              && (r.1 == Refused <==> ParseStream(mem).Rejected? && ParseStream(mem).end != n)
              && (r.1 == Waiting || r.1 == Refused ==> r.0 == Buffer(mem, n))
  {
    hide Grow, Receive, Received, Shift, IsSize, Zeros, ParseStream;
    if i.Bytes? {
      ReceivedIs(b, i.chunk);
      StepKeeps(b, i);
    }
  }

  predicate StepOverruns(b: Buffer, i: Input)
    requires Fits(b, i)
  {
    i.Bytes? &&
    var mem := Receive(Grow(b), i.chunk).mem;
    Terminated(mem) && ParseStream(mem).Parsed? && Overruns(mem, ParseStream(mem).end, i.beyond)
  }

  // ---------------------------------------------------------------- runs

  predicate IsFinal(ev: Event) {
    ev == Closed || ev == Refused || ev == Lost
  }

  /** Every read of the run brings at least a byte and no more than was asked for. */
  predicate Playable(b: Buffer, inputs: seq<Input>)
    decreases |inputs|
  {
    inputs != [] ==>
      && Fits(b, inputs[0])
      && (IsFinal(Step(b, inputs[0]).1) || Playable(Step(b, inputs[0]).0, inputs[1..]))
  }

  /** The buffer and the events of a run; nothing is read once the connection is closed. */
  function Run(b: Buffer, inputs: seq<Input>): (r: (Buffer, seq<Event>))
    requires Playable(b, inputs)
    decreases |inputs|
  {
    if inputs == [] then (b, []) else
    var (b1, ev) := Step(b, inputs[0]);
    if IsFinal(ev) then (b1, [ev]) else
    var (b2, evs) := Run(b1, inputs[1..]);
    (b2, [ev] + evs)
  }

  predicate NoOverrun(b: Buffer, inputs: seq<Input>)
    requires Playable(b, inputs)
    decreases |inputs|
  {
    inputs != [] ==>
      && !StepOverruns(b, inputs[0])
      && (IsFinal(Step(b, inputs[0]).1) || NoOverrun(Step(b, inputs[0]).0, inputs[1..]))
  }

  /** Over every run from the fresh buffer, the buffer stays well formed as long as no step overruns. */
  lemma {:induction false} RunKeeps(b: Buffer, inputs: seq<Input>)
    requires Valid(b) && Playable(b, inputs) && NoOverrun(b, inputs)
    ensures Valid(Run(b, inputs).0)
    decreases |inputs|
  {
    hide Step, Valid, Fits, StepOverruns;
    if inputs != [] {
      StepKeeps(b, inputs[0]);
      if !IsFinal(Step(b, inputs[0]).1) { RunKeeps(Step(b, inputs[0]).0, inputs[1..]); }
    }
  }

  /** No step overruns while a NUL stands behind the buffer. */
  lemma {:induction false} NulBehind(b: Buffer, inputs: seq<Input>)
    requires Playable(b, inputs) && forall i :: i in inputs && i.Bytes? ==> i.beyond == NUL
    ensures NoOverrun(b, inputs)
    decreases |inputs|
  {
    hide Step, Fits;
    if inputs != [] {
      assert inputs[0] in inputs;
      if !IsFinal(Step(b, inputs[0]).1) { NulBehind(Step(b, inputs[0]).0, inputs[1..]); }
    }
  }

  // ---------------------------------------------------------------- one request in many reads

  /** The first k bytes of a request have been received and kept. */
  predicate Holds(b: Buffer, t: string, k: nat)
    ensures Holds(b, t, k) ==> b.pos == k <= |t|
  {
    Valid(b) && b.pos == k <= |t| && b.mem[..k] == t[..k]
  }

  predicate IsRequest(t: string, v: Value) {
    ParseStream(t + [NUL]) == Parsed(v, |t|) && IsContainer(v)
  }

  lemma HeldIsCut(b: Buffer, t: string, k: nat)
    requires Holds(b, t, k)
    ensures CutAt(t + [NUL], b.mem, k)
  {
    forall i | 0 <= i < k ensures b.mem[i] == (t + [NUL])[i] {
      assert b.mem[i] == b.mem[..k][i] == t[..k][i];
    }
  }

  /** A read that brings more of the request, but not all. */
  lemma ReadMore(b: Buffer, t: string, v: Value, k: nat, j: nat, beyond: char)
    requires Holds(b, t, k) && IsRequest(t, v) && k < j < |t| && Fits(b, Bytes(t[k..j], beyond))
    ensures var (b1, ev) := Step(b, Bytes(t[k..j], beyond));
            && Holds(b1, t, j)
            && (ev == Waiting || ev == Refused || ev == Lost)
            && (ev == Waiting <==> CleanCut(t + [NUL], j))
  {
    hide ParseStream, Grow, Receive, CleanCut, IsSize, IsContainer;
    GrowKeeps(b);
    var r := Receive(Grow(b), t[k..j]);
    ReceiveKeeps(Grow(b), t[k..j]);
    assert t[..k] + t[k..j] == t[..j];
    HeldIsCut(r, t, j);
    BeginningsWait(t + [NUL], r.mem, j);
  }

  lemma ContainerIsLong(mem: string, p: nat)
    requires Terminated(mem) && p < |mem| && ValueAt(mem, p).Parsed? && IsContainer(ValueAt(mem, p).value)
    ensures ValueAt(mem, p).end >= p + 2
  {
    hide ItemsAt, MembersAt, Skip, NumberAt, StringAt, Compare;
  }

  /** Everything received is dropped. */
  lemma ShiftAll(b: Buffer, beyond: char)
    requires Valid(b) && b.pos >= 2
    ensures Terminated(b.mem) && |b.mem| >= FIRST_SIZE && Holds(Shift(b.mem, b.pos, beyond), "", 0)
  {
    SizeIsLarge(|b.mem|);
    hide Shift, Move, StrLen, IsSize, HasEnd;
    StrLenIs(b.mem, b.pos, b.pos);
    MoveAt(b.mem, b.pos, beyond, b.pos);
    StrLenIs(Move(b.mem, b.pos, beyond), b.pos, b.pos);
    ShiftAt(b.mem, b.pos, beyond, b.pos);
    ShiftKeeps(b.mem, b.pos, beyond);
  }

  /** The read that brings the last byte of the request. */
  lemma ReadLast(b: Buffer, t: string, v: Value, k: nat, beyond: char)
    requires Holds(b, t, k) && IsRequest(t, v) && k < |t| && Fits(b, Bytes(t[k..], beyond))
    ensures var (b1, ev) := Step(b, Bytes(t[k..], beyond)); ev == Served(v) && Holds(b1, "", 0)
  {
    hide ValueAt, Grow, Receive, CleanCut, IsSize, Shift, StrLen, IsContainer, Skip;
    GrowKeeps(b);
    var r := Receive(Grow(b), t[k..]);
    ReceiveKeeps(Grow(b), t[k..]);
    assert t[..k] + t[k..] == t[..|t|];
    HeldIsCut(r, t, |t|);
    BeginningsWait(t + [NUL], r.mem, |t|);
    ContainerIsLong(r.mem, Skip(r.mem, 0));
    ShiftAll(r, beyond);
  }

  predicate AllBytes(inputs: seq<Input>) {
    forall i :: i in inputs ==> i.Bytes?
  }

  /** The bytes of a run of reads. */
  function Joined(inputs: seq<Input>): string
    requires AllBytes(inputs)
  {
    if inputs == [] then "" else inputs[0].chunk + Joined(inputs[1..])
  }

  /** Every read but the last leaves the request cut at a clean place. */
  predicate CleanReads(t: string, k: nat, inputs: seq<Input>)
    requires AllBytes(inputs)
    requires k + |Joined(inputs)| <= |t|
    decreases |inputs|
  {
    |inputs| > 1 ==>
      CleanCut(t + [NUL], k + |inputs[0].chunk|) && CleanReads(t, k + |inputs[0].chunk|, inputs[1..])
  }

  function WaitsThen(n: nat, v: Value): seq<Event> {
    seq(n, _ => Waiting) + [Served(v)]
  }

  /**
   * A request, whatever the reads it comes in: it is served exactly once, by the read that brings its last byte,
   * after waiting at all reads before, if and only if those reads end at clean places. Otherwise it is never served.
   */
  lemma {:induction false} AnyReads(b: Buffer, t: string, v: Value, k: nat, inputs: seq<Input>)
    requires Holds(b, t, k) && IsRequest(t, v) && inputs != [] && Playable(b, inputs)
    requires AllBytes(inputs) && Joined(inputs) == t[k..]
    ensures CleanReads(t, k, inputs) ==> Run(b, inputs).1 == WaitsThen(|inputs| - 1, v) && Holds(Run(b, inputs).0, "", 0)
    ensures !CleanReads(t, k, inputs) ==> forall ev :: ev in Run(b, inputs).1 ==> !ev.Served?
    decreases |inputs|
  {
    hide Step, Holds, IsRequest, CleanCut, Fits;
    var c, rest := inputs[0].chunk, inputs[1..];
    var j := k + |c|;
    OneChunk(b, t, k, inputs);
    if j == |t| {
      assert c == t[k..];
      ReadLast(b, t, v, k, inputs[0].beyond);
      if rest != [] { OneChunk(Step(b, inputs[0]).0, t, j, rest); }
      assert Run(b, inputs).1 == [Served(v)];
    } else {
      ReadMore(b, t, v, k, j, inputs[0].beyond);
      if CleanCut(t + [NUL], j) {
        AnyReads(Step(b, inputs[0]).0, t, v, j, rest);
        assert [Waiting] + WaitsThen(|rest| - 1, v) == WaitsThen(|inputs| - 1, v);
      }
    }
  }

  lemma {:induction false} PlainReads(t: string, k: nat, inputs: seq<Input>)
    requires Plain(t, false) && AllBytes(inputs) && k + |Joined(inputs)| <= |t|
    ensures CleanReads(t, k, inputs)
    decreases |inputs|
  {
    if |inputs| > 1 {
      PlainIsClean(t, k + |inputs[0].chunk|);
      PlainReads(t, k + |inputs[0].chunk|, inputs[1..]);
    }
  }

  /**
   * A printed request of numbers, strings without escapes, arrays and objects, in whatever reads it comes:
   * it waits at every read but the last, and is then served once, as the value that was printed.
   */
  lemma PrintedRequestServed(b: Buffer, v: Value, fmt: bool, inputs: seq<Input>)
    requires Printable(v) && PlainValue(v) && IsContainer(v)
    requires Holds(b, Print(v, 0, fmt), 0) && inputs != [] && Playable(b, inputs)
    requires AllBytes(inputs) && Joined(inputs) == Print(v, 0, fmt)
    ensures Run(b, inputs).1 == WaitsThen(|inputs| - 1, v) && Holds(Run(b, inputs).0, "", 0)
  {
    hide Holds, Run, Playable, Print, Printable, PlainValue, IsContainer, CleanReads, ParseStream, Plain;
    var t := Print(v, 0, fmt);
    PrintThenParse(v, fmt, [NUL]);
    PlainPrint(v, 0, fmt);
    PlainReads(t, 0, inputs);
    assert t[0..] == t;
    AnyReads(b, t, v, 0, inputs);
  }

  lemma OneChunk(b: Buffer, t: string, k: nat, inputs: seq<Input>)
    requires k <= |t| && inputs != [] && Playable(b, inputs)
    requires AllBytes(inputs) && Joined(inputs) == t[k..]
    ensures var j := k + |inputs[0].chunk|;
            k < j <= |t| && Fits(b, inputs[0]) && inputs[0].chunk == t[k..j] && Joined(inputs[1..]) == t[j..]
  {
    hide Step;
    var j := k + |inputs[0].chunk|;
    assert t[k..][..j - k] == t[k..j] && t[k..][j - k..] == t[j..];
  }

  // ---------------------------------------------------------------- the callback itself

  lemma TerminatedEnds(mem: string, p: nat)
    requires Terminated(mem) && p < |mem|
    ensures HasEnd(mem, p)
  {
  }

  class Reader {
    var buffer: array<char>
    var pos: nat
    var open: bool

    ghost function State(): Buffer
      reads this, buffer
    {
      Buffer(buffer[..], pos)
    }

    /** As async_cb sets a new connection up. */
    constructor ()
      ensures fresh(buffer) && open && State() == Buffer(Fill(1500), 0) && Valid(State())
    {
      buffer := new char[FIRST_SIZE](_ => NUL);
      pos, open := 0, true;
      new;
      assert buffer[..] == Fill(1500);
    }

    /** realloc and memset */
    method MakeRoom()
      requires InBuffer(State())
      modifies this`buffer
      ensures State() == Grow(old(State())) && (buffer == old(buffer) || fresh(buffer))
    {
      var n, was := pos, buffer;
      if n == was.Length - 1 {
        var doubled := new char[2 * was.Length](_ => NUL);
        for i := 0 to n
          invariant doubled[..i] == was[..i]
          invariant forall j :: n <= j < doubled.Length ==> doubled[j] == NUL
        {
          doubled[i] := was[i];
        }
        buffer := doubled;
        assert buffer[..] == was[..n] + Fill(2 * was.Length - n);
      }
    }

    /** read */
    method Take(chunk: string)
      requires InBuffer(State()) && |chunk| <= Room(State())
      modifies this`pos, buffer
      ensures State() == Receive(old(State()), chunk)
    {
      var n := pos;
      for i := 0 to |chunk|
        invariant forall j :: 0 <= j < buffer.Length ==> buffer[j] == if n <= j < n + i then chunk[j - n] else old(buffer[j])
      {
        buffer[n + i] := chunk[i];
      }
      pos := n + |chunk|;
      assert buffer[..] == Receive(old(State()), chunk).mem;
    }

    method Length(p: nat) returns (n: nat)
      requires HasEnd(buffer[..], p)
      ensures n == StrLen(buffer[..], p)
    {
      n := 0;
      while buffer[p + n] != NUL
        invariant p + n < buffer.Length && HasEnd(buffer[..], p + n)
        invariant n + StrLen(buffer[..], p + n) == StrLen(buffer[..], p)
        decreases buffer.Length - n
      {
        n := n + 1;
      }
    }

    /** memmove, the second strlen, and memset */
    method Drop(e: nat, beyond: char)
      requires Terminated(buffer[..]) && 1 <= e < buffer.Length && buffer.Length >= FIRST_SIZE
      modifies this`pos, buffer
      ensures State() == Shift(old(buffer[..]), e, beyond)
    {
      hide StrLen, HasEnd, IsSize, Move;
      ghost var mem := buffer[..];
      TerminatedEnds(mem, e);
      var l := Length(e);
      MoveDown(e, l + 2, beyond);
      var n := Length(e);
      Clear(n);
      pos := n;
    }

    method MoveDown(e: nat, n: nat, beyond: char)
      requires Terminated(buffer[..]) && 1 <= e < buffer.Length && buffer.Length >= FIRST_SIZE
      requires n == StrLen(buffer[..], e) + 2
      modifies buffer
      ensures buffer[..] == Move(old(buffer[..]), e, beyond)
    {
      hide StrLen, HasEnd, IsSize, Move;
      ghost var mem := buffer[..];
      for i := 0 to n
        invariant forall j :: i <= j < buffer.Length ==> buffer[j] == mem[j]
        invariant forall j :: 0 <= j < i ==> buffer[j] == if e + j < |mem| then mem[e + j] else beyond
      {
        buffer[i] := if e + i < buffer.Length then buffer[e + i] else beyond;
      }
      forall j | 0 <= j < buffer.Length ensures buffer[j] == Move(mem, e, beyond)[j] { MoveAt(mem, e, beyond, j); }
    }

    method Clear(n: nat)
      requires n < buffer.Length
      modifies buffer
      ensures var mem := old(buffer[..]);
              buffer[..] == mem[..n] + Fill(buffer.Length - n - 1) + [mem[buffer.Length - 1]]
    {
      for i := n to buffer.Length - 1
        invariant forall j :: 0 <= j < buffer.Length ==> buffer[j] == if n <= j < i then NUL else old(buffer[j])
      {
        buffer[i] := NUL;
      }
    }

    /**
     * The reading half of connection_cb: a parsed tree is handed to the caller, who is also told when the text is
     * given up; the connection is closed by clearing `open`.
     */
    method OnReadable(i: Input, heap: Heap) returns (root: Node?, refused: bool, ghost ev: Event)
      requires open && Fits(State(), i)
      modifies this, buffer, heap
      ensures (State(), ev) == Step(old(State()), i)
      ensures (root != null <==> ev.Served?) && (refused <==> ev == Refused) && (ev != Lost ==> (open <==> !IsFinal(ev)))
      ensures ev.Served? ==> root.Valid() && root.Shows(ev.root) && fresh(root.repr) && root.next == null
      ensures ev != Lost ==> heap.live == old(heap.live) + (if root == null then {} else root.repr)
    {
      hide Grow, Receive, Shift, ParseStream, IsSize, Node.Valid, Node.Shows, StrLen, HasEnd;
      root, refused := null, false;
      MakeRoom();
      if !i.Bytes? {
        open, ev := false, Closed;
        return;
      }
      Take(i.chunk);
      ghost var b := State();
      ev := React(b, i.beyond).1;
      if buffer[buffer.Length - 1] != NUL { return; }
      var s, tree, e := ParseStreamInto(buffer[..], heap);
      if s == Done {
        root := tree;
        Drop(e, i.beyond);
      } else if s == Failed && e != pos {
        open, refused := false, true;
      }
    }
  }
}
