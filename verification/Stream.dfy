/** A client that sends one request after another: which reads lose nothing, and what is served then. */
module Stream {
  import opened Json
  import opened JsonText
  import opened JsonAppend
  import opened JsonPlace
  import opened JsonPlain
  import opened JsonRoundTrip
  import opened CMemory
  import opened Connection

  /** A request and its text. */
  datatype Message = Message(text: string, value: Value)

  predicate IsMessage(m: Message) {
    IsRequest(m.text, m.value) && NUL !in m.text
  }

  predicate AllMessages(ms: seq<Message>) {
    forall i :: 0 <= i < |ms| ==> IsMessage(ms[i])
  }

  function Concat(ms: seq<Message>): string {
    if ms == [] then "" else ms[0].text + Concat(ms[1..])
  }

  function ValuesOf(ms: seq<Message>): seq<Value> {
    if ms == [] then [] else [ms[0].value] + ValuesOf(ms[1..])
  }

  lemma MessageIsLong(m: Message)
    requires IsMessage(m)
    ensures |m.text| >= 2
  {
    hide ValueAt, Skip;
    ContainerIsLong(m.text + [NUL], Skip(m.text + [NUL], 0));
  }

  /** How much of the bytes after a request of e bytes outlives it. */
  predicate Spared(b: Buffer, e: nat, beyond: char)
    requires e <= b.pos
  {
    var rest := b.pos - e;
    rest == 0 || rest + 2 <= e || (rest + 1 == e && b.pos == |b.mem| - 1 && beyond != NUL)
  }

  /** The buffer after the read. */
  function Filled(b: Buffer, i: Input): Buffer
    requires i.Bytes? && Fits(b, i)
  {
    Receive(Grow(b), i.chunk)
  }

  /**
   * A read that does no harm while the request of text t is the first one not served yet: it leaves it cut
   * at a clean place, or completes it and brings few enough bytes of what comes after it.
   */
  predicate Fine(b: Buffer, t: string, i: Input)
    requires i.Bytes? && Fits(b, i)
  {
    var r := Filled(b, i);
    if r.pos < |t| then CleanCut(t + [NUL], r.pos) else Spared(r, |t|, i.beyond)
  }

  // ---------------------------------------------------------------- one read

  lemma ConcatHead(ms: seq<Message>, k: nat)
    requires ms != [] && k <= |Concat(ms)|
    ensures k <= |ms[0].text| ==> Concat(ms)[..k] == ms[0].text[..k]
    ensures k >= |ms[0].text| ==> Concat(ms)[..k] == ms[0].text + Concat(ms[1..])[..k - |ms[0].text|]
  {
  }

  /** The read leaves the first request incomplete. */
  lemma ReadPart(b: Buffer, ms: seq<Message>, k: nat, i: Input)
    requires AllMessages(ms) && ms != [] && Holds(b, Concat(ms), k) && i.Bytes? && Fits(b, i)
    requires k + |i.chunk| <= |Concat(ms)| && i.chunk == Concat(ms)[k..k + |i.chunk|] && k + |i.chunk| < |ms[0].text|
    ensures var (b1, ev) := Step(b, i);
            && Holds(b1, Concat(ms), k + |i.chunk|)
            && (ev == Waiting || ev == Refused || ev == Lost) && (ev == Waiting <==> Fine(b, ms[0].text, i))
  {
    hide IsRequest, Grow, Receive, Step, CleanCut, Fits, Concat, IsSize;
    var t, j := ms[0].text, k + |i.chunk|;
    ConcatHead(ms, k);
    ConcatHead(ms, j);
    assert Concat(ms)[..j][k..] == i.chunk && t[..j][k..] == t[k..j];
    FilledPos(b, i);
    ReadMore(b, t, ms[0].value, k, j, i.beyond);
    HeldOn(Step(b, i).0, t, Concat(ms), j);
  }

  lemma FilledPos(b: Buffer, i: Input)
    requires i.Bytes? && Fits(b, i)
    ensures Filled(b, i).pos == b.pos + |i.chunk| && |i.chunk| >= 1
  {
  }

  lemma HeldOn(b: Buffer, t: string, s: string, k: nat)
    requires Holds(b, t, k) && k <= |s| && s[..k] == t[..k]
    ensures Holds(b, s, k)
  {
    hide IsSize;
  }

  /** What the buffer holds after the read. */
  lemma FilledHolds(b: Buffer, s: string, k: nat, i: Input)
    requires Holds(b, s, k) && i.Bytes? && Fits(b, i) && k + |i.chunk| <= |s| && i.chunk == s[k..k + |i.chunk|]
    ensures Holds(Filled(b, i), s, k + |i.chunk|) && Terminated(Filled(b, i).mem)
    ensures Step(b, i) == React(Filled(b, i), i.beyond)
  {
    hide Grow, Receive, React, IsSize, Zeros;
    GrowKeeps(b);
    ReceiveKeeps(Grow(b), i.chunk);
    assert s[..k] + s[k..k + |i.chunk|] == s[..k + |i.chunk|];
  }

  /** A buffer that starts with a whole request is served as that request, whatever stands behind it. */
  lemma ServesFirst(r: Buffer, m: Message, beyond: char)
    requires IsMessage(m) && Valid(r) && |m.text| <= r.pos && r.mem[..|m.text|] == m.text && Terminated(r.mem)
    ensures InBuffer(r) && |m.text| >= 2
    ensures React(r, beyond) == (Shift(r.mem, |m.text|, beyond), Served(m.value))
  {
    hide ParseStream, Shift, Zeros, IsContainer;
    MessageIsLong(m);
    SizeIsLarge(|r.mem|);
    hide IsSize;
    assert r.mem == m.text + r.mem[|m.text|..];
    ContainerIsLocal(m.text, m.value, r.mem[|m.text|..]);
  }

  lemma TailIn(mem: string, k: nat, j: nat, c: char)
    requires k <= j <= |mem|
    ensures c in mem[k..j] ==> c in mem[..j]
  {
    if c in mem[k..j] {
      var i :| 0 <= i < j - k && mem[k..j][i] == c;
      assert mem[..j][k + i] == c;
    }
  }

  lemma BehindText(mem: string, p: nat, t: string, s: string)
    requires |t| <= p <= |mem| && p - |t| <= |s| && mem[..p] == t + s[..p - |t|]
    ensures mem[|t|..p] == s[..p - |t|]
  {
    assert mem[|t|..p] == mem[..p][|t|..];
  }

  /** After it is served, the rest is held exactly if it is spared; otherwise bytes are missing. */
  lemma RestHeld(r: Buffer, t: string, s: string, beyond: char)
    requires Valid(r) && Terminated(r.mem) && NUL !in r.mem[..r.pos] && 2 <= |t| <= r.pos
    requires r.pos - |t| <= |s| && r.mem[..r.pos] == t + s[..r.pos - |t|]
    ensures |r.mem| >= FIRST_SIZE
    ensures Spared(r, |t|, beyond) ==> Holds(Shift(r.mem, |t|, beyond), s, r.pos - |t|)
    ensures !Spared(r, |t|, beyond) ==> Shift(r.mem, |t|, beyond).pos < r.pos - |t|
  {
    hide Shift, IsSize, Zeros, StrLen;
    TailIn(r.mem, |t|, r.pos, NUL);
    RemainderKept(r, |t|, beyond);
    ShiftKeeps(r.mem, |t|, beyond);
    BehindText(r.mem, r.pos, t, s);
  }

  lemma {:induction false} NoNul(ms: seq<Message>)
    requires AllMessages(ms)
    ensures NUL !in Concat(ms)
  {
    hide IsRequest;
    if ms != [] { NoNul(ms[1..]); }
  }

  /** A buffer that holds the first request and some of what follows. */
  lemma WholeHeld(r: Buffer, ms: seq<Message>, j: nat)
    requires AllMessages(ms) && ms != [] && Holds(r, Concat(ms), j) && |ms[0].text| <= j
    ensures Valid(r) && r.pos == j && j <= |r.mem| && j - |ms[0].text| <= |Concat(ms[1..])|
    ensures r.mem[..|ms[0].text|] == ms[0].text && NUL !in r.mem[..r.pos]
    ensures r.mem[..r.pos] == ms[0].text + Concat(ms[1..])[..j - |ms[0].text|]
  {
    hide IsRequest, IsSize, Zeros;
    NoNul(ms);
    ConcatHead(ms, j);
    var t := ms[0].text;
    assert r.mem[..|t|] == r.mem[..j][..|t|];
  }

  /** The read completes the first request, or it was complete already. */
  lemma ReadWhole(b: Buffer, ms: seq<Message>, k: nat, i: Input)
    requires AllMessages(ms) && ms != [] && Holds(b, Concat(ms), k) && i.Bytes? && Fits(b, i)
    requires k + |i.chunk| <= |Concat(ms)| && i.chunk == Concat(ms)[k..k + |i.chunk|] && k + |i.chunk| >= |ms[0].text|
    ensures var (b1, ev), rest := Step(b, i), k + |i.chunk| - |ms[0].text|;
            && ev == Served(ms[0].value)
            && (if Fine(b, ms[0].text, i) then Holds(b1, Concat(ms[1..]), rest) else b1.pos < rest)
  {
    hide *;
    var t, j, r := ms[0].text, k + |i.chunk|, Filled(b, i);
    FilledHolds(b, Concat(ms), k, i);
    WholeHeld(r, ms, j);
    FirstIsMessage(ms);
    ServesFirst(r, ms[0], i.beyond);
    RestHeld(r, t, Concat(ms[1..]), i.beyond);
    FineIs(b, t, i);
  }

  lemma FirstIsMessage(ms: seq<Message>)
    requires AllMessages(ms) && ms != []
    ensures IsMessage(ms[0]) && AllMessages(ms[1..])
  {
    hide IsMessage;
  }

  lemma FineIs(b: Buffer, t: string, i: Input)
    requires i.Bytes? && Fits(b, i) && |t| <= Filled(b, i).pos
    ensures Fine(b, t, i) <==> Spared(Filled(b, i), |t|, i.beyond)
  {
  }

  // ---------------------------------------------------------------- a run of reads

  function ServedOf(evs: seq<Event>): seq<Value> {
    if evs == [] then [] else (if evs[0].Served? then [evs[0].root] else []) + ServedOf(evs[1..])
  }

  /**
   * After `total` bytes of the stream: the connection is open, the requests served are the first ones in order, each
   * once, and the buffer holds the bytes from there on. Nothing is lost, doubled or out of place.
   */
  predicate Law(ms: seq<Message>, total: nat, b: Buffer, evs: seq<Event>) {
    var n := |ServedOf(evs)|;
    && (forall i :: 0 <= i < |evs| ==> !IsFinal(evs[i]))
    && n <= |ms| && ServedOf(evs) == ValuesOf(ms[..n])
    && |Concat(ms[..n])| <= total && Holds(b, Concat(ms[n..]), total - |Concat(ms[..n])|)
  }

  predicate LawAfter(b: Buffer, ms: seq<Message>, k: nat, inputs: seq<Input>)
    requires Playable(b, inputs) && AllBytes(inputs)
  {
    Law(ms, k + |Joined(inputs)|, Run(b, inputs).0, Run(b, inputs).1)
  }

  /** Every read of the run does no harm. */
  predicate Smooth(b: Buffer, ms: seq<Message>, k: nat, inputs: seq<Input>)
    requires Playable(b, inputs) && AllBytes(inputs)
    decreases |inputs|
  {
    inputs != [] ==>
      var (b1, ev), j := Step(b, inputs[0]), k + |inputs[0].chunk|;
      && ms != [] && Fine(b, ms[0].text, inputs[0]) && !IsFinal(ev)
      && if j < |ms[0].text| then Smooth(b1, ms, j, inputs[1..]) else Smooth(b1, ms[1..], j - |ms[0].text|, inputs[1..])
  }

  lemma LawWaits(ms: seq<Message>, total: nat, b: Buffer, ev: Event, evs: seq<Event>)
    requires ev == Waiting
    ensures Law(ms, total, b, [ev] + evs) <==> Law(ms, total, b, evs)
  {
    hide Holds, Concat;
    var all := [ev] + evs;
    assert all[1..] == evs && forall i :: 0 < i < |all| ==> all[i] == evs[i - 1];
    assert forall i :: 0 <= i < |evs| ==> evs[i] == all[i + 1];
  }

  lemma ServedMore(ev: Event, evs: seq<Event>)
    requires ev.Served?
    ensures ServedOf([ev] + evs) == [ev.root] + ServedOf(evs)
    ensures (forall i :: 0 <= i < |[ev] + evs| ==> !IsFinal(([ev] + evs)[i])) <==> (forall i :: 0 <= i < |evs| ==> !IsFinal(evs[i]))
  {
    var all := [ev] + evs;
    assert all[1..] == evs && forall i :: 0 < i < |all| ==> all[i] == evs[i - 1];
    assert forall i :: 0 <= i < |evs| ==> evs[i] == all[i + 1];
  }

  lemma LawServes(ms: seq<Message>, total: nat, b: Buffer, ev: Event, evs: seq<Event>)
    requires ms != [] && ev == Served(ms[0].value) && total >= |ms[0].text|
    ensures Law(ms, total, b, [ev] + evs) <==> Law(ms[1..], total - |ms[0].text|, b, evs)
  {
    hide Holds, Concat, ValuesOf, ServedOf, IsFinal;
    var n := |ServedOf(evs)|;
    ServedMore(ev, evs);
    if n + 1 <= |ms| {
      TakeMore(ms, n);
      SameTail(ms[0].value, ServedOf(evs), ValuesOf(ms[1..][..n]));
    }
  }

  lemma TakeMore(ms: seq<Message>, n: nat)
    requires n + 1 <= |ms|
    ensures ValuesOf(ms[..n + 1]) == [ms[0].value] + ValuesOf(ms[1..][..n])
    ensures Concat(ms[..n + 1]) == ms[0].text + Concat(ms[1..][..n]) && ms[n + 1..] == ms[1..][n..]
  {
    assert ms[..n + 1][1..] == ms[1..][..n];
  }

  lemma SameTail(v: Value, a: seq<Value>, c: seq<Value>)
    ensures [v] + a == [v] + c <==> a == c
  {
    if [v] + a == [v] + c {
      assert ([v] + a)[1..] == a && ([v] + c)[1..] == c;
    }
  }

  /** The law before any read, and the run from its first read. */
  lemma LawStarts(b: Buffer, ms: seq<Message>, k: nat)
    requires Holds(b, Concat(ms), k)
    ensures LawAfter(b, ms, k, [])
  {
    hide Holds;
    assert ms[..0] == [] && ms[0..] == ms;
  }

  lemma RunStep(b: Buffer, inputs: seq<Input>)
    requires inputs != [] && Playable(b, inputs)
    ensures Fits(b, inputs[0])
    ensures IsFinal(Step(b, inputs[0]).1) ==> Run(b, inputs) == (Step(b, inputs[0]).0, [Step(b, inputs[0]).1])
    ensures !IsFinal(Step(b, inputs[0]).1) ==> Playable(Step(b, inputs[0]).0, inputs[1..])
    ensures !IsFinal(Step(b, inputs[0]).1) ==>
              var (b2, evs) := Run(Step(b, inputs[0]).0, inputs[1..]);
              Run(b, inputs) == (b2, [Step(b, inputs[0]).1] + evs)
  {
    hide Step;
  }

  lemma FinalBreaks(ms: seq<Message>, total: nat, b: Buffer, ev: Event)
    requires IsFinal(ev)
    ensures !Law(ms, total, b, [ev])
  {
    assert [ev][0] == ev;
  }

  /** The reads go on with the stream where the buffer ends. */
  predicate Ready(b: Buffer, ms: seq<Message>, k: nat, inputs: seq<Input>) {
    && AllMessages(ms) && Holds(b, Concat(ms), k) && Playable(b, inputs) && AllBytes(inputs)
    && k + |Joined(inputs)| <= |Concat(ms)| && Joined(inputs) == Concat(ms)[k..k + |Joined(inputs)|]
  }

  /** The requests not served yet and the bytes of them that are held, when j bytes of the stream are there. */
  function Ahead(ms: seq<Message>, j: nat): (seq<Message>, nat)
    requires ms != []
  {
    if j < |ms[0].text| then (ms, j) else (ms[1..], j - |ms[0].text|)
  }

  lemma HeadChunk(b: Buffer, ms: seq<Message>, k: nat, inputs: seq<Input>)
    requires Ready(b, ms, k, inputs) && inputs != []
    ensures inputs[0].Bytes? && Fits(b, inputs[0]) && AllBytes(inputs[1..]) && ms != []
    ensures var j := k + |inputs[0].chunk|;
            && k < j <= |Concat(ms)| && inputs[0].chunk == Concat(ms)[k..j]
            && |Joined(inputs)| == |inputs[0].chunk| + |Joined(inputs[1..])|
            && j + |Joined(inputs[1..])| <= |Concat(ms)| && Joined(inputs[1..]) == Concat(ms)[j..j + |Joined(inputs[1..])|]
  {
    hide Step, IsMessage, Holds;
    NoText();
    JoinedHead(inputs);
    hide Concat, Joined;
    SliceParts(Concat(ms), k, inputs[0].chunk, Joined(inputs[1..]));
  }

  lemma NoText()
    ensures Concat([]) == ""
  {
  }

  lemma JoinedHead(inputs: seq<Input>)
    requires inputs != [] && AllBytes(inputs)
    ensures Joined(inputs) == inputs[0].chunk + Joined(inputs[1..])
  {
  }

  lemma SliceParts(s: string, k: nat, a: string, b: string)
    requires k + |a + b| <= |s| && s[k..k + |a + b|] == a + b
    ensures a == s[k..k + |a|] && b == s[k + |a|..k + |a| + |b|]
  {
    assert s[k..k + |a|] == s[k..k + |a + b|][..|a|] && s[k + |a|..k + |a| + |b|] == s[k..k + |a + b|][|a|..];
  }

  lemma AheadIs(ms: seq<Message>, j: nat)
    requires ms != []
    ensures Ahead(ms, j) == if j < |ms[0].text| then (ms, j) else (ms[1..], j - |ms[0].text|)
  {
  }

  lemma ConcatStep(ms: seq<Message>)
    requires ms != []
    ensures Concat(ms) == ms[0].text + Concat(ms[1..])
  {
  }

  lemma AheadJoined(ms: seq<Message>, j: nat, n: nat)
    requires ms != [] && j + n <= |Concat(ms)|
    ensures var (ms1, k1) := Ahead(ms, j); k1 + n <= |Concat(ms1)| && Concat(ms1)[k1..k1 + n] == Concat(ms)[j..j + n]
  {
    hide *;
    var t, rest := ms[0].text, Concat(ms[1..]);
    ConcatStep(ms);
    AheadIs(ms, j);
    if j >= |t| { SliceTail(t, rest, j, j + n); }
  }

  lemma SliceTail(a: string, b: string, x: nat, y: nat)
    requires |a| <= x <= y <= |a + b|
    ensures (a + b)[x..y] == b[x - |a|..y - |a|]
  {
  }

  lemma ReadyParts(b: Buffer, ms: seq<Message>, k: nat, inputs: seq<Input>)
    ensures Ready(b, ms, k, inputs) <==>
              && AllMessages(ms) && Holds(b, Concat(ms), k) && Playable(b, inputs) && AllBytes(inputs)
              && k + |Joined(inputs)| <= |Concat(ms)| && Joined(inputs) == Concat(ms)[k..k + |Joined(inputs)|]
  {
    hide AllMessages, Holds, Playable, AllBytes, Concat, Joined;
  }

  lemma HeldLength(b: Buffer, s: string, k: nat)
    ensures Holds(b, s, k) ==> b.pos == k
  {
    hide Valid;
  }

  /** What the first read does. */
  lemma HeadRead(b: Buffer, ms: seq<Message>, k: nat, inputs: seq<Input>)
    requires Ready(b, ms, k, inputs) && inputs != []
    ensures ms != [] && inputs[0].Bytes? && Fits(b, inputs[0])
    ensures var j, t, b1, ev := k + |inputs[0].chunk|, ms[0].text, Step(b, inputs[0]).0, Step(b, inputs[0]).1;
            && (j < |t| && Fine(b, t, inputs[0]) ==> ev == Waiting && Holds(b1, Concat(ms), j))
            && (j < |t| && !Fine(b, t, inputs[0]) ==> ev == Refused || ev == Lost)
            && (j >= |t| ==> ev == Served(ms[0].value) && (Fine(b, t, inputs[0]) <==> Holds(b1, Concat(ms[1..]), j - |t|)))
  {
    hide *;
    HeadChunk(b, ms, k, inputs);
    ReadyParts(b, ms, k, inputs);
    var j := k + |inputs[0].chunk|;
    if j < |ms[0].text| {
      ReadPart(b, ms, k, inputs[0]);
    } else {
      ReadWhole(b, ms, k, inputs[0]);
      HeldLength(Step(b, inputs[0]).0, Concat(ms[1..]), j - |ms[0].text|);
    }
  }

  lemma Finals(v: Value)
    ensures !IsFinal(Waiting) && IsFinal(Refused) && IsFinal(Lost) && !IsFinal(Served(v))
  {
  }

  /** A harmless read leads to the next one. */
  lemma Onward(b: Buffer, ms: seq<Message>, k: nat, inputs: seq<Input>)
    requires Ready(b, ms, k, inputs) && inputs != []
    ensures ms != [] && inputs[0].Bytes? && Fits(b, inputs[0])
    ensures var (ms1, k1) := Ahead(ms, k + |inputs[0].chunk|);
            Fine(b, ms[0].text, inputs[0]) ==>
              !IsFinal(Step(b, inputs[0]).1) && Ready(Step(b, inputs[0]).0, ms1, k1, inputs[1..])
  {
    hide *;
    HeadRead(b, ms, k, inputs);
    HeadChunk(b, ms, k, inputs);
    ReadyParts(b, ms, k, inputs);
    RunStep(b, inputs);
    FirstIsMessage(ms);
    Finals(ms[0].value);
    var j := k + |inputs[0].chunk|;
    AheadIs(ms, j);
    AheadJoined(ms, j, |Joined(inputs[1..])|);
    var (ms1, k1) := Ahead(ms, j);
    ReadyParts(Step(b, inputs[0]).0, ms1, k1, inputs[1..]);
  }

  lemma LawAfterIs(b: Buffer, ms: seq<Message>, k: nat, inputs: seq<Input>)
    requires Playable(b, inputs) && AllBytes(inputs)
    ensures LawAfter(b, ms, k, inputs) <==> Law(ms, k + |Joined(inputs)|, Run(b, inputs).0, Run(b, inputs).1)
  {
    hide Law, Run, Joined, Playable, AllBytes;
  }

  /** The law after a harmless read and the rest of the run is the law of the rest. */
  lemma LawOnward(b: Buffer, ms: seq<Message>, k: nat, inputs: seq<Input>)
    requires Ready(b, ms, k, inputs) && inputs != [] && ms != [] && inputs[0].Bytes? && Fits(b, inputs[0])
    requires Fine(b, ms[0].text, inputs[0]) && Playable(b, inputs) && AllBytes(inputs)
    requires Playable(Step(b, inputs[0]).0, inputs[1..]) && AllBytes(inputs[1..])
    ensures var (ms1, k1) := Ahead(ms, k + |inputs[0].chunk|);
            LawAfter(b, ms, k, inputs) <==> LawAfter(Step(b, inputs[0]).0, ms1, k1, inputs[1..])
  {
    hide *;
    HeadRead(b, ms, k, inputs);
    HeadChunk(b, ms, k, inputs);
    RunStep(b, inputs);
    Finals(ms[0].value);
    var j, b1, ev := k + |inputs[0].chunk|, Step(b, inputs[0]).0, Step(b, inputs[0]).1;
    AheadIs(ms, j);
    LawAfterIs(b, ms, k, inputs);
    LawAfterIs(b1, Ahead(ms, j).0, Ahead(ms, j).1, inputs[1..]);
    var (b2, evs) := Run(b1, inputs[1..]);
    if j < |ms[0].text| {
      LawWaits(ms, k + |Joined(inputs)|, b2, ev, evs);
    } else {
      LawServes(ms, k + |Joined(inputs)|, b2, ev, evs);
    }
  }

  lemma SmoothStep(b: Buffer, ms: seq<Message>, k: nat, inputs: seq<Input>)
    requires Ready(b, ms, k, inputs) && inputs != [] && Playable(b, inputs) && AllBytes(inputs)
    requires ms != [] && inputs[0].Bytes? && Fits(b, inputs[0]) && AllBytes(inputs[1..])
    ensures var (ms1, k1) := Ahead(ms, k + |inputs[0].chunk|);
            Smooth(b, ms, k, inputs) <==>
              && Fine(b, ms[0].text, inputs[0]) && !IsFinal(Step(b, inputs[0]).1)
              && Playable(Step(b, inputs[0]).0, inputs[1..]) && Smooth(Step(b, inputs[0]).0, ms1, k1, inputs[1..])
  {
    hide Step, Fine, Fits, IsMessage, Holds, Ready;
  }

  lemma {:induction false} JoinedPrefix(inputs: seq<Input>, q: nat)
    requires AllBytes(inputs) && q <= |inputs|
    ensures AllBytes(inputs[..q]) && |Joined(inputs[..q])| <= |Joined(inputs)|
    ensures Joined(inputs[..q]) == Joined(inputs)[..|Joined(inputs[..q])|]
    decreases |inputs|
  {
    if q > 0 {
      assert inputs[..q][1..] == inputs[1..][..q - 1];
      JoinedPrefix(inputs[1..], q - 1);
    }
  }

  lemma {:induction false} PlayablePrefix(b: Buffer, inputs: seq<Input>, q: nat)
    requires Playable(b, inputs) && q <= |inputs|
    ensures Playable(b, inputs[..q])
    decreases |inputs|
  {
    hide Step, Fits;
    if q > 0 {
      assert inputs[..q][1..] == inputs[1..][..q - 1];
      if !IsFinal(Step(b, inputs[0]).1) { PlayablePrefix(Step(b, inputs[0]).0, inputs[1..], q - 1); }
    }
  }

  lemma ReadyPrefix(b: Buffer, ms: seq<Message>, k: nat, inputs: seq<Input>, q: nat)
    requires Ready(b, ms, k, inputs) && q <= |inputs|
    ensures Ready(b, ms, k, inputs[..q]) && AllBytes(inputs[..q]) && Playable(b, inputs[..q])
  {
    hide AllMessages, Holds, Playable, AllBytes, Concat, Joined;
    JoinedPrefix(inputs, q);
    PlayablePrefix(b, inputs, q);
    var s, n, m := Concat(ms), |Joined(inputs)|, |Joined(inputs[..q])|;
    assert s[k..k + n][..m] == s[k..k + m];
  }

  /** The law holds after the first q reads. */
  predicate LawUpTo(b: Buffer, ms: seq<Message>, k: nat, inputs: seq<Input>, q: nat)
    requires q <= |inputs|
  {
    Playable(b, inputs[..q]) && AllBytes(inputs[..q]) && LawAfter(b, ms, k, inputs[..q])
  }

  lemma LawAtStart(b: Buffer, ms: seq<Message>, k: nat, inputs: seq<Input>)
    requires Ready(b, ms, k, inputs)
    ensures LawUpTo(b, ms, k, inputs, 0)
  {
    hide Holds, Law, AllMessages, Joined, Concat;
    assert inputs[..0] == [];
    LawStarts(b, ms, k);
  }

  /** After a harmless first read the law goes on just as it does for the rest. */
  lemma LawUpToNext(b: Buffer, ms: seq<Message>, k: nat, inputs: seq<Input>, q: nat)
    requires Ready(b, ms, k, inputs) && 0 < q <= |inputs|
    requires ms != [] && inputs[0].Bytes? && Fits(b, inputs[0]) && Fine(b, ms[0].text, inputs[0])
    ensures var (ms1, k1) := Ahead(ms, k + |inputs[0].chunk|);
            LawUpTo(b, ms, k, inputs, q) <==> LawUpTo(Step(b, inputs[0]).0, ms1, k1, inputs[1..], q - 1)
  {
    hide Ready, Fine, Fits, Step, Playable, AllBytes, LawAfter, Ahead;
    var upTo := inputs[..q];
    assert upTo[0] == inputs[0] && upTo[1..] == inputs[1..][..q - 1];
    ReadyPrefix(b, ms, k, inputs, q);
    Onward(b, ms, k, upTo);
    RunStep(b, upTo);
    HeadChunk(b, ms, k, upTo);
    LawOnward(b, ms, k, upTo);
  }

  /** A first read that is not harmless breaks the law at once. */
  lemma HarmAtOnce(b: Buffer, ms: seq<Message>, k: nat, inputs: seq<Input>)
    requires Ready(b, ms, k, inputs) && inputs != [] && ms != [] && inputs[0].Bytes? && Fits(b, inputs[0])
    requires !Fine(b, ms[0].text, inputs[0])
    ensures !LawUpTo(b, ms, k, inputs, 1)
  {
    hide Ready, Fine, Fits, Step, AllBytes, Holds, Concat, Run, Law, IsFinal;
    var one := inputs[..1];
    assert one == [inputs[0]] && one[1..] == [];
    ReadyPrefix(b, ms, k, inputs, 1);
    HeadRead(b, ms, k, one);
    HeadChunk(b, ms, k, one);
    RunStep(b, one);
    Finals(ms[0].value);
    var j, b1, ev := k + |inputs[0].chunk|, Step(b, inputs[0]).0, Step(b, inputs[0]).1;
    assert |Joined(one[1..])| == 0;
    if IsFinal(ev) {
      FinalBreaks(ms, j, b1, ev);
    } else {
      RunNothing(b1);
      LawServes(ms, j, b1, ev, []);
      LawOfNothing(ms[1..], j - |ms[0].text|, b1);
      assert [ev] + [] == [ev];
    }
  }

  lemma RunNothing(b: Buffer)
    ensures Playable(b, []) && Run(b, []) == (b, [])
  {
  }

  lemma LawOfNothing(ms: seq<Message>, total: nat, b: Buffer)
    ensures Law(ms, total, b, []) <==> Holds(b, Concat(ms), total)
  {
    hide Holds;
    assert ms[..0] == [] && ms[0..] == ms;
  }

  /** While all reads are harmless, the law holds after each of them. */
  lemma {:induction false} SmoothKeeps(b: Buffer, ms: seq<Message>, k: nat, inputs: seq<Input>, q: nat)
    requires Ready(b, ms, k, inputs) && Playable(b, inputs) && AllBytes(inputs) && q <= |inputs|
    requires Smooth(b, ms, k, inputs)
    ensures LawUpTo(b, ms, k, inputs, q)
    decreases |inputs|
  {
    hide *;
    if q == 0 {
      LawAtStart(b, ms, k, inputs);
    } else {
      HeadChunk(b, ms, k, inputs);
      var (ms1, k1) := Ahead(ms, k + |inputs[0].chunk|);
      SmoothStep(b, ms, k, inputs);
      Onward(b, ms, k, inputs);
      LawUpToNext(b, ms, k, inputs, q);
      SmoothKeeps(Step(b, inputs[0]).0, ms1, k1, inputs[1..], q - 1);
    }
  }

  /** The first read that is not harmless breaks the law. */
  lemma {:induction false} HarmBreaks(b: Buffer, ms: seq<Message>, k: nat, inputs: seq<Input>) returns (q: nat)
    requires Ready(b, ms, k, inputs) && Playable(b, inputs) && AllBytes(inputs)
    requires !Smooth(b, ms, k, inputs)
    ensures 0 < q <= |inputs| && !LawUpTo(b, ms, k, inputs, q)
    decreases |inputs|
  {
    hide *;
    SmoothNothing(b, ms, k, inputs);
    HeadChunk(b, ms, k, inputs);
    var (ms1, k1) := Ahead(ms, k + |inputs[0].chunk|);
    SmoothStep(b, ms, k, inputs);
    Onward(b, ms, k, inputs);
    RunStep(b, inputs);
    if Fine(b, ms[0].text, inputs[0]) {
      var q1 := HarmBreaks(Step(b, inputs[0]).0, ms1, k1, inputs[1..]);
      q := q1 + 1;
      LawUpToNext(b, ms, k, inputs, q);
    } else {
      q := 1;
      HarmAtOnce(b, ms, k, inputs);
    }
  }

  lemma SmoothNothing(b: Buffer, ms: seq<Message>, k: nat, inputs: seq<Input>)
    requires Playable(b, inputs) && AllBytes(inputs)
    ensures inputs == [] ==> Smooth(b, ms, k, inputs)
  {
  }

  /**
   * However a client's requests are cut into reads: the law holds after every read if and only if every read is
   * harmless. Then each request that is served is served once and in order, and no byte is lost.
   */
  lemma StreamExact(b: Buffer, ms: seq<Message>, k: nat, inputs: seq<Input>)
    requires Ready(b, ms, k, inputs) && Playable(b, inputs) && AllBytes(inputs)
    ensures Smooth(b, ms, k, inputs) <==> forall q :: 0 <= q <= |inputs| ==> LawUpTo(b, ms, k, inputs, q)
  {
    hide *;
    if Smooth(b, ms, k, inputs) {
      forall q | 0 <= q <= |inputs| ensures LawUpTo(b, ms, k, inputs, q) { SmoothKeeps(b, ms, k, inputs, q); }
    } else {
      var q := HarmBreaks(b, ms, k, inputs);
    }
  }

  // ---------------------------------------------------------------- a client that waits for its replies

  /** No read brings bytes from beyond the first request that is not served yet. */
  predicate Lockstep(ms: seq<Message>, k: nat, inputs: seq<Input>)
    requires AllBytes(inputs)
    decreases |inputs|
  {
    inputs != [] ==>
      && ms != [] && k + |inputs[0].chunk| <= |ms[0].text|
      && Lockstep(Ahead(ms, k + |inputs[0].chunk|).0, Ahead(ms, k + |inputs[0].chunk|).1, inputs[1..])
  }

  /** Every beginning of every request is a clean cut. */
  predicate AllClean(ms: seq<Message>) {
    forall i, k :: 0 <= i < |ms| && 0 <= k < |ms[i].text| ==> CleanCut(ms[i].text + [NUL], k)
  }

  lemma FirstIsClean(ms: seq<Message>)
    requires AllClean(ms) && ms != []
    ensures AllClean(ms[1..]) && forall k :: 0 <= k < |ms[0].text| ==> CleanCut(ms[0].text + [NUL], k)
  {
    hide CleanCut;
  }

  lemma LockstepFine(b: Buffer, ms: seq<Message>, k: nat, i: Input)
    requires i.Bytes? && Fits(b, i) && b.pos == k && ms != [] && AllClean(ms) && k + |i.chunk| <= |ms[0].text|
    ensures Fine(b, ms[0].text, i)
  {
    hide CleanCut, Grow, Receive;
    FilledPos(b, i);
    FirstIsClean(ms);
  }

  lemma ServedStep(ev: Event, evs: seq<Event>)
    ensures ServedOf([ev] + evs) == (if ev.Served? then [ev.root] else []) + ServedOf(evs)
  {
    assert ([ev] + evs)[1..] == evs;
  }

  lemma ValuesStep(ms: seq<Message>)
    requires ms != []
    ensures ValuesOf(ms) == [ms[0].value] + ValuesOf(ms[1..]) && |Concat(ms)| == |ms[0].text| + |Concat(ms[1..])|
  {
  }

  lemma LockstepStep(ms: seq<Message>, k: nat, inputs: seq<Input>)
    requires inputs != [] && AllBytes(inputs) && AllBytes(inputs[1..]) && inputs[0].Bytes? && ms != []
    requires Lockstep(ms, k, inputs) && AllMessages(ms)
    ensures k + |inputs[0].chunk| <= |ms[0].text|
    ensures var (ms1, k1) := Ahead(ms, k + |inputs[0].chunk|);
            Lockstep(ms1, k1, inputs[1..]) && (ms1 != [] ==> k1 < |ms1[0].text|)
  {
    hide IsMessage;
    if |ms| > 1 { MessageIsLong(ms[1]); }
  }

  /**
   * A client that sends its next request only when the one before has been served: each of its requests is served,
   * once, in order, by the read that brings its last byte, and the connection stays open with an empty buffer.
   */
  lemma {:induction false} LockstepServed(b: Buffer, ms: seq<Message>, k: nat, inputs: seq<Input>)
    requires Ready(b, ms, k, inputs) && Playable(b, inputs) && AllBytes(inputs)
    requires Lockstep(ms, k, inputs) && AllClean(ms) && (ms != [] ==> k < |ms[0].text|)
    requires k + |Joined(inputs)| == |Concat(ms)|
    ensures ServedOf(Run(b, inputs).1) == ValuesOf(ms) && Holds(Run(b, inputs).0, "", 0)
    ensures forall ev :: ev in Run(b, inputs).1 ==> ev.Waiting? || ev.Served?
    decreases |inputs|
  {
    hide *;
    ReadyParts(b, ms, k, inputs);
    HeldLength(b, Concat(ms), k);
    if inputs == [] {
      JoinedNothing(inputs);
      if ms != [] { ValuesStep(ms); }
      RunNothing(b);
      NoneLeft(ms);
    } else {
      HeadChunk(b, ms, k, inputs);
      HeadRead(b, ms, k, inputs);
      Onward(b, ms, k, inputs);
      RunStep(b, inputs);
      LockstepStep(ms, k, inputs);
      LockstepFine(b, ms, k, inputs[0]);
      FirstIsClean(ms);
      ValuesStep(ms);
      var j, b1, ev := k + |inputs[0].chunk|, Step(b, inputs[0]).0, Step(b, inputs[0]).1;
      AheadIs(ms, j);
      var (ms1, k1) := Ahead(ms, j);
      LockstepServed(b1, ms1, k1, inputs[1..]);
      ServedStep(ev, Run(b1, inputs[1..]).1);
    }
  }

  lemma JoinedNothing(inputs: seq<Input>)
    requires inputs == []
    ensures AllBytes(inputs) && Joined(inputs) == ""
  {
  }

  lemma NoneLeft(ms: seq<Message>)
    requires ms == []
    ensures Concat(ms) == "" && ValuesOf(ms) == [] && ServedOf([]) == []
  {
  }

  // ---------------------------------------------------------------- requests as a client prints them

  /** Any printed array or object is a message. */
  lemma PrintedIsMessage(v: Value, fmt: bool)
    requires Printable(v) && IsContainer(v)
    ensures IsMessage(Message(Print(v, 0, fmt), v))
  {
    hide Print, Printable, IsContainer, ParseStream;
    PrintThenParse(v, fmt, [NUL]);
    PrintHasNoNul(v, 0, fmt);
  }

  /** Requests of numbers, strings without escapes, arrays and objects can be cut anywhere. */
  lemma PrintedIsClean(vs: seq<Value>, fmt: bool)
    requires forall i :: 0 <= i < |vs| ==> Printable(vs[i]) && PlainValue(vs[i]) && IsContainer(vs[i])
    ensures AllMessages(Printed(vs, fmt)) && AllClean(Printed(vs, fmt)) && ValuesOf(Printed(vs, fmt)) == vs
  {
    hide Print, Printable, IsContainer, PlainValue, CleanCut, IsMessage, Plain;
    var ms := Printed(vs, fmt);
    forall i | 0 <= i < |ms| ensures IsMessage(ms[i]) { PrintedIsMessage(vs[i], fmt); }
    forall i, k | 0 <= i < |ms| && 0 <= k < |ms[i].text| ensures CleanCut(ms[i].text + [NUL], k) {
      PlainPrint(vs[i], 0, fmt);
      PlainIsClean(ms[i].text, k);
    }
    ValuesPrinted(vs, fmt);
  }

  function Printed(vs: seq<Value>, fmt: bool): seq<Message> {
    seq(|vs|, i requires 0 <= i < |vs| => Message(Print(vs[i], 0, fmt), vs[i]))
  }

  lemma {:induction false} ValuesPrinted(vs: seq<Value>, fmt: bool)
    ensures ValuesOf(Printed(vs, fmt)) == vs
  {
    hide Print;
    if vs != [] {
      assert Printed(vs, fmt)[1..] == Printed(vs[1..], fmt);
      ValuesPrinted(vs[1..], fmt);
    }
  }
}
