/** One connection from its first byte to its last reply: what a client gets back for the requests it sends. */
module Session {
  import opened Json
  import opened JsonText
  import opened JsonRoundTrip
  import opened JsonNode
  import opened JsonChain
  import opened Connection
  import opened Stream
  import opened Rpc
  import opened Sequences

  /** The server as one connection sees it; `beyond` is what an id out of the range of int is turned into. */
  datatype Service = Service(table: seq<Procedure>, run: (nat, Option<Value>, Option<Value>) -> Answer, beyond: Int)

  /** What connection_cb writes after an event: a reply to every object, and an error when it gives up on the text. */
  function Output(s: Service, ev: Event): string {
    match ev
    case Served(root) => if root.Object? then ReplyText(s.table, s.run, root.members, s.beyond) else ""
    case Refused => Print(ErrorReply(PARSE_ERROR, "Parse error. Invalid JSON was received by the server.", None), 0, true) + "\n"
    case _ => ""
  }

  function OutputOf(s: Service, evs: seq<Event>): string {
    if evs == [] then "" else Output(s, evs[0]) + OutputOf(s, evs[1..])
  }

  /** The replies that these requests should get; an array gets none. */
  function Replies(s: Service, vs: seq<Value>): seq<Value> {
    if vs == [] then []
    else (if vs[0].Object? then [Reply(s.table, s.run, vs[0].members, s.beyond)] else []) + Replies(s, vs[1..])
  }

  /** A client that parses one value a time, and then skips the newline, gets these values and comes to the rest. */
  predicate ReadsAs(text: string, rs: seq<Value>, rest: string)
    decreases |rs|
  {
    if rs == [] then text == rest
    else
      && Terminated(text) && ParseStream(text).Parsed? && ParseStream(text).value == rs[0]
      && var e := ParseStream(text).end; text[e] == '\n' && ReadsAs(text[e + 1..], rs[1..], rest)
  }

  /** The bytes written, and the replies they spell. */
  function TextsOf(s: Service, vs: seq<Value>): string {
    if vs == [] then ""
    else (if vs[0].Object? then ReplyText(s.table, s.run, vs[0].members, s.beyond) else "") + TextsOf(s, vs[1..])
  }

  lemma TextsStep(s: Service, v: Value, vs: seq<Value>)
    ensures TextsOf(s, [v] + vs) == (if v.Object? then ReplyText(s.table, s.run, v.members, s.beyond) else "") + TextsOf(s, vs)
    ensures Replies(s, [v] + vs) == (if v.Object? then [Reply(s.table, s.run, v.members, s.beyond)] else []) + Replies(s, vs)
  {
    hide ReplyText, Reply;
    assert ([v] + vs)[1..] == vs;
  }

  lemma {:induction false} OutputIsTexts(s: Service, evs: seq<Event>)
    requires forall ev :: ev in evs ==> ev.Waiting? || ev.Served?
    ensures OutputOf(s, evs) == TextsOf(s, ServedOf(evs))
  {
    hide ReplyText, TextsOf, ServedOf;
    if evs == [] {
      NothingServed(s);
    } else {
      assert evs[0] in evs && evs == [evs[0]] + evs[1..];
      OutputIsTexts(s, evs[1..]);
      ServedStep(evs[0], evs[1..]);
      var rest := ServedOf(evs[1..]);
      if evs[0].Served? { TextsStep(s, evs[0].root, rest); } else { assert [] + rest == rest; }
    }
  }

  lemma NothingServed(s: Service)
    ensures ServedOf([]) == [] && TextsOf(s, []) == "" && Replies(s, []) == []
  {
  }

  lemma ReadsOne(text: string, r: Value, rs: seq<Value>, rest: string, e: nat)
    requires Terminated(text) && ParseStream(text) == Parsed(r, e) && e < |text| && text[e] == '\n'
    requires ReadsAs(text[e + 1..], rs, rest)
    ensures ReadsAs(text, [r] + rs, rest)
  {
    hide ParseStream;
    assert ([r] + rs)[1..] == rs;
  }

  lemma {:induction false} TextsRead(s: Service, ms: seq<Message>, after: string)
    requires AllMessages(ms) && Presentable(s.run) && Terminated(after)
    ensures ReadsAs(TextsOf(s, ValuesOf(ms)) + after, Replies(s, ValuesOf(ms)), after)
  {
    hide *;
    if ms == [] {
      NoneLeft(ms);
      NothingServed(s);
      ReadsNone(after);
    } else {
      var v, tail := ms[0].value, ValuesOf(ms[1..]);
      FirstIsMessage(ms);
      ValuesStep(ms);
      TextsStep(s, v, tail);
      TextsRead(s, ms[1..], after);
      var rest := TextsOf(s, tail) + after;
      if v.Object? {
        var sent := ReplyText(s.table, s.run, v.members, s.beyond);
        EndsTerminated(TextsOf(s, tail), after);
        EndsTerminated(sent, rest);
        OneRead(s, ms[0], rest);
        Regroup(sent, TextsOf(s, tail), after);
        Seam(sent, rest);
        ReadsOne(sent + rest, Reply(s.table, s.run, v.members, s.beyond), Replies(s, tail), after, |sent| - 1);
      } else {
        assert "" + TextsOf(s, tail) == TextsOf(s, tail);
        assert [] + Replies(s, tail) == Replies(s, tail);
      }
    }
  }

  lemma ReadsNone(after: string)
    ensures "" + after == after && ReadsAs(after, [], after)
  {
  }

  lemma EndsTerminated(a: string, after: string)
    requires Terminated(after)
    ensures Terminated(a + after)
  {
  }

  lemma OneRead(s: Service, m: Message, after: string)
    requires IsMessage(m) && m.value.Object? && Presentable(s.run) && Terminated(after)
    ensures var sent := ReplyText(s.table, s.run, m.value.members, s.beyond);
            && |sent| > 0 && sent[|sent| - 1] == '\n'
            && ParseStream(sent + after) == Parsed(Reply(s.table, s.run, m.value.members, s.beyond), |sent| - 1)
  {
    hide Reply, Print, Presentable, ParseStream, IsContainer;
    ParsedRequestAnswered(s.table, s.run, m.text + [NUL], m.value.members, |m.text|, s.beyond, after);
  }

  /**
   * From end to end, for any client: while all reads are harmless, what has been written after them is parsed as exactly
   * the replies to the first requests of the stream, in order, and the buffer holds what is not answered yet.
   */
  lemma HarmlessReadsAnswered(s: Service, b: Buffer, ms: seq<Message>, inputs: seq<Input>, after: string)
    requires Presentable(s.run) && Terminated(after)
    requires Ready(b, ms, 0, inputs) && Playable(b, inputs) && AllBytes(inputs) && Smooth(b, ms, 0, inputs)
    ensures var (b', evs) := Run(b, inputs);
            var n := |ServedOf(evs)|;
            && n <= |ms| && ReadsAs(OutputOf(s, evs) + after, Replies(s, ValuesOf(ms[..n])), after)
            && |Concat(ms[..n])| <= |Joined(inputs)| && Holds(b', Concat(ms[n..]), |Joined(inputs)| - |Concat(ms[..n])|)
  {
    hide *;
    ReadyParts(b, ms, 0, inputs);
    SmoothKeeps(b, ms, 0, inputs, |inputs|);
    LawAtEnd(b, ms, inputs);
    var (b', evs) := Run(b, inputs);
    LawIs(ms, |Joined(inputs)|, b', evs);
    FirstMessages(ms, |ServedOf(evs)|);
    OutputIsTexts(s, evs);
    TextsRead(s, ms[..|ServedOf(evs)|], after);
  }

  lemma LawAtEnd(b: Buffer, ms: seq<Message>, inputs: seq<Input>)
    requires Playable(b, inputs) && AllBytes(inputs) && LawUpTo(b, ms, 0, inputs, |inputs|)
    ensures Law(ms, |Joined(inputs)|, Run(b, inputs).0, Run(b, inputs).1)
  {
    hide Law, Run, Joined, Playable, AllBytes;
    assert inputs[..|inputs|] == inputs;
  }

  lemma LawIs(ms: seq<Message>, total: nat, b: Buffer, evs: seq<Event>)
    requires Law(ms, total, b, evs)
    ensures var n := |ServedOf(evs)|;
            && n <= |ms| && ServedOf(evs) == ValuesOf(ms[..n])
            && |Concat(ms[..n])| <= total && Holds(b, Concat(ms[n..]), total - |Concat(ms[..n])|)
    ensures forall ev :: ev in evs ==> ev.Waiting? || ev.Served?
  {
    hide ServedOf, ValuesOf, Concat, Holds;
  }

  lemma FirstMessages(ms: seq<Message>, n: nat)
    requires AllMessages(ms) && n <= |ms|
    ensures AllMessages(ms[..n])
  {
    hide IsMessage;
  }

  /**
   * From end to end, for a client that waits for its replies: whatever reads its requests come in, the client parses
   * exactly one reply to each request object, in the order of the requests, each the reply of ReplyShape and ReplyId,
   * and nothing else.
   */
  lemma EveryRequestAnswered(s: Service, b: Buffer, ms: seq<Message>, inputs: seq<Input>, after: string)
    requires Presentable(s.run) && Terminated(after)
    requires Ready(b, ms, 0, inputs) && Playable(b, inputs) && AllBytes(inputs)
    requires Lockstep(ms, 0, inputs) && AllClean(ms) && |Joined(inputs)| == |Concat(ms)|
    ensures ReadsAs(OutputOf(s, Run(b, inputs).1) + after, Replies(s, ValuesOf(ms)), after)
    ensures Holds(Run(b, inputs).0, "", 0)
  {
    hide *;
    ReadyParts(b, ms, 0, inputs);
    NotEmpty(ms);
    LockstepServed(b, ms, 0, inputs);
    OutputIsTexts(s, Run(b, inputs).1);
    TextsRead(s, ms, after);
  }

  lemma FirstHalf()
    ensures NUL !in "Parse error. Invalid JSON"
  {
  }

  lemma SecondHalf()
    ensures NUL !in " was received by the server."
  {
  }

  lemma Halves()
    ensures "Parse error. Invalid JSON was received by the server." == "Parse error. Invalid JSON" + " was received by the server."
  {
  }

  lemma MessageNulFree()
    ensures NUL !in "Parse error. Invalid JSON was received by the server."
  {
    FirstHalf();
    SecondHalf();
    Halves();
  }

  /** What a client reads when its text is refused. */
  lemma ParseErrorRead(s: Service, after: string)
    requires Terminated(after)
    ensures var sent := Output(s, Refused);
            var o := ParseStream(sent + after);
            && o.Parsed? && o.end == |sent| - 1 && sent[o.end] == '\n'
            && SaysError(o.value, -32700, "Parse error. Invalid JSON was received by the server.") && MemberOf(o.value, "id") == None
  {
    hide ErrorReply, Print, ParseStream, SaysError, MemberOf, Printable;
    var message := "Parse error. Invalid JSON was received by the server.";
    var reply := ErrorReply(PARSE_ERROR, message, None);
    MessageNulFree();
    ErrorPrintable(PARSE_ERROR, message, None);
    ErrorSays(PARSE_ERROR, message, None);
    NoId(PARSE_ERROR, message);
    PrintThenParse(reply, true, "\n" + after);
    Regroup(Print(reply, 0, true), "\n", after);
  }

  lemma NotEmpty(ms: seq<Message>)
    requires AllMessages(ms)
    ensures ms != [] ==> 0 < |ms[0].text|
  {
    if ms != [] { MessageIsLong(ms[0]); }
  }

  // ---------------------------------------------------------------- the callback

  lemma ServedIsNulFree(b: Buffer, i: Input)
    requires Fits(b, i) && Step(b, i).1.Served?
    ensures NulFree(Step(b, i).1.root)
  {
    hide ValueAt, Grow, Receive, Shift;
    var mem := Receive(Grow(b), i.chunk).mem;
    ParsedNulFree(mem, Skip(mem, 0));
  }

  lemma NamesNulFree(members: seq<Member>)
    requires NulFree(Object(members))
    ensures forall m: Member :: m in members ==> NUL !in m.name
  {
  }

  /** Answering a request: an object is evaluated, anything else is not, and the tree is freed. */
  method Respond(server: Server, root: Node, beyond: Int, heap: Heap, ghost v: Value)
    requires root.Valid() && root.Shows(v) && root.next == null && root.repr <= heap.live && NulFree(v)
    modifies server`sent, heap
    ensures server.sent == old(server.sent) + Output(Service(server.procedures, server.run, beyond), Served(v))
    ensures heap.live == old(heap.live) - root.repr
  {
    hide Node.Valid, Node.Shows, NulFree, ReplyText, Union, Separate, AllValid, Runs;
    KindShows(root, v);
    if root.kind == ObjectNode {
      NamesNulFree(v.members);
      server.EvalRequest(root, beyond, v.members);
    }
    OneAlone(root);
    Delete(root, heap, [root], root.repr);
  }

  /** connection_cb as a whole: the buffer and the event of the step, and the bytes written for it; nothing is left behind. */
  method OnReadable(reader: Reader, server: Server, i: Input, beyond: Int, heap: Heap) returns (ghost ev: Event)
    requires reader.open && Fits(reader.State(), i)
    modifies reader, reader.buffer, server`sent, heap
    ensures (reader.State(), ev) == Step(old(reader.State()), i)
    ensures ev != Lost ==> server.sent == old(server.sent) + Output(Service(server.procedures, server.run, beyond), ev)
    ensures ev != Lost ==> (reader.open <==> !IsFinal(ev)) && heap.live == old(heap.live)
  {
    hide Step, Fits, Node.Valid, Node.Shows, NulFree, ErrorReply, ReplyText, IsFinal;
    ghost var b := reader.State();
    var root, refused;
    root, refused, ev := reader.OnReadable(i, heap);
    if root != null {
      ServedIsNulFree(b, i);
      Respond(server, root, beyond, heap, ev.root);
    } else if refused {
      server.SendError(PARSE_ERROR, "Parse error. Invalid JSON was received by the server.", None);
    }
  }
}
