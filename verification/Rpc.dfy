/** The JSON-RPC server: its table of procedures, and the one reply that every request object gets. */
module Rpc {
  import opened Json
  import opened JsonText
  import opened JsonRoundTrip
  import opened JsonNode
  import opened Arithmetic

  const PARSE_ERROR: int := -32700
  const INVALID_REQUEST: int := -32600
  const METHOD_NOT_FOUND: int := -32601

  // ---------------------------------------------------------------- looking up a member

  /** tolower in the C locale */
  function Lower(c: char): char {
    if 'A' <= c <= 'Z' then (c as int + 32) as char else c
  }

  predicate SameName(a: string, b: string) {
    |a| == |b| && forall i :: 0 <= i < |a| ==> Lower(a[i]) == Lower(b[i])
  }

  /** Two characters are taken for the same exactly if they are, or are the two cases of one letter of the alphabet. */
  lemma CaseIgnored(c: char, d: char)
    ensures Lower(c) == Lower(d) <==>
            c == d || ('A' <= c <= 'Z' && d as int == c as int + 32) || ('A' <= d <= 'Z' && c as int == d as int + 32)
  {
  }

  /** Where the first member of that name stands, or the number of members. */
  function FirstNamed(members: seq<Member>, name: string): (k: nat)
    ensures k <= |members| && forall i :: 0 <= i < k ==> !SameName(members[i].name, name)
    ensures k < |members| ==> SameName(members[k].name, name)
  {
    if members == [] || SameName(members[0].name, name) then 0 else 1 + FirstNamed(members[1..], name)
  }

  function Get(members: seq<Member>, name: string): Option<Value> {
    var k := FirstNamed(members, name);
    if k < |members| then Some(members[k].value) else None
  }

  /** cJSON_strcasecmp on strings that are there: 0 when they are the same but for case. */
  method CompareNames(s1: string, s2: string) returns (same: bool)
    requires NUL !in s1 && NUL !in s2
    ensures same <==> SameName(s1, s2)
  {
    var i := 0;
    while i < |s1| && i < |s2| && Lower(s1[i]) == Lower(s2[i])
      invariant i <= |s1| && i <= |s2| && forall j :: 0 <= j < i ==> Lower(s1[j]) == Lower(s2[j])
    {
      i := i + 1;
    }
    return i == |s1| == |s2|;
  }

  /** cJSON_GetObjectItem on a tree: the node of the first member of that name, whatever the case. */
  method GetObjectItem(tree: Node, name: string, ghost members: seq<Member>) returns (c: Node?)
    requires tree.Valid() && tree.Shows(Object(members)) && NUL !in name
    requires forall m: Member :: m in members ==> NUL !in m.name
    ensures var k := FirstNamed(members, name);
            if k < |members| then k < |tree.kids| && c == tree.kids[k] && c.Valid() && c.Shows(members[k].value) else c == null
  {
    hide *;
    ObjectShows(tree, members);
    Walk(tree, 0);
    ghost var k := 0;
    c := tree.child;
    while c != null
      invariant 0 <= k <= |tree.kids| && c == if k == |tree.kids| then null else tree.kids[k]
      invariant forall i :: 0 <= i < k ==> !SameName(members[i].name, name)
      decreases |tree.kids| - k
    {
      assert members[k] in members && c.name == Some(members[k].name);
      var same := CompareNames(c.name.value, name);
      if same {
        FirstIs(members, name, k);
        ItemShows(tree, members, k);
        return;
      }
      Walk(tree, k);
      c := c.next;
      k := k + 1;
    }
    FirstIs(members, name, k);
  }

  lemma FirstIs(members: seq<Member>, name: string, k: nat)
    requires k <= |members| && (k < |members| ==> SameName(members[k].name, name))
    requires forall i :: 0 <= i < k ==> !SameName(members[i].name, name)
    ensures FirstNamed(members, name) == k
  {
    hide SameName;
  }

  lemma Walk(tree: Node, k: nat)
    requires tree.Valid() && !tree.isReference
    ensures tree.child == if tree.kids == [] then null else tree.kids[0]
    ensures k < |tree.kids| ==> tree.kids[k].next == if k + 1 < |tree.kids| then tree.kids[k + 1] else null
  {
    hide AllValid, Separate, Union;
  }

  lemma ObjectShows(tree: Node, members: seq<Member>)
    requires tree.Valid() && tree.Shows(Object(members))
    ensures !tree.isReference && |tree.kids| == |members|
    ensures forall i :: 0 <= i < |members| ==> tree.kids[i].name == Some(members[i].name)
  {
  }

  lemma ItemShows(tree: Node, members: seq<Member>, k: nat)
    requires tree.Valid() && tree.Shows(Object(members)) && k < |members|
    ensures k < |tree.kids| && tree.kids[k].Valid() && tree.kids[k].Shows(members[k].value)
  {
  }

  // ---------------------------------------------------------------- the table of procedures

  /** `code` stands for the function pointer and its data. */
  datatype Procedure = Procedure(name: string, code: nat)

  datatype Change = Register(p: Procedure) | Deregister(name: string)

  /** Searched from the end: the most recently registered entry of the name. */
  function Lookup(table: seq<Procedure>, name: string): Option<nat> {
    if table == [] then None
    else if table[|table| - 1].name == name then Some(table[|table| - 1].code)
    else Lookup(table[..|table| - 1], name)
  }

  /** The table without the first entry of the name. */
  function Removed(table: seq<Procedure>, name: string): (r: seq<Procedure>)
    ensures |r| <= |table|
  {
    if table == [] then []
    else if table[0].name == name then table[1..]
    else [table[0]] + Removed(table[1..], name)
  }

  function Changed(table: seq<Procedure>, c: Change): seq<Procedure> {
    match c
    case Register(p) => table + [p]
    case Deregister(name) => Removed(table, name)
  }

  function Table(history: seq<Change>): seq<Procedure> {
    if history == [] then [] else Changed(Table(history[..|history| - 1]), history[|history| - 1])
  }

  /** The codes registered under a name, oldest first. */
  function Named(table: seq<Procedure>, name: string): seq<nat> {
    if table == [] then []
    else Named(table[..|table| - 1], name) + if table[|table| - 1].name == name then [table[|table| - 1].code] else []
  }

  /** The codes ever registered under a name, and how many deregistrations of it found one. */
  function Registrations(history: seq<Change>, name: string): seq<nat> {
    if history == [] then []
    else
      var last := history[|history| - 1];
      Registrations(history[..|history| - 1], name) + if last.Register? && last.p.name == name then [last.p.code] else []
  }

  function Removals(history: seq<Change>, name: string): (n: nat)
    ensures n <= |Registrations(history, name)|
  {
    if history == [] then 0
    else
      var before := history[..|history| - 1];
      var n := Removals(before, name);
      if history[|history| - 1] == Deregister(name) && n < |Registrations(before, name)| then n + 1 else n
  }

  lemma {:induction false} LookupIsLast(table: seq<Procedure>, name: string)
    ensures var codes := Named(table, name);
            Lookup(table, name) == if codes == [] then None else Some(codes[|codes| - 1])
  {
    if table != [] && table[|table| - 1].name != name { LookupIsLast(table[..|table| - 1], name); }
  }

  lemma {:induction false} NamedConcat(a: seq<Procedure>, b: seq<Procedure>, name: string)
    ensures Named(a + b, name) == Named(a, name) + Named(b, name)
  {
    if b == [] {
      assert a + b == a;
    } else {
      assert (a + b)[..|a + b| - 1] == a + b[..|b| - 1];
      NamedConcat(a, b[..|b| - 1], name);
    }
  }

  lemma NamedOne(p: Procedure, name: string)
    ensures Named([p], name) == if p.name == name then [p.code] else []
  {
    assert [p][..0] == [];
  }

  /** Removal takes the oldest entry of its own name and none of any other. */
  lemma {:induction false} NamedRemoved(table: seq<Procedure>, name: string, other: string)
    ensures var codes := Named(table, other);
            Named(Removed(table, name), other) == if name == other && codes != [] then codes[1..] else codes
  {
    if table != [] {
      assert table == [table[0]] + table[1..];
      NamedConcat([table[0]], table[1..], other);
      NamedOne(table[0], other);
      if table[0].name != name {
        NamedRemoved(table[1..], name, other);
        NamedConcat([table[0]], Removed(table[1..], name), other);
      }
    }
  }

  lemma NoneNamed(name: string)
    ensures Named([], name) == []
  {
  }

  /**
   * After any sequence of changes: the entries of a name are its registrations in order, without as many of the
   * oldest as were deregistered; the other names' changes do not matter, and dispatch picks the newest that is left.
   */
  lemma {:induction false} TableAfter(history: seq<Change>, name: string)
    ensures var codes := Registrations(history, name)[Removals(history, name)..];
            && Named(Table(history), name) == codes
            && Lookup(Table(history), name) == if codes == [] then None else Some(codes[|codes| - 1])
  {
    hide Lookup, Named, Removed;
    LookupIsLast(Table(history), name);
    if history == [] {
      NoneNamed(name);
    } else {
      var before, last := history[..|history| - 1], history[|history| - 1];
      TableAfter(before, name);
      if last.Register? {
        NamedConcat(Table(before), [last.p], name);
        NamedOne(last.p, name);
      } else {
        NamedRemoved(Table(before), last.name, name);
      }
    }
  }

  // ---------------------------------------------------------------- requests and replies

  /** What a procedure leaves behind: an error code (0 for none) with its message, or the node it returns, if any. */
  datatype Answer = Answer(errorCode: int, errorMessage: string, returned: Option<Value>)

  /** The C type int. */
  type Int = n: int | INT_MIN <= n <= INT_MAX

  predicate InInt(n: int) {
    INT_MIN <= n <= INT_MAX
  }

  /** The decimal cut towards zero. */
  function Cut(mantissa: int, exponent: int): int {
    if exponent >= 0 then mantissa * Power10(exponent)
    else if mantissa >= 0 then mantissa / Power10(-exponent)
    else -(-mantissa / Power10(-exponent))
  }

  /**
   * valueint, which is `(int)valuedouble`. C defines the conversion only if the number, cut towards zero, is an int;
   * `beyond` is whatever it gives otherwise.
   */
  function ValueInt(mantissa: int, exponent: int, beyond: Int): Int {
    if InInt(Cut(mantissa, exponent)) then Cut(mantissa, exponent) else beyond
  }

  /** The id that a reply carries: a string is copied, a number is made anew from its valueint. */
  function CopyId(id: Option<Value>, beyond: Int): Option<Value> {
    match id
    case Some(Number(m, e)) => Some(Number(ValueInt(m, e, beyond), 0))
    case _ => id
  }

  function WithId(id: Option<Value>): seq<Member> {
    if id.Some? then [Member("id", id.value)] else []
  }

  function ErrorReply(code: int, message: string, id: Option<Value>): Value {
    Object([Member("error", Object([Member("code", Number(code, 0)), Member("message", Str(message))]))] + WithId(id))
  }

  function ResultReply(result: Option<Value>, id: Option<Value>): Value {
    Object((if result.Some? then [Member("result", result.value)] else []) + WithId(id))
  }

  /** A request object of the form that eval_request asks for. */
  predicate IsValidRequest(members: seq<Member>) {
    var method_, params, id := Get(members, "method"), Get(members, "params"), Get(members, "id");
    && method_.Some? && method_.value.Str?
    && (params.Some? ==> IsContainer(params.value))
    && (id.Some? ==> id.value.Str? || id.value.Number?)
  }

  lemma NoneRemoved(name: string)
    ensures Removed([], name) == []
  {
  }

  lemma RemovedStep(table: seq<Procedure>, name: string)
    requires table != []
    ensures Removed(table, name) == if table[0].name == name then table[1..] else [table[0]] + Removed(table[1..], name)
  {
  }

  /** Where the first entry of the name stood. */
  lemma {:induction false} RemovedAt(table: seq<Procedure>, name: string, f: nat)
    requires f <= |table| && (f < |table| ==> table[f].name == name)
    requires forall j :: 0 <= j < f ==> table[j].name != name
    ensures Removed(table, name) == if f < |table| then table[..f] + table[f + 1..] else table
  {
    hide Removed;
    if table == [] {
      NoneRemoved(name);
    } else {
      RemovedStep(table, name);
      if f == 0 {
        assert table[..0] + table[1..] == table[1..];
      } else {
        RemovedAt(table[1..], name, f - 1);
        hide *;
        if f < |table| { Split(table, f); }
      }
    }
  }

  lemma Split(table: seq<Procedure>, f: nat)
    requires 0 < f < |table|
    ensures table[..f] + table[f + 1..] == [table[0]] + (table[1..][..f - 1] + table[1..][f..])
  {
  }

  /** Inside the loop: the first entry of the name, if any before i, is at f, and those behind it up to i have moved down. */
  ghost predicate Moving(was: seq<Procedure>, now: seq<Procedure>, name: string, f: nat, i: nat) {
    && f <= i <= |was| == |now| && (f < i ==> was[f].name == name)
    && (forall j :: 0 <= j < f ==> was[j].name != name && now[j] == was[j])
    && (forall j :: f <= j < i - 1 ==> now[j] == was[j + 1])
    && (forall j :: i <= j < |was| ==> now[j] == was[j])
  }

  lemma MovingOn(was: seq<Procedure>, now: seq<Procedure>, name: string, f: nat, i: nat)
    requires Moving(was, now, name, f, i) && i < |was|
    ensures f < i ==> Moving(was, now[i - 1 := now[i]], name, f, i + 1)
    ensures f == i && now[i].name == name ==> Moving(was, now, name, f, i + 1)
    ensures f == i && now[i].name != name ==> Moving(was, now, name, i + 1, i + 1)
  {
  }

  /** The entries behind f have moved down by one place. */
  lemma Shifted(table: seq<Procedure>, was: seq<Procedure>, f: nat)
    requires f < |table| == |was|
    requires forall j :: 0 <= j < f ==> table[j] == was[j]
    requires forall j :: f <= j < |was| - 1 ==> table[j] == was[j + 1]
    ensures table[..|table| - 1] == was[..f] + was[f + 1..]
  {
  }

  class Server {
    var procedures: seq<Procedure>
    /** What each procedure does with its params and id. */
    const run: (nat, Option<Value>, Option<Value>) -> Answer
    /** The bytes written to the connection. */
    var sent: string

    constructor (run: (nat, Option<Value>, Option<Value>) -> Answer)
      ensures procedures == [] && sent == "" && this.run == run
    {
      procedures, sent, this.run := [], "", run;
    }

    /** jrpc_register_procedure */
    method RegisterProcedure(code: nat, name: string)
      modifies this`procedures
      ensures procedures == Changed(old(procedures), Register(Procedure(name, code)))
    {
      procedures := procedures + [Procedure(name, code)];
    }

    /** jrpc_deregister_procedure: only an empty table is reported, a name that is not in it is not. */
    method DeregisterProcedure(name: string) returns (status: int)
      modifies this`procedures
      ensures procedures == Changed(old(procedures), Deregister(name))
      ensures status == if old(procedures) == [] then -1 else 0
    {
      hide Removed;
      if procedures == [] {
        NoneRemoved(name);
        return -1;
      }
      var i, found := 0, false;
      ghost var was, f := procedures, 0;
      while i < |procedures|
        invariant 0 <= i <= |procedures| && (found <==> f < i) && Moving(was, procedures, name, f, i)
      {
        MovingOn(was, procedures, name, f, i);
        if found {
          procedures := procedures[i - 1 := procedures[i]];
        } else if procedures[i].name == name {
          found := true;
        }
        i := i + 1;
        if !found { f := i; }
      }
      RemovedAt(was, name, f);
      if found {
        Shifted(procedures, was, f);
        procedures := procedures[..|procedures| - 1];
      } else {
        assert procedures == was;
      }
      return 0;
    }

    /** send_response */
    method SendResponse(response: string)
      modifies this`sent
      ensures sent == old(sent) + response + "\n"
    {
      sent := sent + response + "\n";
    }

    method SendError(code: int, message: string, id: Option<Value>)
      modifies this`sent
      ensures sent == old(sent) + Print(ErrorReply(code, message, id), 0, true) + "\n"
    {
      SendResponse(Print(ErrorReply(code, message, id), 0, true));
    }

    method SendResult(result: Option<Value>, id: Option<Value>)
      modifies this`sent
      ensures sent == old(sent) + Print(ResultReply(result, id), 0, true) + "\n"
    {
      SendResponse(Print(ResultReply(result, id), 0, true));
    }

    /** invoke_procedure */
    method InvokeProcedure(name: string, params: Option<Value>, id: Option<Value>)
      modifies this`sent
      ensures sent == old(sent) + Print(Invocation(procedures, run, name, params, id), 0, true) + "\n"
    {
      var answer, found := Answer(0, "", None), false;
      var i := |procedures|;
      assert procedures[..i] == procedures;
      while i > 0
        invariant 0 <= i <= |procedures| && !found
        invariant Lookup(procedures, name) == Lookup(procedures[..i], name)
      {
        i := i - 1;
        assert procedures[..i + 1][..i] == procedures[..i];
        if procedures[i].name == name {
          found, answer := true, run(procedures[i].code, params, id);
          break;
        }
      }
      if !found {
        SendError(METHOD_NOT_FOUND, "Method not found.", id);
      } else if answer.errorCode != 0 {
        SendError(answer.errorCode, answer.errorMessage, id);
      } else {
        SendResult(answer.returned, id);
      }
    }

    /**
     * eval_request on the parsed tree: three members are looked up by name, their types decide, and a valid request
     * is handed on with a copy of its id.
     */
    method EvalRequest(root: Node, beyond: Int, ghost members: seq<Member>)
      requires root.Valid() && root.Shows(Object(members)) && forall m: Member :: m in members ==> NUL !in m.name
      modifies this`sent
      ensures procedures == old(procedures)
      ensures sent == old(sent) + ReplyText(procedures, run, members, beyond)
    {
      hide Stands, Node.Valid, Node.Shows, IsValidRequest, Reply, ReplyText, ErrorReply, Invocation, Print, CopyId, Get;
      var method_ := FindMember(root, "method", members);
      var params := FindMember(root, "params", members);
      var id := FindMember(root, "id", members);
      var valid := IsWellTyped(method_, params, id, members);
      ReplyIs(procedures, run, members, beyond);
      if valid {
        Validity(members);
        NameStands(method_, Get(members, "method"));
        var given := ReadOptional(params, Get(members, "params"));
        var copy := NewId(id, beyond, Get(members, "id"));
        InvokeProcedure(method_.valuestring.value, given, copy);
      } else {
        SendError(INVALID_REQUEST, "The JSON sent is not a valid Request object.", None);
      }
    }
  }

  method FindMember(root: Node, name: string, ghost members: seq<Member>) returns (c: Node?)
    requires root.Valid() && root.Shows(Object(members)) && NUL !in name && forall m: Member :: m in members ==> NUL !in m.name
    ensures Stands(c, Get(members, name))
  {
    hide Stands, Get, Node.Valid, Node.Shows;
    c := GetObjectItem(root, name, members);
    Found(c, members, name);
  }

  /** The types of the three members decide. */
  method IsWellTyped(method_: Node?, params: Node?, id: Node?, ghost members: seq<Member>) returns (valid: bool)
    requires Stands(method_, Get(members, "method")) && Stands(params, Get(members, "params")) && Stands(id, Get(members, "id"))
    ensures valid == IsValidRequest(members)
  {
    hide Get, IsValidRequest, Node.Valid, Node.Shows;
    Validity(members);
    valid := method_ != null && method_.kind == StringNode && (params == null || params.kind in [ArrayNode, ObjectNode])
             && (id == null || id.kind in [StringNode, NumberNode]);
  }

  lemma NameStands(c: Node?, v: Option<Value>)
    requires Stands(c, v) && v.Some? && v.value.Str?
    ensures c != null && c.valuestring == Some(v.value.text)
  {
    hide Node.Valid, Node.Shows;
  }

  /** What a lookup found, if anything, is the node of the value that the specification finds. */
  lemma Found(c: Node?, members: seq<Member>, name: string)
    requires var k := FirstNamed(members, name);
             if k < |members| then c != null && c.Valid() && c.Shows(members[k].value) else c == null
    ensures Stands(c, Get(members, name))
  {
    hide Node.Valid, Node.Shows;
    if c != null { KindShows(c, members[FirstNamed(members, name)].value); }
  }

  /** The node stands for the value, if there is one. */
  ghost predicate Stands(c: Node?, v: Option<Value>)
    reads c, if c == null then {} else c.repr
  {
    if v == None then c == null
    else
      && c != null && c.Valid() && c.Shows(v.value)
      && (c.kind == StringNode <==> v.value.Str?) && (c.kind == NumberNode <==> v.value.Number?)
      && (c.kind == ArrayNode <==> v.value.Array?) && (c.kind == ObjectNode <==> v.value.Object?)
      && (v.value.Str? ==> c.valuestring == Some(v.value.text))
      && (v.value.Number? ==> c.mantissa == v.value.mantissa && c.exponent == v.value.exponent)
  }

  lemma KindShows(c: Node, v: Value)
    requires c.Valid() && c.Shows(v)
    ensures Stands(c, Some(v))
    ensures c.kind == (match v case Null => NullNode case False => FalseNode case True => TrueNode case Number(_, _) => NumberNode
                       case Str(_) => StringNode case Array(_) => ArrayNode case Object(_) => ObjectNode)
  {
  }

  lemma Validity(members: seq<Member>)
    ensures var method_, params, id := Get(members, "method"), Get(members, "params"), Get(members, "id");
            IsValidRequest(members) <==>
              && method_.Some? && method_.value.Str?
              && (params.Some? ==> params.value.Array? || params.value.Object?)
              && (id.Some? ==> id.value.Str? || id.value.Number?)
  {
    hide Get;
  }

  lemma ReplyIs(table: seq<Procedure>, run: (nat, Option<Value>, Option<Value>) -> Answer, members: seq<Member>, beyond: Int)
    ensures Reply(table, run, members, beyond) ==
              if IsValidRequest(members) then
                Invocation(table, run, Get(members, "method").value.text, Get(members, "params"), CopyId(Get(members, "id"), beyond))
              else ErrorReply(INVALID_REQUEST, "The JSON sent is not a valid Request object.", None)
    ensures ReplyText(table, run, members, beyond) == Print(Reply(table, run, members, beyond), 0, true) + "\n"
  {
    hide IsValidRequest, Invocation, Get, CopyId, ErrorReply, Print;
  }

  /** The copy of the id: a new string, or a new number made from valueint. */
  method NewId(id: Node?, beyond: Int, ghost v: Option<Value>) returns (copy: Option<Value>)
    requires Stands(id, v) && (v.Some? ==> v.value.Str? || v.value.Number?)
    ensures copy == CopyId(v, beyond)
  {
    hide Node.Valid, Node.Shows, ValueInt;
    if id == null { return None; }
    if id.kind == StringNode { return Some(Str(id.valuestring.value)); }
    return Some(Number(ValueInt(id.mantissa, id.exponent, beyond), 0));
  }

  method ReadOptional(c: Node?, ghost v: Option<Value>) returns (w: Option<Value>)
    requires Stands(c, v)
    ensures w == v
  {
    hide Node.Valid, Node.Shows;
    if c == null { return None; }
    var x := ReadValue(c, v.value);
    w := Some(x);
  }

  /** What a handler that walks a tree finds in it. */
  method ReadValue(n: Node, ghost v: Value) returns (w: Value)
    requires n.Valid() && n.Shows(v)
    ensures w == v
    decreases v, 1
  {
    hide Node.Valid, Node.Shows;
    KindShows(n, v);
    match n.kind
    case NullNode => w := Null;
    case FalseNode => w := False;
    case TrueNode => w := True;
    case NumberNode => w := Number(n.mantissa, n.exponent);
    case StringNode => w := Str(n.valuestring.value);
    case ArrayNode =>
      var items := ReadItems(n, v);
      w := Array(items);
    case ObjectNode =>
      var members := ReadMembers(n, v);
      w := Object(members);
  }

  method ReadItems(n: Node, ghost v: Value) returns (items: seq<Value>)
    requires v.Array? && n.Valid() && n.Shows(v)
    ensures items == v.items
    decreases v, 0
  {
    hide Node.Valid, Node.Shows;
    ArrayShows(n, v.items);
    Walk(n, 0);
    items := [];
    var c := n.child;
    ghost var k := 0;
    while c != null
      invariant 0 <= k <= |n.kids| == |v.items| && c == (if k == |n.kids| then null else n.kids[k]) && items == v.items[..k]
      decreases |n.kids| - k
    {
      EntryShows(n, v.items, k);
      var x := ReadValue(c, v.items[k]);
      items := items + [x];
      Walk(n, k);
      c, k := c.next, k + 1;
    }
  }

  method ReadMembers(n: Node, ghost v: Value) returns (members: seq<Member>)
    requires v.Object? && n.Valid() && n.Shows(v)
    ensures members == v.members
    decreases v, 0
  {
    hide Node.Valid, Node.Shows;
    ObjectShows(n, v.members);
    Walk(n, 0);
    members := [];
    var c := n.child;
    ghost var k := 0;
    while c != null
      invariant 0 <= k <= |n.kids| == |v.members| && c == (if k == |n.kids| then null else n.kids[k]) && members == v.members[..k]
      decreases |n.kids| - k
    {
      ItemShows(n, v.members, k);
      assert v.members[k] < v;
      var x := ReadValue(c, v.members[k].value);
      members := members + [Member(c.name.value, x)];
      Walk(n, k);
      c, k := c.next, k + 1;
    }
  }

  lemma ArrayShows(tree: Node, items: seq<Value>)
    requires tree.Valid() && tree.Shows(Array(items))
    ensures !tree.isReference && |tree.kids| == |items|
  {
  }

  lemma EntryShows(tree: Node, items: seq<Value>, k: nat)
    requires tree.Valid() && tree.Shows(Array(items)) && k < |items|
    ensures k < |tree.kids| && tree.kids[k].Valid() && tree.kids[k].Shows(items[k])
  {
  }

  function Invocation(table: seq<Procedure>, run: (nat, Option<Value>, Option<Value>) -> Answer,
                      name: string, params: Option<Value>, id: Option<Value>): Value
  {
    match Lookup(table, name)
    case None => ErrorReply(METHOD_NOT_FOUND, "Method not found.", id)
    case Some(code) =>
      var answer := run(code, params, id);
      if answer.errorCode != 0 then ErrorReply(answer.errorCode, answer.errorMessage, id)
      else ResultReply(answer.returned, id)
  }

  /** What is written to the connection for a request object. */
  function ReplyText(table: seq<Procedure>, run: (nat, Option<Value>, Option<Value>) -> Answer, members: seq<Member>,
                     beyond: Int): string
  {
    Print(Reply(table, run, members, beyond), 0, true) + "\n"
  }

  /** The reply to a request object. */
  function Reply(table: seq<Procedure>, run: (nat, Option<Value>, Option<Value>) -> Answer, members: seq<Member>,
                 beyond: Int): Value
  {
    if IsValidRequest(members) then
      Invocation(table, run, Get(members, "method").value.text, Get(members, "params"), CopyId(Get(members, "id"), beyond))
    else ErrorReply(INVALID_REQUEST, "The JSON sent is not a valid Request object.", None)
  }

  // ---------------------------------------------------------------- what a client can rely on

  predicate Has(reply: Value, name: string)
    requires reply.Object?
  {
    exists i :: 0 <= i < |reply.members| && reply.members[i].name == name
  }

  /** A known procedure that reports no error and returns nothing. */
  predicate ReturnsNothing(table: seq<Procedure>, run: (nat, Option<Value>, Option<Value>) -> Answer,
                           members: seq<Member>, beyond: Int)
  {
    && IsValidRequest(members)
    && var code := Lookup(table, Get(members, "method").value.text);
       && code.Some?
       && var answer := run(code.value, Get(members, "params"), CopyId(Get(members, "id"), beyond));
          answer.errorCode == 0 && answer.returned == None
  }

  /**
   * Never both result and error. One of them is there exactly unless a procedure returned nothing without an error;
   * an id is there exactly when a valid request had one.
   */
  lemma ReplyShape(table: seq<Procedure>, run: (nat, Option<Value>, Option<Value>) -> Answer, members: seq<Member>,
                   beyond: Int)
    ensures var r := Reply(table, run, members, beyond);
            && r.Object?
            && !(Has(r, "result") && Has(r, "error"))
            && (Has(r, "result") || Has(r, "error") <==> !ReturnsNothing(table, run, members, beyond))
            && (Has(r, "id") <==> IsValidRequest(members) && Get(members, "id").Some?)
  {
    hide Lookup, Get, CopyId;
    var r := Reply(table, run, members, beyond);
    if IsValidRequest(members) {
      CopyKeepsPresence(Get(members, "id"), beyond);
      InvocationShape(table, run, Get(members, "method").value.text, Get(members, "params"),
                      CopyId(Get(members, "id"), beyond));
    } else {
      assert r.members[0].name == "error";
    }
  }

  lemma InvocationShape(table: seq<Procedure>, run: (nat, Option<Value>, Option<Value>) -> Answer,
                        name: string, params: Option<Value>, id: Option<Value>)
    ensures var r, code := Invocation(table, run, name, params, id), Lookup(table, name);
            && r.Object?
            && !(Has(r, "result") && Has(r, "error"))
            && (Has(r, "result") || Has(r, "error") <==>
                !(code.Some? && run(code.value, params, id).errorCode == 0 && run(code.value, params, id).returned == None))
            && (Has(r, "id") <==> id.Some?)
            && (id.Some? ==> r.members != [] && r.members[|r.members| - 1] == Member("id", id.value))
  {
    hide Lookup;
    var r := Invocation(table, run, name, params, id);
    if r.members != [] { assert r.members[0].name in ["error", "result", "id"]; }
    if id.Some? { assert r.members[|r.members| - 1].name == "id"; }
  }

  lemma CopyKeepsPresence(id: Option<Value>, beyond: Int)
    ensures CopyId(id, beyond).Some? <==> id.Some?
  {
  }

  /** A procedure that reports no error and returns nothing: the request {"method": "m"} is answered by {}. */
  lemma SilentProcedure(beyond: Int)
    ensures Reply([Procedure("m", 0)], (_, _, _) => Answer(0, "", None), [Member("method", Str("m"))], beyond) == Object([])
  {
    var members := [Member("method", Str("m"))];
    assert Lower("method"[0]) != Lower("params"[0]);
    FirstIs(members, "method", 0);
    FirstIs(members, "params", 1);
    FirstIs(members, "id", 1);
  }

  // ---------------------------------------------------------------- the id

  predicate Denotes(n: int, mantissa: int, exponent: int) {
    if exponent >= 0 then n == mantissa * Power10(exponent) else n * Power10(-exponent) == mantissa
  }

  predicate IsWhole(mantissa: int, exponent: int) {
    exponent >= 0 || mantissa % Power10(-exponent) == 0
  }

  /** The same string, or an int that is the same number. */
  predicate SameId(copy: Value, id: Value) {
    match id
    case Str(_) => copy == id
    case Number(m, e) => copy.Number? && copy.exponent == 0 && Denotes(copy.mantissa, m, e)
    case _ => false
  }

  /** An id that survives being copied: a string, or a whole number in the range of int. */
  predicate Copyable(id: Value) {
    match id
    case Str(_) => true
    case Number(m, e) => IsWhole(m, e) && InInt(Cut(m, e))
    case _ => false
  }

  lemma CutDenotes(mantissa: int, exponent: int)
    ensures Denotes(Cut(mantissa, exponent), mantissa, exponent) <==> IsWhole(mantissa, exponent)
  {
    if exponent < 0 {
      var p := Power10(-exponent);
      if mantissa >= 0 {
        assert mantissa == mantissa / p * p + mantissa % p;
      } else {
        assert -mantissa == -mantissa / p * p + -mantissa % p;
        NegatedMod(mantissa, p);
      }
    }
  }

  /** An integer no further from 0 than the number, and less than 1 away. */
  lemma CutTowardsZero(mantissa: int, exponent: int)
    ensures var n := Cut(mantissa, exponent);
            if exponent >= 0 then n == mantissa * Power10(exponent)
            else
              var p := Power10(-exponent);
              if mantissa >= 0 then n >= 0 && n * p <= mantissa < n * p + p else n <= 0 && n * p - p < mantissa <= n * p
  {
    if exponent < 0 {
      var p, size := Power10(-exponent), if mantissa >= 0 then mantissa else -mantissa;
      hide Power10;
      QuotientBound(size, p);
      Negated(size / p, p);
    }
  }

  lemma Negated(q: int, p: int)
    ensures -q * p == -(q * p)
  {
  }

  /** No other integer is that number. */
  lemma DenotesOne(n: int, mantissa: int, exponent: int)
    requires Denotes(n, mantissa, exponent)
    ensures IsWhole(mantissa, exponent) && n == Cut(mantissa, exponent)
  {
    if exponent < 0 {
      var p := Power10(-exponent);
      Multiple(mantissa, n, p);
      CutDenotes(mantissa, exponent);
      SameFactor(n, Cut(mantissa, exponent), p);
    }
  }

  lemma SameFactor(a: int, b: int, p: int)
    requires p > 0 && a * p == b * p
    ensures a == b
  {
    assert (a - b) * p == 0;
  }

  lemma NegatedMod(a: int, p: int)
    requires p > 0
    ensures -a % p == 0 <==> a % p == 0
  {
    if a % p == 0 {
      Multiple(-a, -(a / p), p);
    }
    if -a % p == 0 {
      Multiple(a, -(-a / p), p);
    }
  }

  /**
   * A number copied as an id is the same number exactly when it is whole and in the range of int,
   * whatever the conversion gives outside that range.
   */
  lemma IdIsTruncated(mantissa: int, exponent: int, beyond: Int)
    ensures Denotes(ValueInt(mantissa, exponent, beyond), mantissa, exponent) <==>
            IsWhole(mantissa, exponent) && InInt(Cut(mantissa, exponent))
  {
    hide Denotes, IsWhole, Cut;
    CutDenotes(mantissa, exponent);
    if Denotes(ValueInt(mantissa, exponent, beyond), mantissa, exponent) {
      DenotesOne(ValueInt(mantissa, exponent, beyond), mantissa, exponent);
    }
  }

  /** The id of a reply stands last in it, and is the request's own exactly when that is a string or a whole int. */
  lemma ReplyId(table: seq<Procedure>, run: (nat, Option<Value>, Option<Value>) -> Answer, members: seq<Member>,
                beyond: Int)
    requires IsValidRequest(members) && Get(members, "id").Some?
    ensures var r, id := Reply(table, run, members, beyond), Get(members, "id").value;
            && r.Object? && r.members != [] && r.members[|r.members| - 1].name == "id"
            && (SameId(r.members[|r.members| - 1].value, id) <==> Copyable(id))
  {
    hide Get, Invocation, Denotes, IsWhole, Cut, ValueInt;
    var id := Get(members, "id");
    if id.value.Number? { IdIsTruncated(id.value.mantissa, id.value.exponent, beyond); }
    InvocationShape(table, run, Get(members, "method").value.text, Get(members, "params"), CopyId(id, beyond));
  }

  /** The request {"method": "m", "id": 3000000000} never gets its id back. */
  lemma BigIdLost(table: seq<Procedure>, run: (nat, Option<Value>, Option<Value>) -> Answer, beyond: Int)
    ensures var r := Reply(table, run, [Member("method", Str("m")), Member("id", Number(3000000000, 0))], beyond);
            r.Object? && r.members != [] && !SameId(r.members[|r.members| - 1].value, Number(3000000000, 0))
  {
    var method_, id := Member("method", Str("m")), Member("id", Number(3000000000, 0));
    var members := [method_, id];
    assert members[1..] == [id] && members[1..][1..] == [];
    FirstIs(members, "method", 0);
    FirstIs(members, "id", 1);
    assert Lower("method"[0]) != Lower("params"[0]);
    FirstIs(members, "params", 2);
    hide Reply, FirstNamed;
    ReplyId(table, run, members, beyond);
    assert Cut(3000000000, 0) == 3000000000;
  }

  // ---------------------------------------------------------------- reading a reply back

  /** What procedures must give for their replies to be text that a parser takes back. */
  ghost predicate Presentable(run: (nat, Option<Value>, Option<Value>) -> Answer) {
    forall code, params, id ::
      var a := run(code, params, id);
      InInt(a.errorCode) && NUL !in a.errorMessage && (a.returned.Some? ==> Printable(a.returned.value))
  }

  lemma ErrorPrintable(code: int, message: string, id: Option<Value>)
    requires InInt(code) && NUL !in message && (id.Some? ==> Printable(id.value))
    ensures Printable(ErrorReply(code, message, id))
  {
    var ms := [Member("code", Number(code, 0)), Member("message", Str(message))];
    assert Printable(Object(ms));
  }

  lemma ResultPrintable(result: Option<Value>, id: Option<Value>)
    requires (result.Some? ==> Printable(result.value)) && (id.Some? ==> Printable(id.value))
    ensures Printable(ResultReply(result, id))
  {
  }

  lemma InvocationPrintable(table: seq<Procedure>, run: (nat, Option<Value>, Option<Value>) -> Answer,
                            name: string, params: Option<Value>, id: Option<Value>)
    requires Presentable(run) && (id.Some? ==> Printable(id.value))
    ensures Printable(Invocation(table, run, name, params, id))
  {
    hide Lookup, ErrorReply, ResultReply, Printable;
    ErrorPrintable(METHOD_NOT_FOUND, "Method not found.", id);
    var code := Lookup(table, name);
    if code.Some? {
      var a := run(code.value, params, id);
      if a.errorCode == 0 { ResultPrintable(a.returned, id); } else { ErrorPrintable(a.errorCode, a.errorMessage, id); }
    }
  }

  /** A copied number is an int, whatever it was before. */
  lemma CopyPrintable(id: Option<Value>, beyond: Int)
    requires id.Some? ==> id.value.Number? || (id.value.Str? && NUL !in id.value.text)
    ensures CopyId(id, beyond).Some? ==> Printable(CopyId(id, beyond).value)
  {
  }

  lemma ReplyPrintable(table: seq<Procedure>, run: (nat, Option<Value>, Option<Value>) -> Answer, members: seq<Member>,
                       beyond: Int)
    requires Presentable(run)
    requires var id := Get(members, "id"); id.Some? && id.value.Str? ==> NUL !in id.value.text
    ensures Printable(Reply(table, run, members, beyond))
  {
    hide Get, ErrorReply, Invocation, Presentable, Printable, CopyId;
    ErrorPrintable(INVALID_REQUEST, "The JSON sent is not a valid Request object.", None);
    if IsValidRequest(members) {
      var id := Get(members, "id");
      CopyPrintable(id, beyond);
      InvocationPrintable(table, run, Get(members, "method").value.text, Get(members, "params"), CopyId(id, beyond));
    }
  }

  /**
   * The bytes sent for a request are read back, by the same parser and whatever follows them, as exactly that reply,
   * whatever the request's params hold; a text id must only have no NUL in it, which no parsed string has. What is read
   * back ends with the request's own id exactly when that is a string or a whole int.
   */
  lemma ReplyReadsBack(table: seq<Procedure>, run: (nat, Option<Value>, Option<Value>) -> Answer,
                       members: seq<Member>, beyond: Int, after: string)
    requires Presentable(run) && Terminated(after)
    requires var id := Get(members, "id"); id.Some? && id.value.Str? ==> NUL !in id.value.text
    ensures var r, sent, id := Reply(table, run, members, beyond), ReplyText(table, run, members, beyond), Get(members, "id");
            && ParseStream(sent + after) == Parsed(r, |sent| - 1)
            && r.Object? && (IsValidRequest(members) && id.Some? ==>
                r.members != [] && r.members[|r.members| - 1].name == "id"
                && (SameId(r.members[|r.members| - 1].value, id.value) <==> Copyable(id.value)))
  {
    hide Lookup, Get, Print, CopyId, Printable, IsValidRequest, SameId, Copyable, Reply, ParseStream, Has, Presentable;
    hide ReturnsNothing;
    var r := Reply(table, run, members, beyond);
    ReplyPrintable(table, run, members, beyond);
    ReplyShape(table, run, members, beyond);
    PrintThenParse(r, true, "\n" + after);
    assert Print(r, 0, true) + "\n" + after == Print(r, 0, true) + ("\n" + after);
    if IsValidRequest(members) && Get(members, "id").Some? { ReplyId(table, run, members, beyond); }
  }

  lemma GetNulFree(members: seq<Member>, name: string)
    requires NulFree(Object(members)) && Get(members, name).Some?
    ensures NulFree(Get(members, name).value)
  {
    assert members[FirstNamed(members, name)] in members;
  }

  /** For a request that came out of the parser, nothing has to be asked of the request. */
  lemma ParsedRequestAnswered(table: seq<Procedure>, run: (nat, Option<Value>, Option<Value>) -> Answer,
                              mem: string, members: seq<Member>, e: nat, beyond: Int, after: string)
    requires Terminated(mem) && ParseStream(mem) == Parsed(Object(members), e)
    requires Presentable(run) && Terminated(after)
    ensures var sent := ReplyText(table, run, members, beyond);
            ParseStream(sent + after) == Parsed(Reply(table, run, members, beyond), |sent| - 1)
  {
    hide ValueAt, Skip, Get, Reply, ReplyText, Presentable;
    ParsedNulFree(mem, Skip(mem, 0));
    if Get(members, "id").Some? { GetNulFree(members, "id"); }
    ReplyReadsBack(table, run, members, beyond, after);
  }

  // ---------------------------------------------------------------- what the reply to a request says

  /** The value of the first member of just that name. */
  function MemberOf(v: Value, name: string): Option<Value> {
    if v.Object? then FirstMember(v.members, name) else None
  }

  function FirstMember(members: seq<Member>, name: string): Option<Value> {
    if members == [] then None
    else if members[0].name == name then Some(members[0].value)
    else FirstMember(members[1..], name)
  }

  /** No result, and an error that holds just this code and this message. */
  predicate SaysError(reply: Value, code: int, message: string) {
    && reply.Object? && MemberOf(reply, "result") == None
    && var e := MemberOf(reply, "error");
       && e.Some? && e.value.Object? && |e.value.members| == 2
       && MemberOf(e.value, "code") == Some(Number(code, 0)) && MemberOf(e.value, "message") == Some(Str(message))
  }

  /** No error, and a result exactly if there is one. */
  predicate SaysResult(reply: Value, result: Option<Value>) {
    reply.Object? && MemberOf(reply, "error") == None && MemberOf(reply, "result") == result
  }

  lemma FirstStep(m: Member, rest: seq<Member>, name: string)
    ensures FirstMember([m] + rest, name) == if m.name == name then Some(m.value) else FirstMember(rest, name)
    ensures FirstMember([], name) == None
  {
    assert ([m] + rest)[1..] == rest;
  }

  lemma TwoMembers(a: Member, b: Member, name: string)
    ensures FirstMember([a, b], name) == if a.name == name then Some(a.value) else if b.name == name then Some(b.value) else None
  {
    hide FirstMember;
    FirstStep(a, [b], name);
    FirstStep(b, [], name);
    assert [a] + [b] == [a, b] && [b] + [] == [b];
  }

  /** A member in front of the id. */
  lemma BeforeId(m: Member, id: Option<Value>, name: string)
    requires name != "id"
    ensures FirstMember([m] + WithId(id), name) == if m.name == name then Some(m.value) else None
    ensures FirstMember([] + WithId(id), name) == None
  {
    hide FirstMember;
    FirstStep(m, WithId(id), name);
    assert [] + WithId(id) == WithId(id);
    if id.Some? {
      FirstStep(Member("id", id.value), [], name);
      assert [Member("id", id.value)] + [] == WithId(id);
    } else {
      FirstStep(m, [], name);
    }
  }

  lemma ErrorSays(code: int, message: string, id: Option<Value>)
    ensures SaysError(ErrorReply(code, message, id), code, message)
  {
    var c, m := Member("code", Number(code, 0)), Member("message", Str(message));
    var error := Member("error", Object([c, m]));
    BeforeId(error, id, "result");
    BeforeId(error, id, "error");
    TwoMembers(c, m, "code");
    TwoMembers(c, m, "message");
  }

  lemma ResultSays(result: Option<Value>, id: Option<Value>)
    ensures SaysResult(ResultReply(result, id), result)
  {
    var m := Member("result", if result.Some? then result.value else Null);
    BeforeId(m, id, "result");
    BeforeId(m, id, "error");
  }

  /** Entry i is the one that was registered last under its name. */
  predicate IsNewest(table: seq<Procedure>, name: string, i: nat) {
    i < |table| && table[i].name == name && forall j :: i < j < |table| ==> table[j].name != name
  }

  lemma {:induction false} NewestFound(table: seq<Procedure>, name: string, i: nat)
    ensures IsNewest(table, name, i) ==> Lookup(table, name) == Some(table[i].code)
    ensures (forall j :: 0 <= j < |table| ==> table[j].name != name) ==> Lookup(table, name) == None
  {
    if table != [] && table[|table| - 1].name != name { NewestFound(table[..|table| - 1], name, i); }
  }

  /** The request as eval_request wants it: a method, and params and id of the right kinds, if there are any. */
  predicate Answerable(method_: Option<Value>, params: Option<Value>, id: Option<Value>) {
    && method_.Some? && method_.value.Str?
    && (params.Some? ==> params.value.Array? || params.value.Object?)
    && (id.Some? ==> id.value.Str? || id.value.Number?)
  }

  /**
   * What is sent for a request, read back: the newest procedure of the method's name is called with the params and the
   * copy of the id, and its result, or its error's code and message, is what the reply holds.
   */
  lemma AnswerDelivered(table: seq<Procedure>, run: (nat, Option<Value>, Option<Value>) -> Answer,
                        members: seq<Member>, beyond: Int, after: string, i: nat)
    requires Presentable(run) && Terminated(after)
    requires var id := Get(members, "id"); id.Some? && id.value.Str? ==> NUL !in id.value.text
    requires Answerable(Get(members, "method"), Get(members, "params"), Get(members, "id"))
    requires IsNewest(table, Get(members, "method").value.text, i)
    ensures var sent, a := ReplyText(table, run, members, beyond),
                           run(table[i].code, Get(members, "params"), CopyId(Get(members, "id"), beyond));
            var o := ParseStream(sent + after);
            && o.Parsed? && o.end == |sent| - 1
            && (a.errorCode == 0 ==> SaysResult(o.value, a.returned))
            && (a.errorCode != 0 ==> SaysError(o.value, a.errorCode, a.errorMessage))
  {
    hide Lookup, Get, CopyId, Presentable, ParseStream, SaysResult, SaysError, ErrorReply, ResultReply, ReplyText;
    var a := run(table[i].code, Get(members, "params"), CopyId(Get(members, "id"), beyond));
    ReplyReadsBack(table, run, members, beyond, after);
    NewestFound(table, Get(members, "method").value.text, i);
    ResultSays(a.returned, CopyId(Get(members, "id"), beyond));
    ErrorSays(a.errorCode, a.errorMessage, CopyId(Get(members, "id"), beyond));
  }

  /** An unknown method, and a request of the wrong form, are told apart by their codes. */
  lemma RefusalDelivered(table: seq<Procedure>, run: (nat, Option<Value>, Option<Value>) -> Answer,
                         members: seq<Member>, beyond: Int, after: string)
    requires Presentable(run) && Terminated(after)
    requires var id := Get(members, "id"); id.Some? && id.value.Str? ==> NUL !in id.value.text
    ensures var method_, o := Get(members, "method"), ParseStream(ReplyText(table, run, members, beyond) + after);
            && o.Parsed?
            && (!Answerable(method_, Get(members, "params"), Get(members, "id")) ==>
                  SaysError(o.value, -32600, "The JSON sent is not a valid Request object.") && MemberOf(o.value, "id") == None)
            && (Answerable(method_, Get(members, "params"), Get(members, "id"))
                && (forall j :: 0 <= j < |table| ==> table[j].name != method_.value.text) ==>
                  SaysError(o.value, -32601, "Method not found."))
  {
    hide Lookup, Get, CopyId, Presentable, ParseStream, SaysError, ErrorReply, ResultReply, ReplyText, MemberOf;
    ReplyReadsBack(table, run, members, beyond, after);
    ErrorSays(INVALID_REQUEST, "The JSON sent is not a valid Request object.", None);
    ErrorSays(METHOD_NOT_FOUND, "Method not found.", CopyId(Get(members, "id"), beyond));
    NoId(INVALID_REQUEST, "The JSON sent is not a valid Request object.");
    if Answerable(Get(members, "method"), Get(members, "params"), Get(members, "id")) {
      NewestFound(table, Get(members, "method").value.text, 0);
    }
  }

  lemma NoId(code: int, message: string)
    ensures MemberOf(ErrorReply(code, message, None), "id") == None
  {
    var error := Member("error", Object([Member("code", Number(code, 0)), Member("message", Str(message))]));
    assert [error] + WithId(None) == [error] + [];
    FirstStep(error, [], "id");
  }
}
