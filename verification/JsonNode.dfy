/** The cJSON node: sibling chains, the tree below a node, and the operations that relink chains. */
module JsonNode {
  import opened Json

  datatype Kind = FalseNode | TrueNode | NullNode | NumberNode | StringNode | ArrayNode | ObjectNode

  /**
   * The allocator's view: the nodes that were made and not given back yet. A node can only be made by recording it
   * here, and Free takes only a node that is here, so none is freed twice.
   */
  class Heap {
    ghost var live: set<Node>

    constructor ()
      ensures live == {}
    {
      live := {};
    }

    method Free(n: Node)
      requires n in live
      modifies this
      ensures live == old(live) - {n}
    {
      live := live - {n};
    }
  }

  class Node {
    var next: Node?
    var prev: Node?
    var child: Node?
    var kind: Kind
    var isReference: bool
    var valuestring: Option<string>
    var mantissa: int
    var exponent: int
    var name: Option<string>

    /** The chain that starts at `child`, and every node this one owns, itself included. */
    ghost var kids: seq<Node>
    ghost var repr: set<Node>

    /** cJSON_New_Item: all zero. */
    constructor (heap: Heap)
      modifies heap
      ensures next == null && prev == null && Blank() && name == None
      ensures heap.live == old(heap.live) + {this}
    {
      next, prev, child := null, null, null;
      kind, isReference := FalseNode, false;
      valuestring, mantissa, exponent, name := None, 0, 0, None;
      kids, repr := [], {this};
      new;
      heap.live := heap.live + {this};
    }

    /** Nothing hangs below yet. */
    ghost predicate Blank()
      reads this
    {
      child == null && kids == [] && repr == {this} && !isReference && valuestring == None
    }

    /**
     * What a node owns is itself and the disjoint, well-formed nodes of its chain; a reference owns itself only.
     * Its own place among its siblings does not matter.
     */
    ghost predicate Valid()
      reads this`child, this`isReference, this`kids, this`repr, repr - {this}
      decreases repr, 0
    {
      && this in repr && (forall k :: k in kids ==> k in repr && k != this)
      && (if isReference then kids == [] else Linked(kids, child))
      && Separate(kids)
      && repr == {this} + Union(kids)
      && AllValid(kids, repr - {this})
    }

    /** The node and all below it are a tree without references that stands for v. */
    ghost predicate Shows(v: Value)
      requires Valid()
      reads this`child, this`isReference, this`kids, this`repr, repr - {this}
      reads this`kind, this`valuestring, this`mantissa, this`exponent
      decreases v, 0
    {
      && !isReference
      && match v
         case Null => kind == NullNode
         case False => kind == FalseNode
         case True => kind == TrueNode
         case Number(m, e) => kind == NumberNode && mantissa == m && exponent == e
         case Str(s) => kind == StringNode && valuestring == Some(s)
         case Array(items) => kind == ArrayNode && ShowItems(kids, items, repr - {this})
         case Object(members) => kind == ObjectNode && ShowMembers(kids, members, repr - {this})
    }
  }

  /** next and prev are mutually inverse along the chain, which starts at head and ends. */
  ghost predicate Linked(chain: seq<Node>, head: Node?)
    reads chain`next, chain`prev
  {
    && (chain == [] <==> head == null)
    && (chain != [] ==> head == chain[0] && chain[0].prev == null && chain[|chain| - 1].next == null)
    && (forall i :: 0 <= i < |chain| - 1 ==> chain[i].next == chain[i + 1] && chain[i + 1].prev == chain[i])
  }

  /** No node is owned by two members of the chain; in particular the chain has no cycle. */
  ghost predicate Separate(chain: seq<Node>)
    reads chain`repr
  {
    && (forall i :: 0 <= i < |chain| ==> chain[i] in chain[i].repr)
    && (forall i, j :: 0 <= i < j < |chain| ==> chain[i].repr !! chain[j].repr)
  }

  /** Everything owned by the members of a chain. */
  ghost function Union(chain: seq<Node>): set<Node>
    reads chain`repr
  {
    if chain == [] then {} else Union(chain[..|chain| - 1]) + chain[|chain| - 1].repr
  }

  /** The members of a chain are well-formed and own nothing outside `all`. */
  ghost predicate AllValid(chain: seq<Node>, all: set<Node>)
    requires Separate(chain)
    reads chain`child, chain`isReference, chain`kids, chain`repr, all - (set k | k in chain)
    decreases all, 1
  {
    forall k :: k in chain ==> k.repr <= all && k.Valid()
  }

  ghost predicate ShowItems(chain: seq<Node>, vs: seq<Value>, all: set<Node>)
    requires Separate(chain) && AllValid(chain, all)
    reads chain`child, chain`isReference, chain`kids, chain`repr, all - (set k | k in chain)
    reads chain`kind, chain`valuestring, chain`mantissa, chain`exponent
    decreases vs
  {
    |chain| == |vs| && forall i :: 0 <= i < |vs| ==> chain[i].Shows(vs[i])
  }

  ghost predicate ShowMembers(chain: seq<Node>, ms: seq<Member>, all: set<Node>)
    requires Separate(chain) && AllValid(chain, all)
    reads chain`child, chain`isReference, chain`kids, chain`repr, all - (set k | k in chain)
    reads chain`kind, chain`valuestring, chain`mantissa, chain`exponent, chain`name
    decreases ms
  {
    |chain| == |ms| && forall i :: 0 <= i < |ms| ==> chain[i].name == Some(ms[i].name) && chain[i].Shows(ms[i].value)
  }

  // ---------------------------------------------------------------- growing a chain

  lemma AppendSeparate(chain: seq<Node>, item: Node, all: set<Node>)
    requires Separate(chain) && (forall k :: k in chain ==> k.repr <= all) && item in item.repr && item.repr !! all
    ensures Separate(chain + [item])
  {
  }

  lemma AppendUnion(chain: seq<Node>, item: Node)
    ensures Union(chain + [item]) == Union(chain) + item.repr
  {
    assert (chain + [item])[..|chain|] == chain;
  }

  lemma AppendValid(chain: seq<Node>, item: Node, all: set<Node>)
    requires Separate(chain) && AllValid(chain, all) && item.Valid() && item.repr !! all
    ensures Separate(chain + [item]) && AllValid(chain + [item], all + item.repr)
  {
    AppendSeparate(chain, item, all);
  }

  /** suffix_object, on the last node of a chain: the new item and all it owns now belong to `parent`. */
  method SuffixObject(parent: Node, last: Node, item: Node)
    requires parent.Valid() && !parent.isReference && parent.kids != [] && last == parent.kids[|parent.kids| - 1]
    requires item.Valid() && item.repr !! parent.repr && item.next == null
    modifies last`next, item`prev, parent`kids, parent`repr
    ensures parent.Valid() && parent.kids == old(parent.kids) + [item] && parent.repr == old(parent.repr) + item.repr
    ensures item.prev == last && last.next == item
  {
    hide Node.Valid, AllValid, Separate, Union;
    ghost var before, all := parent.kids, parent.repr;
    Unfold(parent);
    Unfold(item);
    DistinctLinks(before);
    last.next := item;
    item.prev := last;
    assert Linked(before + [item], parent.child);
    hide Linked;
    AppendValid(before, item, all - {parent});
    AppendUnion(before, item);
    assert all + item.repr - {parent} == all - {parent} + item.repr;
    Adopt(parent, before + [item], all + item.repr);
  }

  /** A parent takes over a chain that is linked below it. */
  ghost method Adopt(parent: Node, kids: seq<Node>, repr: set<Node>)
    requires !parent.isReference && parent !in kids && repr == {parent} + Union(kids)
    requires Separate(kids) && AllValid(kids, repr - {parent}) && Linked(kids, parent.child)
    modifies parent`kids, parent`repr
    ensures parent.Valid() && parent.kids == kids && parent.repr == repr
  {
    hide Node.Valid, AllValid, Separate, Union, Linked;
    parent.kids, parent.repr := kids, repr;
    Fold(parent);
  }

  lemma DistinctLinks(chain: seq<Node>)
    requires Separate(chain)
    ensures forall i, j :: 0 <= i < j < |chain| ==> chain[i] != chain[j]
  {
  }

  lemma Unfold(n: Node)
    requires n.Valid()
    ensures n in n.repr && n !in n.kids && Separate(n.kids) && n.repr == {n} + Union(n.kids)
    ensures AllValid(n.kids, n.repr - {n})
    ensures !n.isReference ==> Linked(n.kids, n.child)
    ensures forall k :: k in n.kids ==> k in n.repr && k.repr <= n.repr
  {
  }

  lemma Fold(n: Node)
    requires !n.isReference && n !in n.kids && n.repr == {n} + Union(n.kids)
    requires Separate(n.kids) && AllValid(n.kids, n.repr - {n}) && Linked(n.kids, n.child)
    ensures n.Valid()
  {
  }

  /** The chain without its last member, and what that one owns. */
  lemma SplitLast(chain: seq<Node>, all: set<Node>)
    requires chain != [] && Separate(chain) && AllValid(chain, all)
    ensures var last, init := chain[|chain| - 1], chain[..|chain| - 1];
            && last.Valid() && last in last.repr && last.repr <= all
            && Separate(init) && AllValid(init, all - last.repr) && last !in init
            && Union(chain) == Union(init) + last.repr && Union(init) <= all - last.repr
  {
    var init := chain[..|chain| - 1];
    UnionWithin(init, all - chain[|chain| - 1].repr);
  }

  lemma {:induction false} UnionWithin(chain: seq<Node>, all: set<Node>)
    requires forall k :: k in chain ==> k.repr <= all
    ensures Union(chain) <= all
  {
    if chain != [] { UnionWithin(chain[..|chain| - 1], all); }
  }

  lemma AppendItems(chain: seq<Node>, vs: seq<Value>, all: set<Node>, item: Node, v: Value)
    requires Separate(chain) && AllValid(chain, all) && ShowItems(chain, vs, all)
    requires item.Valid() && item.Shows(v) && item.repr !! all
    ensures Separate(chain + [item]) && AllValid(chain + [item], all + item.repr)
    ensures ShowItems(chain + [item], vs + [v], all + item.repr)
  {
    AppendValid(chain, item, all);
  }

  lemma AppendMembers(chain: seq<Node>, ms: seq<Member>, all: set<Node>, item: Node, m: Member)
    requires Separate(chain) && AllValid(chain, all) && ShowMembers(chain, ms, all)
    requires item.Valid() && item.name == Some(m.name) && item.Shows(m.value) && item.repr !! all
    ensures Separate(chain + [item]) && AllValid(chain + [item], all + item.repr)
    ensures ShowMembers(chain + [item], ms + [m], all + item.repr)
  {
    AppendValid(chain, item, all);
  }

  /** A parent is well-formed again once its last item, which may own more than before, is. */
  lemma FoldLast(parent: Node, last: Node, rest: set<Node>)
    requires !parent.isReference && parent.kids != [] && last == parent.kids[|parent.kids| - 1]
    requires parent !in parent.kids && parent !in rest && parent !in last.repr
    requires Linked(parent.kids, parent.child)
    requires var init := parent.kids[..|parent.kids| - 1];
             Separate(init) && AllValid(init, rest) && Union(init) == rest
    requires last.Valid() && last.repr !! rest && parent.repr == {parent} + rest + last.repr
    ensures parent.Valid()
  {
    hide Node.Valid, AllValid, Separate, Union, Linked;
    var init := parent.kids[..|parent.kids| - 1];
    Unfold(last);
    AppendValid(init, last, rest);
    AppendUnion(init, last);
    assert init + [last] == parent.kids;
    assert parent.repr - {parent} == rest + last.repr;
    Fold(parent);
  }
}
