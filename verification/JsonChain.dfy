/** Operations on the chain of a container: append, detach, replace, delete. They refine the same on sequences. */
module JsonChain {
  import opened Json
  import opened JsonNode

  // ---------------------------------------------------------------- deleting

  /** A chain read through next alone, as cJSON_Delete reads it. */
  ghost predicate Runs(chain: seq<Node>, c: Node?)
    reads chain`next
  {
    && (chain == [] <==> c == null)
    && (chain != [] ==> c == chain[0] && chain[|chain| - 1].next == null)
    && (forall i :: 0 <= i < |chain| - 1 ==> chain[i].next == chain[i + 1])
  }

  lemma {:induction false} UnionApart(chain: seq<Node>, i: nat)
    requires Separate(chain) && i < |chain|
    ensures chain[i].repr !! Union(chain[..i])
  {
    UnionAvoids(chain[..i], chain[i].repr);
  }

  lemma {:induction false} UnionAvoids(chain: seq<Node>, s: set<Node>)
    requires forall k :: k in chain ==> k.repr !! s
    ensures Union(chain) !! s
  {
    if chain != [] { UnionAvoids(chain[..|chain| - 1], s); }
  }

  /**
   * cJSON_Delete: every node owned by the chain is freed, once, and none is read after that;
   * what lies below a reference is not freed.
   */
  method Delete(head: Node?, heap: Heap, ghost chain: seq<Node>, ghost all: set<Node>)
    requires Runs(chain, head) && Separate(chain) && AllValid(chain, all) && all <= heap.live
    modifies heap
    ensures heap.live == old(heap.live) - Union(chain)
    decreases all
  {
    hide Node.Valid, AllValid, Separate, Union;
    var c := head;
    ghost var i := 0;
    assert Union(chain[..0]) == {} by { EmptyUnion(); }
    while c != null
      invariant 0 <= i <= |chain|
      invariant c == if i == |chain| then null else chain[i]
      invariant heap.live == old(heap.live) - Union(chain[..i])
      decreases |chain| - i
    {
      OneOf(chain, all, i);
      assert c in heap.live;
      var next := c.next;
      if !c.isReference && c.child != null {
        Delete(c.child, heap, c.kids, c.repr - {c});
      }
      heap.Free(c);
      assert chain[..i + 1] == chain[..i] + [c];
      AppendUnion(chain[..i], c);
      c, i := next, i + 1;
    }
    assert chain[..i] == chain;
  }

  lemma EmptyUnion()
    ensures Union([]) == {}
  {
  }

  /** One member of a chain that is being deleted. */
  lemma OneOf(chain: seq<Node>, all: set<Node>, i: nat)
    requires Separate(chain) && AllValid(chain, all) && i < |chain|
    ensures var c := chain[i];
            && c in c.repr && c.repr <= all && c.repr !! Union(chain[..i])
            && Separate(c.kids) && AllValid(c.kids, c.repr - {c}) && c !in Union(c.kids) && c.repr == {c} + Union(c.kids)
            && (c.isReference || c.child == null ==> c.repr == {c})
            && (!c.isReference ==> Runs(c.kids, c.child))
  {
    var c := chain[i];
    assert c.Valid();
    UnionApart(chain, i);
    UnionWithin(c.kids, c.repr - {c});
  }

  // ---------------------------------------------------------------- chains as sequences

  lemma {:induction false} UnionConcat(a: seq<Node>, b: seq<Node>)
    ensures Union(a + b) == Union(a) + Union(b)
  {
    if b == [] {
      assert a + b == a;
    } else {
      assert (a + b)[..|a + b| - 1] == a + b[..|b| - 1];
      UnionConcat(a, b[..|b| - 1]);
    }
  }

  /** The chain without its k-th member. */
  function Without<T>(s: seq<T>, k: nat): seq<T>
    requires k < |s|
  {
    s[..k] + s[k + 1..]
  }

  lemma WithoutMember(chain: seq<Node>, all: set<Node>, k: nat)
    requires Separate(chain) && AllValid(chain, all) && k < |chain|
    ensures chain[k].Valid() && chain[k] in chain[k].repr && chain[k].repr <= all
    ensures Separate(Without(chain, k)) && AllValid(Without(chain, k), all - chain[k].repr)
    ensures Union(chain) == Union(Without(chain, k)) + chain[k].repr && Union(Without(chain, k)) <= all - chain[k].repr
  {
    assert chain[k] in chain;
    WithoutSeparate(chain, k);
    WithoutUnion(chain, k);
    hide Node.Valid, Separate;
    UnionWithin(Without(chain, k), all - chain[k].repr);
  }

  lemma WithoutSeparate(chain: seq<Node>, k: nat)
    requires Separate(chain) && k < |chain|
    ensures Separate(Without(chain, k))
    ensures forall n :: n in Without(chain, k) ==> n in chain && n.repr !! chain[k].repr && n in n.repr
    ensures forall n :: n in chain ==> n == chain[k] || n in Without(chain, k)
  {
    var w := Without(chain, k);
    forall i | 0 <= i < |w| ensures w[i] in chain && w[i].repr !! chain[k].repr && w[i] in w[i].repr {
      assert w[i] == chain[if i < k then i else i + 1];
    }
    forall n | n in chain && n != chain[k] ensures n in w {
      var i :| 0 <= i < |chain| && chain[i] == n;
      assert w[if i < k then i else i - 1] == n;
    }
  }

  lemma WithoutUnion(chain: seq<Node>, k: nat)
    requires k < |chain|
    ensures Union(chain) == Union(Without(chain, k)) + chain[k].repr
  {
    hide Union;
    assert chain == chain[..k] + ([chain[k]] + chain[k + 1..]);
    UnionConcat(chain[..k], [chain[k]] + chain[k + 1..]);
    UnionConcat([chain[k]], chain[k + 1..]);
    UnionConcat(chain[..k], chain[k + 1..]);
    assert [chain[k]] == [] + [chain[k]];
    AppendUnion([], chain[k]);
    EmptyUnion();
  }

  lemma WithoutShown(chain: seq<Node>, all: set<Node>, k: nat, vs: seq<Value>)
    requires Separate(chain) && AllValid(chain, all) && k < |chain| && ShowItems(chain, vs, all)
    ensures chain[k].Valid() && chain[k].Shows(vs[k])
    ensures Separate(Without(chain, k)) && AllValid(Without(chain, k), all - chain[k].repr)
    ensures ShowItems(Without(chain, k), Without(vs, k), all - chain[k].repr)
  {
    WithoutMember(chain, all, k);
    MemberShown(chain, all, vs, k);
    hide Separate, AllValid, Node.Valid, Node.Shows, Union, Without;
    ShownLength(chain, all, vs);
    WithoutItems(chain, all, k, vs);
    WithoutLengths(chain, vs, k);
  }

  lemma ShownLength(chain: seq<Node>, all: set<Node>, vs: seq<Value>)
    requires Separate(chain) && AllValid(chain, all) && ShowItems(chain, vs, all)
    ensures |chain| == |vs|
  {
    hide Separate, AllValid, Node.Valid, Node.Shows;
  }

  lemma WithoutLengths(chain: seq<Node>, vs: seq<Value>, k: nat)
    requires k < |chain| == |vs|
    ensures |Without(chain, k)| == |Without(vs, k)|
  {
  }

  lemma WithoutItems(chain: seq<Node>, all: set<Node>, k: nat, vs: seq<Value>)
    requires Separate(chain) && AllValid(chain, all) && k < |chain| == |vs| && ShowItems(chain, vs, all)
    ensures var c, w := Without(chain, k), Without(vs, k);
            |c| == |w| && forall i :: 0 <= i < |w| ==> c[i].Valid() && c[i].Shows(w[i])
  {
    hide Separate, AllValid, Node.Valid, Node.Shows, ShowItems;
    var c, w := Without(chain, k), Without(vs, k);
    forall i | 0 <= i < |w| ensures c[i].Valid() && c[i].Shows(w[i]) {
      var j := if i < k then i else i + 1;
      MemberShown(chain, all, vs, j);
      assert c[i] == chain[j] && w[i] == vs[j];
    }
  }

  lemma MemberShown(chain: seq<Node>, all: set<Node>, vs: seq<Value>, j: nat)
    requires Separate(chain) && AllValid(chain, all) && j < |chain| && ShowItems(chain, vs, all)
    ensures |chain| == |vs| && chain[j].Valid() && chain[j].Shows(vs[j])
  {
  }

  // ---------------------------------------------------------------- the operations

  /** cJSON_GetArrayItem: a negative index asks for the first item. */
  method GetArrayItem(parent: Node, item: int) returns (c: Node?)
    requires parent.Valid() && !parent.isReference
    ensures var k := if item < 0 then 0 else item; c == if k < |parent.kids| then parent.kids[k] else null
  {
    ghost var k := 0;
    var left := item;
    c := parent.child;
    while c != null && left > 0
      invariant 0 <= k <= |parent.kids| && c == if k == |parent.kids| then null else parent.kids[k]
      invariant left == item - k && (k > 0 ==> left >= 0)
      decreases |parent.kids| - k
    {
      left := left - 1;
      c := c.next;
      k := k + 1;
    }
  }

  /** cJSON_GetArraySize */
  method GetArraySize(parent: Node) returns (i: int)
    requires parent.Valid() && !parent.isReference
    ensures i == |parent.kids|
  {
    var c := parent.child;
    i := 0;
    while c != null
      invariant 0 <= i <= |parent.kids| && c == if i == |parent.kids| then null else parent.kids[i]
      decreases |parent.kids| - i
    {
      i := i + 1;
      c := c.next;
    }
  }

  /** The item joins the end of the chain, or starts it. */
  method Append(parent: Node, item: Node)
    requires parent.Valid() && !parent.isReference
    requires item.Valid() && item.repr !! parent.repr && item.next == null && item.prev == null
    modifies parent`child, parent`kids, parent`repr, parent.kids`next, item`prev
    ensures parent.Valid() && parent.kids == old(parent.kids) + [item] && parent.repr == old(parent.repr) + item.repr
  {
    hide Node.Valid, AllValid, Separate, Union;
    Unfold(parent);
    Unfold(item);
    var c := LastOf(parent);
    if c == null {
      parent.child := item;
      parent.kids := [item];
      parent.repr := parent.repr + item.repr;
      assert parent.kids[..0] == [];
      NoChain(item);
      assert parent.repr == {parent} + {} + item.repr;
      FoldLast(parent, item, {});
    } else {
      SuffixObject(parent, c, item);
    }
  }

  /** cJSON_AddItemToArray: a missing item changes nothing. */
  method AddItemToArray(parent: Node, item: Node?)
    requires parent.Valid() && !parent.isReference
    requires item != null ==> item.Valid() && item.repr !! parent.repr && item.next == null && item.prev == null
    modifies parent`child, parent`kids, parent`repr, parent.kids`next, (if item == null then {} else {item})`prev
    ensures parent.Valid()
    ensures item == null ==> parent.kids == old(parent.kids) && parent.repr == old(parent.repr)
    ensures item != null ==> parent.kids == old(parent.kids) + [item] && parent.repr == old(parent.repr) + item.repr
  {
    if item != null { Append(parent, item); }
  }

  /** cJSON_DetachItemFromArray: the item asked for, unlinked, or nothing when the chain is too short. */
  method DetachItemFromArray(parent: Node, which: int) returns (c: Node?)
    requires parent.Valid() && !parent.isReference
    modifies parent`child, parent`kids, parent`repr, parent.kids`next, parent.kids`prev
    ensures parent.Valid()
    ensures var k := if which < 0 then 0 else which;
            if k < |old(parent.kids)| then
              && c == old(parent.kids)[k] && c.Valid() && c.next == null && c.prev == null
              && parent.kids == Without(old(parent.kids), k)
              && old(parent.repr) == parent.repr + c.repr && parent.repr !! c.repr
            else
              c == null && parent.kids == old(parent.kids) && parent.repr == old(parent.repr)
  {
    c := GetArrayItem(parent, which);
    if c != null { Release(parent, c, if which < 0 then 0 else which); }
  }

  /** The k-th item leaves the chain and takes what it owns with it. */
  method Release(parent: Node, c: Node, ghost k: nat)
    requires parent.Valid() && !parent.isReference && k < |parent.kids| && c == parent.kids[k]
    modifies parent`child, parent`kids, parent`repr, parent.kids`next, parent.kids`prev
    ensures parent.Valid() && parent.kids == Without(old(parent.kids), k)
    ensures c.Valid() && c.next == null && c.prev == null
    ensures old(parent.repr) == parent.repr + c.repr && parent.repr !! c.repr
  {
    hide *;
    ghost var chain, all := parent.kids, parent.repr - {parent};
    Unfold(parent);
    WithoutMember(chain, all, k);
    assert Union(Without(chain, k)) == all - c.repr;
    DistinctLinks(chain);
    WithoutSeparate(chain, k);
    WithoutOwner(chain, k, parent);
    Unlink(parent, c, chain, k);
    assert {parent} + (all - c.repr) - {parent} == all - c.repr;
    Adopt(parent, Without(chain, k), {parent} + (all - c.repr));
  }

  lemma WithoutOwner(chain: seq<Node>, k: nat, owner: Node)
    requires k < |chain| && owner !in chain
    ensures owner !in Without(chain, k)
  {
  }

  /** The relinking done by a detach. */
  method Unlink(parent: Node, c: Node, ghost chain: seq<Node>, ghost k: nat)
    requires Linked(chain, parent.child) && k < |chain| && c == chain[k]
    requires forall i, j :: 0 <= i < j < |chain| ==> chain[i] != chain[j]
    modifies parent`child, chain`next, chain`prev
    ensures Linked(Without(chain, k), parent.child) && c.next == null && c.prev == null
  {
    ghost var w := Without(chain, k);
    assert c.prev == if k == 0 then null else chain[k - 1];
    assert c.next == if k + 1 == |chain| then null else chain[k + 1];
    if c.prev != null { c.prev.next := c.next; }
    if c.next != null { c.next.prev := c.prev; }
    if c == parent.child { parent.child := c.next; }
    c.next, c.prev := null, null;
    assert forall i :: 0 <= i < |w| ==> w[i] == chain[if i < k then i else i + 1];
  }

  lemma OthersStay(chain: seq<Node>, k: nat, item: Node)
    requires k < |chain|
    ensures forall n :: n in chain && n != chain[k] ==> n in chain[k := item]
    ensures item in chain[k := item]
  {
    forall n | n in chain && n != chain[k] ensures n in chain[k := item] {
      var i :| 0 <= i < |chain| && chain[i] == n;
      assert chain[k := item][i] == n;
    }
    assert chain[k := item][k] == item;
  }

  lemma ReplacedMember(chain: seq<Node>, all: set<Node>, k: nat, item: Node)
    requires Separate(chain) && AllValid(chain, all) && k < |chain|
    requires item.Valid() && item in item.repr && item.repr !! all
    ensures Separate(chain[k := item]) && AllValid(chain[k := item], all - chain[k].repr + item.repr)
    ensures Union(chain[k := item]) == Union(Without(chain, k)) + item.repr
  {
    ReplacedSeparate(chain, all, k, item);
    ReplacedUnion(chain, k, item);
  }

  lemma ReplacedSeparate(chain: seq<Node>, all: set<Node>, k: nat, item: Node)
    requires Separate(chain) && k < |chain| && (forall n :: n in chain ==> n.repr <= all)
    requires item in item.repr && item.repr !! all
    ensures Separate(chain[k := item])
    ensures forall n :: n in chain[k := item] ==> n == item || (n in chain && n.repr !! chain[k].repr)
  {
    assert forall i :: 0 <= i < |chain| && i != k ==> chain[k := item][i] == chain[i] && chain[i] in chain;
  }

  lemma ReplacedUnion(chain: seq<Node>, k: nat, item: Node)
    requires k < |chain|
    ensures Union(chain[k := item]) == Union(Without(chain, k)) + item.repr
  {
    var u := chain[k := item];
    assert Without(u, k) == Without(chain, k);
    WithoutUnion(u, k);
  }

  /** cJSON_ReplaceItemInArray: the old item is freed with all it owns; an index past the end changes nothing. */
  method ReplaceItemInArray(parent: Node, which: int, newitem: Node, heap: Heap)
    requires parent.Valid() && !parent.isReference && newitem.Valid() && newitem.repr !! parent.repr
    requires parent.repr <= heap.live
    modifies parent`child, parent`kids, parent`repr, parent.kids`next, parent.kids`prev, newitem`next, newitem`prev, heap
    ensures parent.Valid()
    ensures var k := if which < 0 then 0 else which;
            if k < |old(parent.kids)| then
              && parent.kids == old(parent.kids)[k := newitem]
              && heap.live == old(heap.live) - old(parent.kids[k].repr)
              && parent.repr == old(parent.repr) - old(parent.kids[k].repr) + newitem.repr
            else
              parent.kids == old(parent.kids) && heap.live == old(heap.live) && parent.repr == old(parent.repr)
  {
    hide Node.Valid;
    var c := GetArrayItem(parent, which);
    if c != null {
      Substitute(parent, c, newitem, if which < 0 then 0 else which);
      OneAlone(c);
      Delete(c, heap, [c], c.repr);
    }
  }

  lemma OneAlone(c: Node)
    requires c.Valid() && c.next == null
    ensures Runs([c], c) && Separate([c]) && AllValid([c], c.repr) && Union([c]) == c.repr
  {
    assert [c][..0] == [];
  }

  /** The k-th place in the chain goes to the new item. */
  method Substitute(parent: Node, c: Node, item: Node, ghost k: nat)
    requires parent.Valid() && !parent.isReference && k < |parent.kids| && c == parent.kids[k]
    requires item.Valid() && item.repr !! parent.repr
    modifies parent`child, parent`kids, parent`repr, parent.kids`next, parent.kids`prev, item`next, item`prev
    ensures parent.Valid() && parent.kids == old(parent.kids)[k := item]
    ensures parent.repr == old(parent.repr) - c.repr + item.repr
    ensures c.Valid() && c.next == null && c.prev == null && c.repr == old(c.repr) && c.repr <= old(parent.repr)
  {
    hide *;
    ghost var chain, all := parent.kids, parent.repr - {parent};
    Unfold(parent);
    Unfold(item);
    WithoutMember(chain, all, k);
    assert Union(Without(chain, k)) == all - c.repr;
    DistinctLinks(chain);
    WithoutSeparate(chain, k);
    ReplacedMember(chain, all, k, item);
    ghost var kids, owned := chain[k := item], all - c.repr + item.repr;
    OthersStay(chain, k, item);
    assert c !in owned && {parent} + owned - {parent} == owned;
    Relink(parent, c, item, chain, k);
    Adopt(parent, kids, {parent} + owned);
  }

  method Relink(parent: Node, c: Node, item: Node, ghost chain: seq<Node>, ghost k: nat)
    requires Linked(chain, parent.child) && k < |chain| && c == chain[k] && item !in chain
    requires forall i, j :: 0 <= i < j < |chain| ==> chain[i] != chain[j]
    modifies parent`child, chain`next, chain`prev, item`next, item`prev
    ensures Linked(chain[k := item], parent.child) && c.next == null && c.prev == null
  {
    assert c.prev == if k == 0 then null else chain[k - 1];
    assert c.next == if k + 1 == |chain| then null else chain[k + 1];
    item.next := c.next;
    item.prev := c.prev;
    if item.next != null { item.next.prev := item; }
    if c == parent.child { parent.child := item; } else { item.prev.next := item; }
    c.next, c.prev := null, null;
    ghost var kids := chain[k := item];
    forall i | 0 <= i < |kids| - 1 ensures kids[i].next == kids[i + 1] && kids[i + 1].prev == kids[i] {
      assert chain[i].next == chain[i + 1] || i == k || i + 1 == k;
    }
  }

  lemma NoChain(item: Node)
    requires item.next == null && item.prev == null
    ensures Linked([item], item) && Separate([]) && AllValid([], {}) && Union([]) == {}
  {
  }

  /** The walk to the end of the chain. */
  method LastOf(parent: Node) returns (c: Node?)
    requires parent.Valid() && !parent.isReference
    ensures c == if parent.kids == [] then null else parent.kids[|parent.kids| - 1]
  {
    c := parent.child;
    ghost var i := 0;
    while c != null && c.next != null
      invariant parent.kids == [] ==> c == null
      invariant parent.kids != [] ==> 0 <= i < |parent.kids| && c == parent.kids[i]
      invariant i + 1 < |parent.kids| ==> c.next == parent.kids[i + 1]
      decreases |parent.kids| - i
    {
      c := c.next;
      i := i + 1;
    }
  }

  // ---------------------------------------------------------------- references

  /** create_reference: it points at the item's own children, but owns none of them. */
  method CreateReference(item: Node, heap: Heap) returns (ref: Node)
    modifies heap
    ensures fresh(ref) && ref.isReference && ref.child == item.child && ref.kind == item.kind && ref.name == None
    ensures ref.valuestring == item.valuestring && ref.mantissa == item.mantissa && ref.exponent == item.exponent
    ensures ref.next == null && ref.prev == null && ref.Valid() && ref.repr == {ref}
    ensures heap.live == old(heap.live) + {ref}
  {
    ref := new Node(heap);
    ref.child, ref.kind, ref.valuestring, ref.mantissa, ref.exponent :=
      item.child, item.kind, item.valuestring, item.mantissa, item.exponent;
    ref.isReference, ref.name := true, None;
  }

  /** cJSON_AddItemReferenceToArray */
  method AddItemReferenceToArray(parent: Node, item: Node, heap: Heap) returns (ghost ref: Node)
    requires parent.Valid() && !parent.isReference
    modifies parent`child, parent`kids, parent`repr, parent.kids`next, heap
    ensures fresh(ref) && ref.isReference && ref.child == old(item.child) && ref.repr == {ref}
    ensures parent.Valid() && parent.kids == old(parent.kids) + [ref] && parent.repr == old(parent.repr) + {ref}
    ensures heap.live == old(heap.live) + {ref}
  {
    hide Node.Valid;
    var r := CreateReference(item, heap);
    ref := r;
    AddItemToArray(parent, r);
  }

  /** cJSON_DeleteItemFromArray: what the item owns is freed; for a reference, that is the reference alone. */
  method DeleteItemFromArray(parent: Node, which: int, heap: Heap)
    requires parent.Valid() && !parent.isReference && parent.repr <= heap.live
    modifies parent`child, parent`kids, parent`repr, parent.kids`next, parent.kids`prev, heap
    ensures parent.Valid()
    ensures var k := if which < 0 then 0 else which;
            if k < |old(parent.kids)| then
              && parent.kids == Without(old(parent.kids), k)
              && heap.live == old(heap.live) - old(parent.kids[k].repr)
              && (old(parent.kids[k].isReference) ==> old(parent.kids[k].repr) == {old(parent.kids)[k]})
            else parent.kids == old(parent.kids) && heap.live == old(heap.live)
  {
    ghost var chain := parent.kids;
    KidsValid(parent);
    hide Node.Valid, AllValid, Separate, Union, Linked;
    var c := DetachItemFromArray(parent, which);
    if c != null {
      OneAlone(c);
      Delete(c, heap, [c], c.repr);
    }
  }

  lemma KidsValid(parent: Node)
    requires parent.Valid()
    ensures forall k :: k in parent.kids ==> k.Valid() && (k.isReference ==> k.repr == {k})
  {
    hide Linked;
    forall k | k in parent.kids ensures k.Valid() && (k.isReference ==> k.repr == {k}) {
      Unfold(parent);
      assert k.Valid();
      if k.isReference { NoneOwned(k); }
    }
  }

  lemma NoneOwned(k: Node)
    requires k.Valid() && k.isReference
    ensures k.repr == {k}
  {
  }
}
