/**
 * Structural traversal of an AST: the explicit-stack pre-order `walk`,
 * `walkDescendants` (the walk without the start node) and `walkChildren`
 * (the direct children, flattened from the node's properties), together with
 * the three bindings installed on the node prototype.
 *
 * A node is a value: its identity (what `===` and `!=` compare) is the field
 * `id`, and its properties are kept in declaration order. A property value is a
 * primitive (any non-node, non-array value, `null` and `undefined` included),
 * a node, or an array of values.
 */
module Structurally {
  import opened Wrappers

  datatype Value =
    | Primitive(literal: string)
    | Child(node: Node)
    | Many(items: seq<Value>)

  datatype Property = Property(name: string, value: Value)

  datatype Node = Node(id: nat, properties: seq<Property>)

  // ---------------------------------------------------------------------------
  // Direct children, as the free walkChildren yields them
  // ---------------------------------------------------------------------------

  /** The direct children of `n`, property by property in declaration order. */
  function Children(n: Node): seq<Node> {
    PropertiesChildren(n.properties)
  }

  function PropertiesChildren(ps: seq<Property>): seq<Node> {
    if ps == [] then [] else PropertiesChildren(ps[..|ps| - 1]) + ValueChildren(ps[|ps| - 1].value)
  }

  /** A node value is a child; an array contributes its node elements; anything else nothing. */
  function ValueChildren(v: Value): seq<Node> {
    match v
    case Primitive(_) => []
    case Child(c) => [c]
    case Many(items) => ArrayChildren(items)
  }

  /** The node elements of an array, in index order; nested arrays are not entered. */
  function ArrayChildren(items: seq<Value>): seq<Node> {
    if items == [] then []
    else ArrayChildren(items[..|items| - 1]) + (if items[|items| - 1].Child? then [items[|items| - 1].node] else [])
  }

  /** `v` holds `c` directly: as the value itself or as an element of an array value. */
  predicate HoldsDirectly(v: Value, c: Node) {
    v == Child(c) || (v.Many? && Child(c) in v.items)
  }

  /** `c` is the value of a property of `n` or an element of an array-valued property of `n`. */
  ghost predicate HeldDirectly(n: Node, c: Node) {
    exists i :: 0 <= i < |n.properties| && HoldsDirectly(n.properties[i].value, c)
  }

  // ---------------------------------------------------------------------------
  // The pre-order walk, defined by recursion over the tree
  // ---------------------------------------------------------------------------

  /** A node followed by the walks of the nodes its properties hold, in declaration order. */
  function Preorder(n: Node): seq<Node> {
    [n] + PropertiesWalk(n.properties)
  }

  function PropertiesWalk(ps: seq<Property>): seq<Node> {
    if ps == [] then [] else PropertiesWalk(ps[..|ps| - 1]) + ValueWalk(ps[|ps| - 1].value)
  }

  function ValueWalk(v: Value): seq<Node> {
    match v
    case Primitive(_) => []
    case Child(c) => Preorder(c)
    case Many(items) => ArrayWalk(items)
  }

  function ArrayWalk(items: seq<Value>): seq<Node> {
    if items == [] then [] else ArrayWalk(items[..|items| - 1]) + ItemWalk(items[|items| - 1])
  }

  function ItemWalk(v: Value): seq<Node> {
    match v
    case Child(c) => Preorder(c)
    case _ => []
  }

  /** The walks of a sequence of nodes, one after the other. */
  function ForestWalk(cs: seq<Node>): seq<Node> {
    if cs == [] then [] else Preorder(cs[0]) + ForestWalk(cs[1..])
  }

  /** How many positions of the tree hold a node whose identity is `x`. */
  function Occurrences(n: Node, x: nat): nat {
    (if n.id == x then 1 else 0) + PropertiesOccurrences(n.properties, x)
  }

  function PropertiesOccurrences(ps: seq<Property>, x: nat): nat {
    if ps == [] then 0 else PropertiesOccurrences(ps[..|ps| - 1], x) + ValueOccurrences(ps[|ps| - 1].value, x)
  }

  function ValueOccurrences(v: Value, x: nat): nat {
    match v
    case Primitive(_) => 0
    case Child(c) => Occurrences(c, x)
    case Many(items) => ArrayOccurrences(items, x)
  }

  function ArrayOccurrences(items: seq<Value>, x: nat): nat {
    if items == [] then 0 else ArrayOccurrences(items[..|items| - 1], x) + ItemOccurrences(items[|items| - 1], x)
  }

  function ItemOccurrences(v: Value, x: nat): nat {
    match v
    case Child(c) => Occurrences(c, x)
    case _ => 0
  }

  /** A tree: no object is held at two positions (each node has at most one owner). */
  ghost predicate IsTree(n: Node) {
    forall x :: Occurrences(n, x) <= 1
  }

  /** How many elements of `s` have identity `x`. */
  function IdCount(s: seq<Node>, x: nat): nat {
    if s == [] then 0 else IdCount(s[..|s| - 1], x) + (if s[|s| - 1].id == x then 1 else 0)
  }

  /** `s` with every element identical to `node` removed, order preserved. */
  function WithoutIdentity(s: seq<Node>, node: Node): (r: seq<Node>)
    ensures |r| == |s| - IdCount(s, node.id)
    ensures forall k :: 0 <= k < |r| ==> r[k] in s && r[k].id != node.id
  {
    if s == [] then []
    else WithoutIdentity(s[..|s| - 1], node) + (if s[|s| - 1].id != node.id then [s[|s| - 1]] else [])
  }

  // ---------------------------------------------------------------------------
  // The explicit stack of walk
  // ---------------------------------------------------------------------------

  /** What a stack entry contributes once popped: nothing for a falsy entry. */
  function EntryWalk(e: Option<Node>): seq<Node> {
    match e
    case None => []
    case Some(n) => Preorder(n)
  }

  /** What a stack still has to yield; its top is its last element. */
  function Pending(stack: seq<Option<Node>>): seq<Node> {
    if stack == [] then [] else EntryWalk(stack[|stack| - 1]) + Pending(stack[..|stack| - 1])
  }

  /** The entries pushed by `stack.push(...children.reverse())`. */
  function ReversedEntries(cs: seq<Node>): seq<Option<Node>> {
    if cs == [] then [] else ReversedEntries(cs[1..]) + [Some(cs[0])]
  }

  // ---------------------------------------------------------------------------
  // The operations
  // ---------------------------------------------------------------------------

  /**
   * walk: pops the top entry; a node pushes its children reversed, so that the
   * first child is popped next, and is yielded; a falsy entry yields nothing.
   * Each call starts from the fresh stack [start].
   */
  method Walk(start: Option<Node>) returns (visited: seq<Node>)
    ensures start.None? ==> visited == []
    ensures start.Some? ==> visited == Preorder(start.value)
  {
    var stack := [start];
    visited := [];
    ghost var target := EntryWalk(start);
    PendingPush([], start);
    assert [] + [start] == stack;
    while |stack| > 0
      invariant visited + Pending(stack) == target
      decreases |target| - |visited|, |stack|
    {
      var current := stack[|stack| - 1];
      stack := stack[..|stack| - 1];
      assert visited + (EntryWalk(current) + Pending(stack)) == target;
      if current.Some? {
        var n := current.value;
        ghost var below := stack;
        ChildrenDriveWalk(n);
        PushReversed(below, Children(n));
        stack := stack + ReversedEntries(Children(n));
        Regroup(visited, n, ForestWalk(Children(n)), Pending(below));
        visited := visited + [n];
      } else {
        assert EntryWalk(current) + Pending(stack) == Pending(stack);
      }
    }
  }

  /**
   * walkDescendants: everything the walker yields from `node` except the
   * elements identical to `node`. `walker` None stands for the default, `walk`.
   */
  method WalkDescendants(node: Node, walker: Option<Node -> seq<Node>>) returns (descendants: seq<Node>)
    ensures walker.Some? ==> descendants == WithoutIdentity(walker.value(node), node)
    ensures walker.None? ==> descendants == WithoutIdentity(Preorder(node), node)
  {
    var walked: seq<Node>;
    if walker.Some? {
      walked := walker.value(node);
    } else {
      walked := Walk(Some(node));
    }
    descendants := [];
    for i := 0 to |walked|
      invariant descendants == WithoutIdentity(walked[..i], node)
    {
      WithoutIdentityStep(walked, i, node);
      if walked[i].id != node.id {
        descendants := descendants + [walked[i]];
      }
    }
    assert walked[..|walked|] == walked;
  }

  /** One more element is kept exactly when it is not identical to `node`. */
  lemma WithoutIdentityStep(s: seq<Node>, i: nat, node: Node)
    requires i < |s|
    ensures WithoutIdentity(s[..i + 1], node) == WithoutIdentity(s[..i], node) + (if s[i].id != node.id then [s[i]] else [])
  {
    assert s[..i + 1][..i] == s[..i];
  }

  /** The free walkChildren: the direct children, property by property. */
  method WalkChildren(node: Node) returns (children: seq<Node>)
    ensures children == Children(node)
  {
    var ps := node.properties;
    children := [];
    for p := 0 to |ps|
      invariant children == PropertiesChildren(ps[..p])
    {
      var value := ps[p].value;
      PropertiesChildrenStep(ps, p);
      if value.Child? {
        children := children + [value.node];
      }
      if value.Many? {
        var items := value.items;
        ghost var before := children;
        for i := 0 to |items|
          invariant children == before + ArrayChildren(items[..i])
        {
          ArrayChildrenStep(items, i);
          if items[i].Child? {
            children := children + [items[i].node];
          }
        }
        assert items[..|items|] == items;
      }
    }
    assert ps[..|ps|] == ps;
  }

  /** One more property adds the children its value holds. */
  lemma PropertiesChildrenStep(ps: seq<Property>, p: nat)
    requires p < |ps|
    ensures PropertiesChildren(ps[..p + 1]) == PropertiesChildren(ps[..p]) + ValueChildren(ps[p].value)
  {
    assert ps[..p + 1][..p] == ps[..p];
  }

  /** One more array element adds itself when it is a node. */
  lemma ArrayChildrenStep(items: seq<Value>, i: nat)
    requires i < |items|
    ensures ArrayChildren(items[..i + 1]) == ArrayChildren(items[..i]) + (if items[i].Child? then [items[i].node] else [])
  {
    assert items[..i + 1][..i] == items[..i];
  }

  /** Every call of walk starts from a fresh stack, so walking the same tree twice yields the same nodes. */
  method WalkTwice(start: Option<Node>) returns (first: seq<Node>, second: seq<Node>)
    ensures first == second
    ensures start.Some? ==> first == Preorder(start.value)
  {
    first := Walk(start);
    second := Walk(start);
  }

  /** ASTNode.prototype.walk: the walk from this node. */
  method NodeWalk(self: Node) returns (visited: seq<Node>)
    ensures visited == Preorder(self)
    ensures |visited| > 0 && visited[0] == self
  {
    visited := Walk(Some(self));
  }

  /** ASTNode.prototype.walkDescendants: walkDescendants from this node. */
  method NodeWalkDescendants(self: Node, walker: Option<Node -> seq<Node>>) returns (descendants: seq<Node>)
    ensures walker.Some? ==> descendants == WithoutIdentity(walker.value(self), self)
    ensures walker.None? ==> descendants == WithoutIdentity(Preorder(self), self)
    ensures walker.None? && IsTree(self) ==> descendants == Preorder(self)[1..]
  {
    descendants := WalkDescendants(self, walker);
    if walker.None? && IsTree(self) {
      DescendantsOfTree(self);
    }
  }

  /**
   * ASTNode.prototype.walkChildren as written: it returns walkDescendants(this),
   * so it yields every descendant, not only the direct children.
   */
  method NodeWalkChildren(self: Node) returns (nodes: seq<Node>)
    ensures nodes == WithoutIdentity(Preorder(self), self)
    ensures IsTree(self) ==> nodes == ForestWalk(Children(self))
  {
    nodes := WalkDescendants(self, None);
    if IsTree(self) {
      DescendantsOfTree(self);
    }
  }

  /** ASTNode.prototype.walkChildren as its documentation describes it: the direct children. */
  method NodeDirectChildren(self: Node) returns (children: seq<Node>)
    ensures children == Children(self)
    ensures forall c :: c in children <==> HeldDirectly(self, c)
  {
    children := WalkChildren(self);
    forall c ensures c in children <==> HeldDirectly(self, c) {
      ChildrenAreDirect(self, c);
    }
  }

  // ---------------------------------------------------------------------------
  // Lemmas: concatenation
  // ---------------------------------------------------------------------------

  lemma {:induction false} ForestWalkAppend(a: seq<Node>, b: seq<Node>)
    ensures ForestWalk(a + b) == ForestWalk(a) + ForestWalk(b)
  {
    if a == [] {
      assert a + b == b;
    } else {
      assert (a + b)[0] == a[0];
      assert (a + b)[1..] == a[1..] + b;
      ForestWalkAppend(a[1..], b);
    }
  }

  lemma {:induction false} IdCountAppend(a: seq<Node>, b: seq<Node>, x: nat)
    ensures IdCount(a + b, x) == IdCount(a, x) + IdCount(b, x)
  {
    if b == [] {
      assert a + b == a;
    } else {
      var ab := a + b;
      assert ab[..|ab| - 1] == a + b[..|b| - 1];
      assert ab[|ab| - 1] == b[|b| - 1];
      IdCountAppend(a, b[..|b| - 1], x);
    }
  }

  lemma {:induction false} WithoutIdentityAppend(a: seq<Node>, b: seq<Node>, node: Node)
    ensures WithoutIdentity(a + b, node) == WithoutIdentity(a, node) + WithoutIdentity(b, node)
  {
    if b == [] {
      assert a + b == a;
    } else {
      var ab := a + b;
      var init := b[..|b| - 1];
      var last := b[|b| - 1];
      var tail := if last.id != node.id then [last] else [];
      assert ab[..|ab| - 1] == a + init;
      assert ab[|ab| - 1] == last;
      assert WithoutIdentity(ab, node) == WithoutIdentity(a + init, node) + tail;
      assert WithoutIdentity(b, node) == WithoutIdentity(init, node) + tail;
      WithoutIdentityAppend(a, init, node);
      assert (WithoutIdentity(a, node) + WithoutIdentity(init, node)) + tail
          == WithoutIdentity(a, node) + (WithoutIdentity(init, node) + tail);
    }
  }

  /** Removing identical elements keeps every element that is not identical to `node`. */
  lemma {:induction false} WithoutIdentityKeepsOthers(s: seq<Node>, node: Node)
    ensures forall k :: 0 <= k < |s| && s[k].id != node.id ==> s[k] in WithoutIdentity(s, node)
  {
    if s != [] {
      var init := s[..|s| - 1];
      WithoutIdentityKeepsOthers(init, node);
      forall k | 0 <= k < |s| - 1 ensures s[k] == init[k] { }
    }
  }

  /** Removing an identity that does not occur changes nothing. */
  lemma {:induction false} WithoutAbsentIdentity(s: seq<Node>, node: Node)
    requires IdCount(s, node.id) == 0
    ensures WithoutIdentity(s, node) == s
  {
    if s != [] {
      var init, last := s[..|s| - 1], s[|s| - 1];
      assert IdCount(init, node.id) == 0 && last.id != node.id;
      WithoutAbsentIdentity(init, node);
      assert WithoutIdentity(s, node) == init + [last];
      assert init + [last] == s;
    }
  }

  // ---------------------------------------------------------------------------
  // Lemmas: children and the walk
  // ---------------------------------------------------------------------------

  /** Free walkChildren yields exactly the nodes held directly by a property: no grandchildren. */
  lemma ChildrenAreDirect(n: Node, c: Node)
    ensures c in Children(n) <==> HeldDirectly(n, c)
  {
    PropertiesChildrenAreDirect(n.properties, c);
  }

  lemma {:induction false} PropertiesChildrenAreDirect(ps: seq<Property>, c: Node)
    ensures c in PropertiesChildren(ps) <==> exists i :: 0 <= i < |ps| && HoldsDirectly(ps[i].value, c)
  {
    if ps != [] {
      var init, last := ps[..|ps| - 1], ps[|ps| - 1];
      assert PropertiesChildren(ps) == PropertiesChildren(init) + ValueChildren(last.value);
      PropertiesChildrenAreDirect(init, c);
      ValueChildrenAreDirect(last.value, c);
      if c in PropertiesChildren(init) {
        var i :| 0 <= i < |init| && HoldsDirectly(init[i].value, c);
        assert ps[i] == init[i];
      }
      forall i | 0 <= i < |init| ensures ps[i] == init[i] {
      }
    }
  }

  lemma ValueChildrenAreDirect(v: Value, c: Node)
    ensures c in ValueChildren(v) <==> HoldsDirectly(v, c)
  {
    if v.Many? {
      ArrayChildrenAreDirect(v.items, c);
    }
  }

  lemma {:induction false} ArrayChildrenAreDirect(items: seq<Value>, c: Node)
    ensures c in ArrayChildren(items) <==> Child(c) in items
  {
    if items != [] {
      var init := items[..|items| - 1];
      ArrayChildrenAreDirect(init, c);
      assert items == init + [items[|items| - 1]];
    }
  }

  /** The walk of a node is the node followed by the walks of its children, in order. */
  lemma ChildrenDriveWalk(n: Node)
    ensures Preorder(n) == [n] + ForestWalk(Children(n))
  {
    PropertiesChildrenWalk(n.properties);
  }

  lemma {:induction false} PropertiesChildrenWalk(ps: seq<Property>)
    ensures ForestWalk(PropertiesChildren(ps)) == PropertiesWalk(ps)
  {
    if ps != [] {
      var init, last := ps[..|ps| - 1], ps[|ps| - 1];
      PropertiesChildrenWalk(init);
      ForestWalkAppend(PropertiesChildren(init), ValueChildren(last.value));
      match last.value
      case Primitive(_) =>
      case Child(c) =>
        assert ForestWalk([c]) == Preorder(c) + ForestWalk([]);
      case Many(items) =>
        ArrayChildrenWalk(items);
    }
  }

  lemma {:induction false} ArrayChildrenWalk(items: seq<Value>)
    ensures ForestWalk(ArrayChildren(items)) == ArrayWalk(items)
  {
    if items != [] {
      var init, last := items[..|items| - 1], items[|items| - 1];
      ArrayChildrenWalk(init);
      var tail := if last.Child? then [last.node] else [];
      ForestWalkAppend(ArrayChildren(init), tail);
      if last.Child? {
        assert ForestWalk([last.node]) == Preorder(last.node) + ForestWalk([]);
      }
    }
  }

  /** Pushing children reversed makes them pop, and be walked, in declared order. */
  lemma {:induction false} PushReversed(stack: seq<Option<Node>>, cs: seq<Node>)
    ensures Pending(stack + ReversedEntries(cs)) == ForestWalk(cs) + Pending(stack)
  {
    if cs != [] {
      var below := stack + ReversedEntries(cs[1..]);
      var first, later := Preorder(cs[0]), ForestWalk(cs[1..]);
      calc {
        Pending(stack + ReversedEntries(cs));
      == { assert stack + ReversedEntries(cs) == below + [Some(cs[0])]; }
        Pending(below + [Some(cs[0])]);
      == { PendingPush(below, Some(cs[0])); }
        first + Pending(below);
      == { PushReversed(stack, cs[1..]); }
        first + (later + Pending(stack));
      ==
        (first + later) + Pending(stack);
      }
    } else {
      assert stack + ReversedEntries(cs) == stack;
    }
  }

  /** Pushing an entry puts what it yields in front of what the stack already had to yield. */
  lemma PendingPush(below: seq<Option<Node>>, top: Option<Node>)
    ensures Pending(below + [top]) == EntryWalk(top) + Pending(below)
  {
    var stack := below + [top];
    assert stack[|stack| - 1] == top && stack[..|stack| - 1] == below;
  }

  /** Moving the popped node from the pending part to the visited part. */
  lemma Regroup(visited: seq<Node>, n: Node, rest: seq<Node>, others: seq<Node>)
    ensures visited + (([n] + rest) + others) == (visited + [n]) + (rest + others)
  {
  }

  /** Every node is visited once per position of the tree that holds it. */
  lemma {:induction false} WalkCountsOccurrences(n: Node, x: nat)
    ensures IdCount(Preorder(n), x) == Occurrences(n, x)
  {
    IdCountAppend([n], PropertiesWalk(n.properties), x);
    assert [n][..0] == [];
    PropertiesWalkCounts(n.properties, x);
  }

  lemma {:induction false} PropertiesWalkCounts(ps: seq<Property>, x: nat)
    ensures IdCount(PropertiesWalk(ps), x) == PropertiesOccurrences(ps, x)
  {
    if ps != [] {
      var init := ps[..|ps| - 1];
      PropertiesWalkCounts(init, x);
      IdCountAppend(PropertiesWalk(init), ValueWalk(ps[|ps| - 1].value), x);
      ValueWalkCounts(ps[|ps| - 1].value, x);
    }
  }

  lemma {:induction false} ValueWalkCounts(v: Value, x: nat)
    ensures IdCount(ValueWalk(v), x) == ValueOccurrences(v, x)
  {
    match v
    case Primitive(_) =>
    case Child(c) => WalkCountsOccurrences(c, x);
    case Many(items) => ArrayWalkCounts(items, x);
  }

  lemma {:induction false} ArrayWalkCounts(items: seq<Value>, x: nat)
    ensures IdCount(ArrayWalk(items), x) == ArrayOccurrences(items, x)
  {
    if items != [] {
      var init := items[..|items| - 1];
      ArrayWalkCounts(init, x);
      IdCountAppend(ArrayWalk(init), ItemWalk(items[|items| - 1]), x);
      ItemWalkCounts(items[|items| - 1], x);
    }
  }

  lemma {:induction false} ItemWalkCounts(v: Value, x: nat)
    ensures IdCount(ItemWalk(v), x) == ItemOccurrences(v, x)
  {
    match v
    case Child(c) => WalkCountsOccurrences(c, x);
    case _ =>
  }

  lemma {:induction false} IdCountPositions(s: seq<Node>, x: nat)
    ensures IdCount(s, x) > 0 <==> exists k :: 0 <= k < |s| && s[k].id == x
  {
    if s != [] {
      var init := s[..|s| - 1];
      IdCountPositions(init, x);
      if IdCount(init, x) > 0 {
        var k :| 0 <= k < |init| && init[k].id == x;
        assert s[k] == init[k];
      }
      if exists k :: 0 <= k < |s| && s[k].id == x {
        var k :| 0 <= k < |s| && s[k].id == x;
        if k < |init| { assert init[k] == s[k]; }
      }
    }
  }

  lemma IdCountTwoPositions(s: seq<Node>, i: nat, j: nat)
    requires i < j < |s| && s[i].id == s[j].id
    ensures IdCount(s, s[i].id) >= 2
  {
    var x := s[i].id;
    assert s == s[..j] + s[j..];
    IdCountAppend(s[..j], s[j..], x);
    IdCountPositions(s[..j], x);
    assert s[..j][i] == s[i];
    assert s[j..] == [s[j]] + s[j + 1..];
    IdCountAppend([s[j]], s[j + 1..], x);
    assert [s[j]][..0] == [];
  }

  /** The walk reaches a node with identity `x` exactly when the tree holds one. */
  lemma WalkReachesHeldNodes(n: Node, x: nat)
    ensures Occurrences(n, x) > 0 <==> exists k :: 0 <= k < |Preorder(n)| && Preorder(n)[k].id == x
  {
    WalkCountsOccurrences(n, x);
    IdCountPositions(Preorder(n), x);
  }

  /** On a tree, the walk yields no node twice. */
  lemma WalkVisitsOnce(n: Node)
    requires IsTree(n)
    ensures forall i, j :: 0 <= i < j < |Preorder(n)| ==> Preorder(n)[i].id != Preorder(n)[j].id
  {
    var p := Preorder(n);
    forall i, j | 0 <= i < j < |p| ensures p[i].id != p[j].id {
      WalkCountsOccurrences(n, p[i].id);
      if p[i].id == p[j].id {
        IdCountTwoPositions(p, i, j);
      }
    }
  }

  /**
   * Every visited node is followed immediately by its own whole walk: a parent
   * comes before all of its descendants, and they come before its next sibling.
   */
  lemma {:induction false} SubtreeFollowsNode(n: Node, i: nat)
    requires i < |Preorder(n)|
    ensures i + |Preorder(Preorder(n)[i])| <= |Preorder(n)|
    ensures Preorder(n)[i..i + |Preorder(Preorder(n)[i])|] == Preorder(Preorder(n)[i])
    decreases |Preorder(n)|, 0
  {
    if i > 0 {
      ChildrenDriveWalk(n);
      var rest := ForestWalk(Children(n));
      ForestSubtreeFollows(Children(n), i - 1);
      assert Preorder(n)[i] == rest[i - 1];
      assert Preorder(n)[i..i + |Preorder(rest[i - 1])|] == rest[i - 1..i - 1 + |Preorder(rest[i - 1])|];
    }
  }

  lemma {:induction false} ForestSubtreeFollows(cs: seq<Node>, i: nat)
    requires i < |ForestWalk(cs)|
    ensures i + |Preorder(ForestWalk(cs)[i])| <= |ForestWalk(cs)|
    ensures ForestWalk(cs)[i..i + |Preorder(ForestWalk(cs)[i])|] == Preorder(ForestWalk(cs)[i])
    decreases |ForestWalk(cs)|, 1
  {
    var first, rest := Preorder(cs[0]), ForestWalk(cs[1..]);
    assert ForestWalk(cs) == first + rest;
    if i < |first| {
      SubtreeFollowsNode(cs[0], i);
      SliceInFront(first, rest, i, |Preorder(first[i])|);
    } else {
      ForestSubtreeFollows(cs[1..], i - |first|);
      SliceBehind(first, rest, i, |Preorder(rest[i - |first|])|);
    }
  }

  /** A slice of the front part of a concatenation. */
  lemma SliceInFront(a: seq<Node>, b: seq<Node>, i: nat, k: nat)
    requires i < |a| && i + k <= |a|
    ensures (a + b)[i] == a[i] && (a + b)[i..i + k] == a[i..i + k]
  {
  }

  /** A slice of the back part of a concatenation. */
  lemma SliceBehind(a: seq<Node>, b: seq<Node>, i: nat, k: nat)
    requires |a| <= i < |a| + |b| && i + k <= |a| + |b|
    ensures (a + b)[i] == b[i - |a|] && (a + b)[i..i + k] == b[i - |a|..i - |a| + k]
  {
  }

  /** With the default walker, walkDescendants of a tree is its walk without the first element. */
  lemma DescendantsOfTree(n: Node)
    requires IsTree(n)
    ensures WithoutIdentity(Preorder(n), n) == Preorder(n)[1..]
    ensures Preorder(n)[1..] == ForestWalk(Children(n))
    ensures |WithoutIdentity(Preorder(n), n)| == |Preorder(n)| - 1
  {
    ChildrenDriveWalk(n);
    var rest := ForestWalk(Children(n));
    assert Preorder(n)[1..] == rest;
    WalkCountsOccurrences(n, n.id);
    IdCountAppend([n], rest, n.id);
    assert [n][..0] == [];
    WithoutAbsentIdentity(rest, n);
    WithoutIdentityAppend([n], rest, n);
  }

  lemma {:induction false} ForestWalkCovers(cs: seq<Node>)
    ensures |ForestWalk(cs)| >= |cs|
  {
    if cs != [] {
      ForestWalkCovers(cs[1..]);
    }
  }

  /** The walks of some nodes are just those nodes exactly when none of them has a child. */
  lemma {:induction false} ForestWalkIsFlat(cs: seq<Node>)
    ensures ForestWalk(cs) == cs <==> forall c :: c in cs ==> Children(c) == []
  {
    if cs != [] {
      var c := cs[0];
      ChildrenDriveWalk(c);
      ForestWalkCovers(cs[1..]);
      ForestWalkIsFlat(cs[1..]);
      if ForestWalk(cs) == cs {
        if Children(c) != [] {
          ForestWalkCovers(Children(c));
        }
        assert ForestWalk(cs)[1..] == ForestWalk(cs[1..]);
      }
      if forall c :: c in cs ==> Children(c) == [] {
        assert Preorder(c) == [c];
      }
    }
  }

  /**
   * The prototype walkChildren, which returns all descendants, agrees with the
   * documented "direct children" exactly when no child of the node has a child.
   */
  lemma WalkChildrenBindingMatchesDocument(n: Node)
    requires IsTree(n)
    ensures WithoutIdentity(Preorder(n), n) == Children(n) <==> forall c :: c in Children(n) ==> Children(c) == []
  {
    DescendantsOfTree(n);
    ForestWalkIsFlat(Children(n));
  }

  /** A node with a grandchild: the prototype walkChildren yields the grandchild too. */
  lemma WalkChildrenBindingYieldsGrandchild()
    ensures var leaf := Node(2, []);
            var middle := Node(1, [Property("body", Child(leaf))]);
            var root := Node(0, [Property("statement", Child(middle))]);
            Children(root) == [middle] && WithoutIdentity(Preorder(root), root) == [middle, leaf]
  {
    var leaf := Node(2, []);
    var middle := Node(1, [Property("body", Child(leaf))]);
    var root := Node(0, [Property("statement", Child(middle))]);
    assert leaf.properties == [] && middle.properties[..0] == [] && root.properties[..0] == [];
    assert Preorder(leaf) == [leaf];
    assert PropertiesWalk(middle.properties) == ValueWalk(Child(leaf));
    assert Preorder(middle) == [middle, leaf];
    assert PropertiesWalk(root.properties) == ValueWalk(Child(middle));
    assert Preorder(root) == [root, middle, leaf];
    var walked := [root, middle, leaf];
    assert walked[..1] == [root] && walked[..2] == [root, middle] && walked[..2][..1] == [root];
    assert WithoutIdentity([root], root) == [];
    assert WithoutIdentity([root, middle], root) == [middle];
  }
}
