/**
 * Read-only wrappers used to navigate a transpilation trace.
 *
 * ExternalNode is the node interface a trace node wraps. Its one concrete
 * subclass here, AugmentedNode, wraps a node of the AST model and answers most
 * questions with fixed values. Classes cannot inherit here, so ExternalNode is a
 * single class whose `impl` says which subclass an object is: `Augmented` for an
 * AugmentedNode, `Other` for any other subclass, whose abstract members are
 * given as `Answers`. TraceNode wraps an ExternalNode, forwards most questions
 * to it, and computes the path of the node from the root of its tree.
 */
module TraceNodes {
  import opened Wrappers

  /** The type of a node: its package (empty when it has none) and its simple name. */
  datatype NodeDefinition = NodeDefinition(package: string, name: string)

  datatype Point = Point(line: nat, column: nat)

  datatype Position = Position(start: Point, end: Point)

  datatype Issue = Issue(message: string)

  /** The feature under which a node is contained: its name and whether it holds many nodes. */
  datatype Containment = Containment(name: string, multiple: bool)

  /** One step of a path from the root: a feature name, or an index among the nodes it holds. */
  datatype PathStep = Name(name: string) | Index(index: nat)

  /** Computing a path dereferences a containment that is not there. */
  datatype PathError = MissingContainment(role: Option<string>)

  /** A node of the AST model, as the AugmentedNode wrapping it sees it. */
  class ModelNode {
    var parent: ModelNode?
    var position: Option<Position>
    const definition: NodeDefinition
    var children: map<string, seq<ModelNode>>
    var attributes: map<string, string>

    constructor (definition: NodeDefinition)
      ensures this.definition == definition && parent == null && position == None
      ensures children == map[] && attributes == map[]
    {
      this.definition := definition;
      parent := null;
      position := None;
      children := map[];
      attributes := map[];
    }
  }

  /** What a subclass of ExternalNode other than AugmentedNode answers to each abstract member. */
  datatype Answers = Answers(
    definition: NodeDefinition,
    parent: ExternalNode?,
    lookup: map<seq<string>, ExternalNode>,
    attributes: map<string, string>,
    id: string,
    issues: Option<seq<Issue>>,
    position: Option<Position>,
    role: Option<string>,
    declaration: bool,
    expression: bool,
    statement: bool)

  datatype Implementation = Augmented(node: ModelNode) | Other(answers: Answers)

  class ExternalNode {
    const impl: Implementation

    /** `new AugmentedNode(node)`. */
    constructor Augment(node: ModelNode)
      ensures impl == Augmented(node)
    {
      impl := Augmented(node);
    }

    /** An external node of another subclass. */
    constructor Given(answers: Answers)
      ensures impl == Other(answers)
    {
      impl := Other(answers);
    }

    /** The state of the wrapped model node, which some answers of an AugmentedNode read. */
    ghost function Footprint(): set<object> {
      if impl.Augmented? then {impl.node} else {}
    }

    /** The default equality of external nodes: the same object. */
    function Equals(other: ExternalNode): bool {
      other == this
    }

    function NodeDefinition(): NodeDefinition {
      match impl
      case Augmented(node) => node.definition
      case Other(a) => a.definition
    }

    function Get(path: seq<string>): Option<ExternalNode> {
      match impl
      case Augmented(_) => None
      case Other(a) => if path in a.lookup then Some(a.lookup[path]) else None
    }

    function GetAttributes(): map<string, string> {
      match impl
      case Augmented(_) => map[]
      case Other(a) => a.attributes
    }

    function GetAttribute(name: string): Option<string>
      reads Footprint()
    {
      match impl
      case Augmented(node) => if name in node.attributes then Some(node.attributes[name]) else None
      case Other(a) => if name in a.attributes then Some(a.attributes[name]) else None
    }

    function GetId(): string {
      match impl
      case Augmented(_) => "TODO"
      case Other(a) => a.id
    }

    function GetIssues(): Option<seq<Issue>> {
      match impl
      case Augmented(_) => None
      case Other(a) => a.issues
    }

    function GetPosition(): Option<Position>
      reads Footprint()
    {
      match impl
      case Augmented(node) => node.position
      case Other(a) => a.position
    }

    function GetRole(): Option<string> {
      match impl
      case Augmented(_) => None
      case Other(a) => a.role
    }

    function IsDeclaration(): bool {
      match impl
      case Augmented(_) => false
      case Other(a) => a.declaration
    }

    function IsExpression(): bool {
      match impl
      case Augmented(_) => false
      case Other(a) => a.expression
    }

    function IsStatement(): bool {
      match impl
      case Augmented(_) => false
      case Other(a) => a.statement
    }

    /** The `parent` getter: an AugmentedNode wraps its node's parent in a new AugmentedNode at every access. */
    method Parent() returns (p: ExternalNode?)
      ensures impl.Augmented? ==> (p == null <==> impl.node.parent == null)
      ensures impl.Augmented? && p != null ==> fresh(p) && p.impl == Augmented(impl.node.parent)
      ensures impl.Other? ==> p == impl.answers.parent
    {
      if impl.Other? {
        p := impl.answers.parent;
      } else if impl.node.parent != null {
        p := new ExternalNode.Augment(impl.node.parent);
      } else {
        p := null;
      }
    }

    /** AugmentedNode.setChild: the wrapped node now holds `child`, alone, under `name`. */
    method SetChild(name: string, child: ModelNode)
      requires impl.Augmented?
      modifies impl.node`children, child`parent
      ensures impl.node.children == old(impl.node.children)[name := [child]]
      ensures child.parent == impl.node
      ensures child != impl.node ==> impl.node.parent == old(impl.node.parent)
      ensures impl.node.attributes == old(impl.node.attributes) && impl.node.position == old(impl.node.position)
    {
      var node := impl.node;
      node.children := node.children[name := [child]];
      child.parent := node;
    }

    /** AugmentedNode.addChild: `child` is appended to what the wrapped node holds under `name`. */
    method AddChild(name: string, child: ModelNode)
      requires impl.Augmented?
      modifies impl.node`children, child`parent
      ensures impl.node.children ==
              old(impl.node.children)[name := (if name in old(impl.node.children) then old(impl.node.children)[name] else []) + [child]]
      ensures child.parent == impl.node
      ensures child != impl.node ==> impl.node.parent == old(impl.node.parent)
      ensures impl.node.attributes == old(impl.node.attributes) && impl.node.position == old(impl.node.position)
    {
      var node := impl.node;
      var held := if name in node.children then node.children[name] else [];
      node.children := node.children[name := held + [child]];
      child.parent := node;
    }

    /** AugmentedNode.setAttribute: the wrapped node's attribute `name` becomes `value`. */
    method SetAttribute(name: string, value: string)
      requires impl.Augmented?
      modifies impl.node
      ensures impl.node.attributes == old(impl.node.attributes)[name := value]
      ensures GetAttribute(name) == Some(value)
      ensures impl.node.children == old(impl.node.children) && impl.node.parent == old(impl.node.parent)
      ensures impl.node.position == old(impl.node.position)
    {
      var node := impl.node;
      node.attributes := node.attributes[name := value];
    }
  }

  /** Two reads of an AugmentedNode's parent give two wrappers that the default equality tells apart. */
  method ParentIsNewOnEveryAccess(e: ExternalNode) returns (first: ExternalNode?, second: ExternalNode?)
    requires e.impl.Augmented? && e.impl.node.parent != null
    ensures first != null && second != null
    ensures first.impl == second.impl == Augmented(e.impl.node.parent)
    ensures !first.Equals(second) && !second.Equals(first)
  {
    first := e.Parent();
    second := e.Parent();
  }

  /** The fixed answers of an AugmentedNode; its definition and position are its node's. */
  lemma AugmentedNodeAnswers(e: ExternalNode, path: seq<string>)
    requires e.impl.Augmented?
    ensures e.Get(path) == None && e.GetAttributes() == map[] && e.GetId() == "TODO"
    ensures e.GetIssues() == None && e.GetRole() == None
    ensures !e.IsDeclaration() && !e.IsExpression() && !e.IsStatement()
    ensures e.GetPosition() == e.impl.node.position && e.NodeDefinition() == e.impl.node.definition
  {
  }

  /** A child as `getChildren` returns it: a trace node, or some other node. */
  datatype ChildEntry = TraceChild(node: TraceNode) | OtherChild

  class TraceNode {
    const wrapped: ExternalNode
    const parent: TraceNode?
    /** What `containment(role)` answers for each role. */
    const containments: map<string, Containment>
    /** What `getChildren(name)` answers for each feature name. */
    const children: map<string, seq<ChildEntry>>
    /** Bounds the length of the parent chain. */
    ghost const depth: nat

    /** The parent chain is finite. */
    ghost predicate Valid()
      decreases depth
    {
      parent != null ==> parent.depth < depth && parent.Valid()
    }

    constructor (wrapped: ExternalNode, parent: TraceNode?, containments: map<string, Containment>,
                 children: map<string, seq<ChildEntry>>)
      requires parent != null ==> parent.Valid()
      ensures Valid()
      ensures this.wrapped == wrapped && this.parent == parent
      ensures this.containments == containments && this.children == children
    {
      this.wrapped := wrapped;
      this.parent := parent;
      this.containments := containments;
      this.children := children;
      depth := if parent == null then 0 else parent.depth + 1;
    }

    function NodeDefinition(): NodeDefinition {
      wrapped.NodeDefinition()
    }

    /** The qualified type: package, a dot, then the simple name; just the name without a package. */
    function GetType(): (r: string)
      ensures |r| >= |GetSimpleType()| && r[|r| - |GetSimpleType()|..] == GetSimpleType()
      ensures NodeDefinition().package == "" ==> r == GetSimpleType()
      ensures NodeDefinition().package != "" ==>
                |r| == |NodeDefinition().package| + 1 + |GetSimpleType()| &&
                r[..|NodeDefinition().package|] == NodeDefinition().package &&
                r[|NodeDefinition().package|] == '.'
    {
      var definition := NodeDefinition();
      if definition.package != "" then definition.package + "." + definition.name else definition.name
    }

    function GetSimpleType(): string {
      NodeDefinition().name
    }

    function GetRole(): Option<string> {
      wrapped.GetRole()
    }

    function GetPosition(): Option<Position>
      reads wrapped.Footprint()
    {
      wrapped.GetPosition()
    }

    /** The `position` getter. */
    function Position(): Option<Position>
      reads wrapped.Footprint()
    {
      GetPosition()
    }

    function GetAttributes(): map<string, string> {
      wrapped.GetAttributes()
    }

    function DoGetAttribute(name: string): Option<string>
      reads wrapped.Footprint()
    {
      wrapped.GetAttribute(name)
    }

    function IsDeclaration(): bool {
      wrapped.IsDeclaration()
    }

    function IsExpression(): bool {
      wrapped.IsExpression()
    }

    function IsStatement(): bool {
      wrapped.IsStatement()
    }

    /** `getChildren(name)`: nothing for a name with no children. */
    function GetChildren(name: string): seq<ChildEntry> {
      if name in children then children[name] else []
    }

    /** Trace nodes are equal when they wrap equal external nodes, whichever wrapper is used. */
    function Equals(node: TraceNode): (r: bool)
      ensures r <==> node.wrapped == wrapped
    {
      node == this || node.wrapped.Equals(wrapped)
    }

    /** The number of nodes above this one. */
    ghost function AncestorCount(): nat
      requires Valid()
      decreases depth
    {
      if parent == null then 0 else parent.AncestorCount() + 1
    }

    /** Every node on the way up has a role under which its parent contains it. */
    ghost predicate ContainedAtEveryLevel()
      requires Valid()
      decreases depth
    {
      parent != null ==>
        GetRole().Some? && GetRole().value in parent.containments && parent.ContainedAtEveryLevel()
    }

    /**
     * The path from the root: the parent's path, the name of the feature that
     * contains this node and, for a feature holding many nodes, the index of
     * every sibling equal to this node.
     */
    function PathFromRoot(): (r: Result<seq<PathStep>, PathError>)
      requires Valid()
      ensures parent == null ==> r == Ok([])
      ensures parent != null && r.Ok? ==>
                parent.PathFromRoot().Ok? &&
                |parent.PathFromRoot().value| < |r.value| &&
                r.value[..|parent.PathFromRoot().value|] == parent.PathFromRoot().value
      decreases depth
    {
      if parent == null then Ok([])
      else
        match parent.PathFromRoot()
        case Err(e) => Err(e)
        case Ok(prefix) =>
          var role := GetRole();
          if role.None? || role.value !in parent.containments then Err(MissingContainment(role))
          else
            var feature := parent.containments[role.value];
            var indices := if feature.multiple then SiblingIndices(parent.GetChildren(feature.name), this) else [];
            assert (prefix + [Name(feature.name)] + indices)[..|prefix|] == prefix;
            Ok(prefix + [Name(feature.name)] + indices)
    }

    /** getPathFromRoot: builds on the parent's path, pushing the name and then the matching indices. */
    method GetPathFromRoot() returns (path: Result<seq<PathStep>, PathError>)
      requires Valid()
      ensures path == PathFromRoot()
      decreases depth
    {
      if parent == null {
        return Ok([]);
      }
      var role := GetRole();
      var prefix := parent.GetPathFromRoot();
      if prefix.Err? {
        return Err(prefix.error);
      }
      if role.None? || role.value !in parent.containments {
        return Err(MissingContainment(role));
      }
      var feature := parent.containments[role.value];
      var steps := prefix.value + [Name(feature.name)];
      if feature.multiple {
        var siblings := parent.GetChildren(feature.name);
        ghost var head := steps;
        for index := 0 to |siblings|
          invariant steps == head + SiblingIndices(siblings[..index], this)
        {
          assert siblings[..index + 1][..index] == siblings[..index];
          var child := siblings[index];
          if child.TraceChild? && child.node.Equals(this) {
            steps := steps + [Index(index)];
          }
        }
        assert siblings[..|siblings|] == siblings;
      } else {
        // A single containment adds no index after the name.
        assert steps == steps + [];
      }
      path := Ok(steps);
    }
  }

  /** The sibling is a trace node equal to `node`. */
  predicate Matches(sibling: ChildEntry, node: TraceNode) {
    sibling.TraceChild? && sibling.node.Equals(node)
  }

  /** The indices, in ascending order, of the siblings equal to `node`. */
  function SiblingIndices(siblings: seq<ChildEntry>, node: TraceNode): (r: seq<PathStep>)
    ensures forall k :: 0 <= k < |r| ==> r[k].Index? && r[k].index < |siblings| && Matches(siblings[r[k].index], node)
    ensures forall k, l :: 0 <= k < l < |r| ==> r[k].index < r[l].index
  {
    if siblings == [] then []
    else
      var last := |siblings| - 1;
      SiblingIndices(siblings[..last], node) + (if Matches(siblings[last], node) then [Index(last)] else [])
  }

  /** Every sibling equal to `node` has its index among the sibling indices. */
  lemma {:induction false} SiblingIndicesComplete(siblings: seq<ChildEntry>, node: TraceNode, i: nat)
    requires i < |siblings| && Matches(siblings[i], node)
    ensures Index(i) in SiblingIndices(siblings, node)
  {
    var last := |siblings| - 1;
    if i < last {
      assert siblings[..last][i] == siblings[i];
      SiblingIndicesComplete(siblings[..last], node, i);
    }
  }

  /** The steps that name a feature. */
  function NameCount(path: seq<PathStep>): nat {
    if path == [] then 0 else NameCount(path[..|path| - 1]) + (if path[|path| - 1].Name? then 1 else 0)
  }

  lemma {:induction false} NameCountAppend(a: seq<PathStep>, b: seq<PathStep>)
    ensures NameCount(a + b) == NameCount(a) + NameCount(b)
  {
    if b == [] {
      assert a + b == a;
    } else {
      var ab := a + b;
      assert ab[..|ab| - 1] == a + b[..|b| - 1];
      assert ab[|ab| - 1] == b[|b| - 1];
      NameCountAppend(a, b[..|b| - 1]);
    }
  }

  lemma {:induction false} IndicesNameNothing(steps: seq<PathStep>)
    requires forall k :: 0 <= k < |steps| ==> steps[k].Index?
    ensures NameCount(steps) == 0
  {
    if steps != [] {
      IndicesNameNothing(steps[..|steps| - 1]);
    }
  }

  /** The path is defined exactly when every node up to the root has a containment in its parent. */
  lemma {:induction false} PathDefinedIffContained(t: TraceNode)
    requires t.Valid()
    ensures t.PathFromRoot().Ok? <==> t.ContainedAtEveryLevel()
    decreases t.depth
  {
    if t.parent != null {
      PathDefinedIffContained(t.parent);
    }
  }

  /** The path of a node below the root, as the parent's path followed by this level's steps. */
  lemma PathBelowParent(t: TraceNode)
    requires t.Valid() && t.parent != null && t.PathFromRoot().Ok?
    ensures t.parent.PathFromRoot().Ok? && t.GetRole().Some? && t.GetRole().value in t.parent.containments
    ensures var feature := t.parent.containments[t.GetRole().value];
            t.PathFromRoot().value == t.parent.PathFromRoot().value + [Name(feature.name)] + LevelIndices(t, feature)
  {
  }

  /** The indices a level adds after the feature's name: none for a single containment. */
  function LevelIndices(t: TraceNode, feature: Containment): seq<PathStep>
    requires t.parent != null
  {
    if feature.multiple then SiblingIndices(t.parent.GetChildren(feature.name), t) else []
  }

  /** A path names one feature per level: as many names as the node has ancestors. */
  lemma {:induction false} PathNamesOneFeaturePerLevel(t: TraceNode)
    requires t.Valid() && t.PathFromRoot().Ok?
    ensures NameCount(t.PathFromRoot().value) == t.AncestorCount()
    decreases t.depth
  {
    if t.parent != null {
      PathBelowParent(t);
      PathNamesOneFeaturePerLevel(t.parent);
      var prefix := t.parent.PathFromRoot().value;
      var feature := t.parent.containments[t.GetRole().value];
      var name := [Name(feature.name)];
      var indices := LevelIndices(t, feature);
      assert NameCount(name) == 1 by {
        assert name[..0] == [];
      }
      NameCountAppend(prefix, name);
      NameCountAppend(prefix + name, indices);
      IndicesNameNothing(indices);
    }
  }

  /**
   * The steps are the indices, in ascending order, of exactly the siblings
   * equal to `node`.
   */
  ghost predicate IndicesOfEqualSiblings(steps: seq<PathStep>, siblings: seq<ChildEntry>, node: TraceNode) {
    (forall k :: 0 <= k < |steps| ==>
       steps[k].Index? && steps[k].index < |siblings| && Matches(siblings[steps[k].index], node)) &&
    (forall k, l :: 0 <= k < l < |steps| ==> steps[k].Index? && steps[l].Index? && steps[k].index < steps[l].index) &&
    (forall i :: 0 <= i < |siblings| && Matches(siblings[i], node) ==> Index(i) in steps)
  }

  /**
   * One level of the path: after the parent's path comes the containing
   * feature's name; a single containment adds nothing more, a multiple one
   * adds the ascending indices of exactly the siblings equal to this node.
   */
  lemma PathExtendsParentPath(t: TraceNode)
    requires t.Valid() && t.parent != null && t.PathFromRoot().Ok?
    ensures t.parent.PathFromRoot().Ok? && t.GetRole().Some? && t.GetRole().value in t.parent.containments
    ensures var prefix := t.parent.PathFromRoot().value;
            var path := t.PathFromRoot().value;
            var feature := t.parent.containments[t.GetRole().value];
            |path| > |prefix| && path[..|prefix| + 1] == prefix + [Name(feature.name)] &&
            (!feature.multiple ==> |path| == |prefix| + 1) &&
            (feature.multiple ==> IndicesOfEqualSiblings(path[|prefix| + 1..], t.parent.GetChildren(feature.name), t))
  {
    PathBelowParent(t);
    var prefix := t.parent.PathFromRoot().value;
    var feature := t.parent.containments[t.GetRole().value];
    var indices := LevelIndices(t, feature);
    var path := prefix + [Name(feature.name)] + indices;
    assert path[..|prefix| + 1] == prefix + [Name(feature.name)];
    assert path[|prefix| + 1..] == indices;
    if feature.multiple {
      SiblingIndicesOfEqualSiblings(t.parent.GetChildren(feature.name), t);
    }
  }

  /** The sibling indices are exactly the ascending indices of the siblings equal to `node`. */
  lemma SiblingIndicesOfEqualSiblings(siblings: seq<ChildEntry>, node: TraceNode)
    ensures IndicesOfEqualSiblings(SiblingIndices(siblings, node), siblings, node)
  {
    forall i | 0 <= i < |siblings| && Matches(siblings[i], node) ensures Index(i) in SiblingIndices(siblings, node) {
      SiblingIndicesComplete(siblings, node, i);
    }
  }

  /** The last dot of a string, if any. */
  function LastDot(s: string): (r: Option<nat>)
    ensures r.Some? ==> r.value < |s| && s[r.value] == '.' && '.' !in s[r.value + 1..]
    ensures r.None? ==> '.' !in s
  {
    if s == [] then None
    else if s[|s| - 1] == '.' then Some(|s| - 1)
    else
      var r := LastDot(s[..|s| - 1]);
      assert s == s[..|s| - 1] + [s[|s| - 1]];
      r
  }

  /** Splits a qualified type at its last dot into package and simple name. */
  function SplitType(qualified: string): (string, string) {
    match LastDot(qualified)
    case None => ("", qualified)
    case Some(i) => (qualified[..i], qualified[i + 1..])
  }

  lemma {:induction false} LastDotBeforeName(package: string, name: string)
    requires '.' !in name
    ensures LastDot(package + "." + name) == Some(|package|)
    decreases |name|
  {
    var s := package + "." + name;
    if name == [] {
      assert s[|s| - 1] == '.';
    } else {
      var shorter := name[..|name| - 1];
      assert s[..|s| - 1] == package + "." + shorter;
      assert s[|s| - 1] == name[|name| - 1];
      assert name[|name| - 1] in name;
      LastDotBeforeName(package, shorter);
    }
  }

  /** For a simple name without a dot, the qualified type splits back into package and simple name. */
  lemma QualifiedTypeSplitsBack(t: TraceNode)
    requires '.' !in t.GetSimpleType()
    ensures SplitType(t.GetType()) == (t.NodeDefinition().package, t.GetSimpleType())
  {
    var definition := t.NodeDefinition();
    if definition.package != "" {
      LastDotBeforeName(definition.package, definition.name);
      var s := definition.package + "." + definition.name;
      assert s[..|definition.package|] == definition.package;
      assert s[|definition.package| + 1..] == definition.name;
    }
  }

  /**
   * A trace node over an AugmentedNode answers through it: no role, no kind,
   * no attributes, the model node's position and type; so its path is defined
   * only at the root.
   */
  lemma TraceOverAugmentedNode(t: TraceNode)
    requires t.Valid() && t.wrapped.impl.Augmented?
    ensures t.GetRole() == None && t.GetAttributes() == map[]
    ensures !t.IsDeclaration() && !t.IsExpression() && !t.IsStatement()
    ensures t.Position() == t.GetPosition() == t.wrapped.impl.node.position
    ensures t.GetSimpleType() == t.wrapped.impl.node.definition.name
    ensures t.PathFromRoot().Ok? <==> t.parent == null
  {
    PathDefinedIffContained(t);
  }
}
