# Structural traversal and trace nodes, in Dafny

This project models two parts of a TypeScript library for abstract syntax trees (ASTs):

- **Structural traversal** (`structurally.dfy`, module `Structurally`):
  - `walk` is a depth-first, pre-order walk driven by an explicit stack. It pops the top entry. A node pushes its children in reverse, so the first child is popped next, and is then yielded. A falsy entry yields nothing.
  - `walkDescendants` is the walker's sequence without the elements identical to the start node.
  - The free `walkChildren` yields the direct children: property by property, a node value, or the node elements of an array value.
  - The three methods installed on the node prototype.
- **Trace nodes** (`trace_node.dfy`, module `TraceNodes`):
  - `ExternalNode` is the node interface of a transpilation trace. Its default `equals` is identity.
  - `AugmentedNode` wraps a node of the AST model. It answers most questions with fixed values, builds a new wrapper for its `parent` on every access, and forwards updates to the wrapped node.
  - `TraceNode` wraps an external node and forwards to it. It computes the qualified type, the equality of trace nodes and the path of a node from the root of its tree.

`wrappers.dfy` holds the `Option` and `Result` types both modules use.

Modelling choices:

- **Nodes.** An AST node is a value. Its identity, which `===` and `!=` compare, is the field `id`.
- **Stack.** The stack of `walk` holds optional entries, so `walk(undefined)` and the falsy test on a popped entry are both represented.
- **Reference walk.** `Preorder` is a definition of the walk written over the node's properties, independent of the stack. The stack method is proved equal to it. `ChildrenDriveWalk` proves that `Preorder` is "the node, then the walk of each child in order".
- **Trees.** "A tree" means that no identity occurs at two positions (`IsTree`, over `Occurrences`).
- **No inheritance.** Classes cannot inherit here, so `ExternalNode` is one class. Its `impl` field says whether the object is an `AugmentedNode` or another subclass. Another subclass's answers to the abstract members are given as data.
- **Trace nodes.** A `TraceNode`'s parent, containments and children are fixed when it is built. A ghost depth bounds the parent chain, so the recursive path computation terminates.

The documentation of the prototype's `walkChildren` promises the direct children. The code returns `walkDescendants(this)`, which is every descendant. The model follows the code and records the difference under "## Findings".

## Model

| member | source | states |
|---|---|---|
| Structurally.Walk | src/traversing/structurally.ts:28-37 | walking from a falsy start yields nothing; walking from a node yields exactly its pre-order walk `Preorder`, with the stack kept as "visited + what the stack still has to yield = the whole walk" |
| Structurally.ChildrenDriveWalk | src/traversing/structurally.ts:28-37 | the walk of a node is the node followed by the full walk of each of its children, in `children` order |
| Structurally.PushReversed | src/traversing/structurally.ts:33 | pushing the children reversed onto any stack makes them pop, and be walked, in declared order, before the rest of the stack |
| Structurally.WalkTwice | src/traversing/structurally.ts:29 | two walks from the same start yield the same sequence, because each starts from a fresh stack |
| Structurally.WalkCountsOccurrences | src/traversing/structurally.ts:29-36 | the number of visited nodes with a given identity equals the number of tree positions holding that identity |
| Structurally.WalkReachesHeldNodes | src/traversing/structurally.ts:29-36 | an identity is visited if and only if some position of the tree holds it |
| Structurally.WalkVisitsOnce | src/traversing/structurally.ts:29-36 | on a tree, no two positions of the walk hold the same identity: every node is visited exactly once |
| Structurally.SubtreeFollowsNode | src/traversing/structurally.ts:29-36 | every visited node is followed immediately by its own whole walk, so a parent comes before all of its descendants and these come before its next sibling |
| Structurally.WithoutIdentity | src/traversing/structurally.ts:50-54 | the filtered sequence has one element fewer per element identical to the node, and each kept element is from the input and not identical to the node |
| Structurally.WithoutIdentityKeepsOthers | src/traversing/structurally.ts:50-54 | every element not identical to the node is kept |
| Structurally.WithoutIdentityAppend | src/traversing/structurally.ts:50-54 | filtering a concatenation is the concatenation of the filtered parts, so order is preserved |
| Structurally.WalkDescendants | src/traversing/structurally.ts:49-55 | the result is the walker's sequence (the default walk when no walker is given) with every element identical to the node removed, in order |
| Structurally.DescendantsOfTree | src/traversing/structurally.ts:49-55 | with the default walker on a tree, the descendants are the walk without its first element, that is the walks of the children in order, and their number is one less than the walk's |
| Structurally.WalkChildren | src/traversing/structurally.ts:65-79 | the nested loops yield exactly `Children`: property by property, a node value, or the node elements of an array value in index order |
| Structurally.ChildrenAreDirect | src/traversing/structurally.ts:66-78 | a node is yielded if and only if it is a property's value or an element of an array-valued property, so no grandchild is yielded |
| Structurally.NodeWalk | src/traversing/structurally.ts:39-41 | the bound `walk` yields the pre-order walk of the node, starting with the node itself |
| Structurally.NodeWalkDescendants | src/traversing/structurally.ts:57-59 | the bound `walkDescendants` filters the given or default walker's sequence, and on a tree it is the walk without the node |
| Structurally.NodeWalkChildren | src/traversing/structurally.ts:81-83 | the bound `walkChildren`, as written, equals `walkDescendants` of the node, and on a tree it is the walks of all the children, grandchildren included |
| Structurally.WalkChildrenBindingMatchesDocument | src/traversing/structurally.ts:81-83 | on a tree, the bound `walkChildren` yields the direct children if and only if no child has children of its own |
| Structurally.WalkChildrenBindingYieldsGrandchild | src/traversing/structurally.ts:81-83 | on a root holding a node that holds a leaf, the direct children are the middle node, while the bound `walkChildren` yields the middle node and the leaf |
| Structurally.NodeDirectChildren | src/traversing/structurally.ts:17-20 | the corrected binding yields the free `walkChildren`'s sequence, and a node is in it if and only if the node holds it directly |
| TraceNodes.ExternalNode.Parent | src/trace/trace-node.ts:41-45 | an AugmentedNode's parent is absent exactly when its node has no parent, and is otherwise a newly allocated wrapper of that parent; another subclass returns its own parent |
| TraceNodes.ParentIsNewOnEveryAccess | src/trace/trace-node.ts:31-45 | two reads of an AugmentedNode's parent wrap the same model node, yet the default `equals` tells them apart |
| TraceNodes.ExternalNode.SetChild | src/trace/trace-node.ts:51-53 | the wrapped node holds the child alone under the name and becomes its parent; only the node's children and the child's parent may change, so the node's own parent is kept unless the child is the node itself |
| TraceNodes.ExternalNode.AddChild | src/trace/trace-node.ts:55-57 | the child is appended to what the wrapped node holds under the name, and the node becomes its parent; only the node's children and the child's parent may change, so the node's own parent is kept unless the child is the node itself |
| TraceNodes.ExternalNode.SetAttribute | src/trace/trace-node.ts:59-61 | the wrapped node's attribute takes the value, which `getAttribute` then returns; nothing else changes |
| TraceNodes.AugmentedNodeAnswers | src/trace/trace-node.ts:63-101 | an AugmentedNode answers no lookup result, no attributes, the id "TODO", no issues, no role and false to the three kind questions; its position and definition are its node's |
| TraceNodes.TraceNode.GetType | src/trace/trace-node.ts:112-122 | the type always ends with the simple type; without a package it is the simple type; with one it is the package, a dot, then the simple type |
| TraceNodes.QualifiedTypeSplitsBack | src/trace/trace-node.ts:112-122 | for a simple type without a dot, splitting the type at its last dot gives back the package and the simple type |
| TraceNodes.TraceNode.Equals | src/trace/trace-node.ts:169-171 | two trace nodes are equal exactly when they wrap the same external node, so equality is reflexive |
| TraceNodes.TraceNode.PathFromRoot | src/trace/trace-node.ts:148-167 | a root's path is empty; a node's defined path strictly extends its parent's path |
| TraceNodes.TraceNode.GetPathFromRoot | src/trace/trace-node.ts:148-167 | the method, which pushes onto the parent's path in a loop over the siblings, returns exactly `PathFromRoot` |
| TraceNodes.SiblingIndices | src/trace/trace-node.ts:154-161 | the appended steps are indices, in strictly ascending order, of siblings that are trace nodes equal to the node |
| TraceNodes.SiblingIndicesComplete | src/trace/trace-node.ts:154-161 | the index of every sibling equal to the node is appended |
| TraceNodes.PathExtendsParentPath | src/trace/trace-node.ts:149-163 | below the parent's path come the containing feature's name, then nothing more for a single containment, or for a multiple one the ascending indices of exactly the siblings equal to the node |
| TraceNodes.PathDefinedIffContained | src/trace/trace-node.ts:149-152 | the path is defined if and only if every node up to the root has a role under which its parent has a containment |
| TraceNodes.PathNamesOneFeaturePerLevel | src/trace/trace-node.ts:148-167 | a path holds one feature name per ancestor of the node |
| TraceNodes.TraceOverAugmentedNode | src/trace/trace-node.ts:124-183 | a trace node over an AugmentedNode forwards its answers: no role, no attributes, false to the kind questions, the model node's position and simple type; so its path is defined only at a root |

## Left out

- Generators are modelled as the finite sequences they yield. Their laziness, and a consumer stopping early, are not modelled.
- `children` and `properties` come from the node model, which is not part of this model. `properties` is a sequence of name and value pairs. `children` is taken to be what the free `walkChildren` yields.
- The array that `walk` reverses is taken to be fresh. A `children` getter that returns the node's own array would be reversed in place; that aliasing is not modelled.
- Cyclic node graphs are not represented: a node is an inductive value, so it cannot hold itself directly or deeper. The node model's `setChild` rules such cycles out, and on one the loop of `walk` would never stop. `Walk` therefore terminates by construction.
- `children` is never absent, so the `|| []` fallback of `walk` is the empty case of a node with no properties.
- Nested arrays are not entered, as in the source. Array elements that are neither nodes nor arrays are primitives.
- Other walkers, such as `walkLeavesFirst`, are not part of this model. `walkDescendants` takes any walker as a function parameter.
- ExternalNode.getChildren is a cast over the node model's `getChildren`, which is not part of this model. A trace node's children under each feature name are given when the node is built.
- TraceNodes.ExternalNode.SetChild: does not model detaching the child from a previous parent, or any checks the node model makes. It is stated as a map update plus reparenting.
- TraceNodes.ExternalNode.AddChild: does not model detaching the child from a previous parent, or any checks the node model makes. It is stated as a map update plus reparenting.
- Attribute values are strings, and attribute names are strings, not symbols.
- `Position` and `Issue` are opaque values.
- A package that is `undefined` or empty is the empty string. The non-null assertion on `name` is taken to hold, so `name` is always a string.
- TraceNodes.TraceNode.PathFromRoot: a missing role, or a role without a containment, is the error `MissingContainment`. The source asserts these non-null and would fail while reading `name` of an undefined feature.
- TraceNodes.TraceNode.Equals: assumes the wrapped nodes use the default `ExternalNode.equals` (identity). A subclass that overrides `equals` is not modelled.
- The `parent` of a trace node is fixed when it is built. SourceNode and TargetNode, which define it, are not part of this model.
- `get()` of an AugmentedNode ignores its path argument. For another subclass, `get` is a lookup in the given answers.
- src/mapping.ts, src/parsing/parsing.ts and src/interop/transpilation_package.ts are not part of this model. They are wrappers over parser and metamodel libraries.

## Findings

| source | as written | input that shows it | evidently intended | confidence | as-written member | corrected member |
|---|---|---|---|---|---|---|
| src/traversing/structurally.ts:81-83 | the prototype's `walkChildren` returns `walkDescendants(this)`, every descendant | a root holding a node that itself holds a leaf: the binding yields the middle node and the leaf | the direct children, as the documentation at lines 17-20 says, which is what the free `walkChildren` yields | not executed | Structurally.NodeWalkChildren (counterexample: Structurally.WalkChildrenBindingYieldsGrandchild) | Structurally.NodeDirectChildren |
