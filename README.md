# option-tree-navigate in Dafny

This is a model of `index.js` from option-tree-navigate, a read-only navigator over an n-ary tree of options.

**The tree.** A tree is a sequence of root nodes. A node keeps its children in a list under a configurable field, `options` by default.

**Paths.** A path is a sequence of integers. The first integer picks a root, and each later one picks a child of the node reached so far.

**Operations.** The navigator offers:
- path helpers: sibling paths, parent paths, validity and the prefix test;
- `readPath`, which resolves a path to a node;
- `has` and `hasChildren`, the node queries;
- `childNodes`, the nodes below a path;
- a traversal engine:
  - `nextNode` and `prevNode` walk the tree in depth-first pre-order;
  - `lastNode` gives the last node of a subtree;
  - `nextWith`, `prevWith` and `nearestWith` look for nodes whose attribute is truthy.

**The modules:**
- `Paths` (paths.dfy): the path helpers, which are the source's own loops (`isValidPath`, `isEqual`) and copy-and-adjust functions. It also holds the pre-order `Before` on paths: a prefix comes first, otherwise the first differing component decides. The lemmas prove `Before` a strict total order.
- `Trees` (trees.dfy): nodes, the configuration, and `readPath` as a loop proved against a function. The function follows the JavaScript: a negative component gives null, a missing node is carried along, and indexing a scalar children field gives null. Descending through a node that has no children field raises a `TypeError`, which is modelled as an explicit outcome. The module also defines `Preorder`, the list of every node path in depth-first pre-order, and proves it complete and sorted.
- `Order` (order.dfy): the reference definitions.
  - `Succ` and `Pred` are the neighbours of any path in `Preorder`.
  - `LastDesc` is the last node of a subtree.
  - The lemmas characterise `Succ` and `Pred` both ways.
- `Traversal` (traversal.dfy): the methods `NextNode`, `PrevNode`, `LastNode` and `ChildNodes`, with the loops of the source. Each is proved equal to a reference function. On nodes those functions are the pre-order successor, the predecessor, the last node of a subtree, and the nodes below in pre-order.
- `Search` (search.dfy): the methods `NextWith`, `PrevWith` and `NearestWith`, proved against `FirstWith`, `LastWith` and `NearestOf`. Lemmas say which node each one finds.
- `Fixture` (fixture.dfy): the three-root tree from the repository's tests (roots with a title, and a, b, c, d, e, f below them), with what those tests expect of it:
  - every `nextNode` and `prevNode` expectation, and `nextNode` over the empty tree;
  - every `lastNode` expectation on a path (`lastNode(null)` is null by the contract of `Traversal.LastNode`);
  - every `has`, `nextWith`, `prevWith` and `nearestWith` expectation;
  - `childNodes` with and without a path, `readPath` of every node, of the missing paths and of null, and the custom children field.

**Errors as preconditions.** Wherever the source would raise a `TypeError`, the method requires that the raise does not happen, and the condition is stated exactly:
- `Faults(p)`: resolving `p` raises. `Trees.FaultsExactly` spells this out: some prefix `p[..k]`, with `k` at least 1, addresses a node that has no children field, and the next component `p[k]` is not negative.
- `PrevSafe`: the same for the paths `prevNode` reads.

A path that resolves without raising satisfies every such precondition.

**Nodes as values.** A node is a map from attribute names to values. An attribute that is undefined or null is an absent key. A present attribute is one of three things:
- `Falsy`: any other falsy scalar (0, false, the empty string).
- `Truthy(text)`: any truthy scalar, such as an id.
- `List(items)`: an array of child nodes, which is truthy even when empty.

## Model

| member | source | states |
|---|---|---|
| Paths.IsValidPath | index.js:288-299 | true exactly when isValid holds of every component, that is, when no component is negative |
| Paths.ValidPath | index.js:280-286 | the path itself when no component is negative, else null |
| Paths.IsEqual | index.js:302-313 | true exactly when both paths are present and the first is a prefix of the second (a position past the end of the second never matches) |
| Paths.PrevSiblingPath | index.js:168-176 | null for null; otherwise present exactly when the parent part is valid and the last component is at least 1, in which case it has the same length and parent part and a last component one less |
| Paths.NextSiblingPath | index.js:178-186 | present exactly when the input is; same length and parent part, last component one more; the tree is not consulted |
| Paths.ParentPath | index.js:189-195 | null for a root path or a parent part with a negative component, else the path without its last component |
| Paths.PrevParentPath | index.js:197-205 | for a root path the previous root path, else the previous sibling of the parent path, both validated |
| Paths.NextParentPath | index.js:207-215 | null for a root path, else the next sibling of the parent path |
| Paths.SiblingRoundTrip | index.js:168-186 | on a valid path, stepping to the next sibling and back restores the path, and so does the reverse when the last component is positive |
| Paths.BeforeIrreflexive | index.js:34-64 | no path comes before itself in pre-order |
| Paths.BeforeTransitive | index.js:34-64 | the pre-order is transitive |
| Paths.BeforeAsymmetric | index.js:34-64 | two paths are never each before the other |
| Paths.BeforeTotal | index.js:34-64 | any two different paths are ordered one way or the other |
| Paths.BeforeExtension | index.js:43-45 | a node comes before every path that extends it |
| Paths.BeforeAppend | index.js:34-64 | a common prefix does not change the order of two paths |
| Paths.NextSiblingIsSibling | index.js:178-186 | nextSiblingPath of a present path is its next sibling |
| Paths.SiblingMin | index.js:47-57 | a path after a that does not extend a is the next sibling of a or comes after it |
| Paths.AboveInParent | index.js:52-57 | a path after a that extends a's parent but not a continues with a larger component at a's last position |
| Paths.AboveParent | index.js:52-57 | a path after a that does not extend a's parent comes after the parent |
| Paths.SplitAbove | index.js:52-57 | a path after a that does not extend a either extends a's parent with a larger component at a's last position, or lies after the parent without extending it |
| Paths.Gap | index.js:47-50 | between a+[x] and a+[x+1] lie only extensions of a+[x] |
| Paths.BeforeFirstChild | index.js:43-45 | a valid path before a+[0] is a itself or comes before a |
| Paths.PrevSiblingBefore | index.js:75-78 | every path under the previous sibling of p comes before p |
| Paths.Slice | index.js:110 | path.slice(0, n): a prefix of the path, of length n, or the whole path when it is shorter |
| Paths.SlicePrefix | index.js:108-111 | isEqual(base, path.slice(0, base.length)) holds exactly when base is a prefix of path |
| Paths.BeforeSibling | index.js:47-57 | every extension of a comes before the next sibling of a |
| Trees.MakeConfig | index.js:4-5 | the children field is the given name, or options when the name is missing or empty |
| Trees.Child | index.js:234 | indexing the children field yields a node only when the field is an array, and the node is one of its entries |
| Trees.ChildIsKid | index.js:234 | indexing a present children field with k gives the k-th child when k is in range, else nothing |
| Trees.Read | index.js:218-238 | readPath as a function: when it finds a node, the path was present and addresses that node |
| Trees.DescendFaults | index.js:227-237 | the rest of readPath's loop raises from a node exactly when some prefix of the remaining components leads to a node without the children field and the next component is not negative |
| Trees.FaultsExactly | index.js:218-238 | resolving p raises exactly when some prefix p[..k], k at least 1, addresses a node without the children field and p[k] is not negative |
| Trees.Descend | index.js:227-237 | readPath's loop from the value held in node: from a missing node it never finds one; from a node it finds one exactly when the remaining components address a node below it, and returns that node |
| Trees.ReadPath | index.js:218-238 | equals the readPath function; finds a node exactly when the path addresses one, and it is that node; raises exactly when the path faults |
| Trees.ReadFindsNode | index.js:218-238 | readPath finds a node exactly when the path addresses a node of the tree, and returns that node |
| Trees.NodeNoFault | index.js:218-238 | resolving the path of a node never raises |
| Trees.FaultExtends | index.js:233-235 | once resolving a path raises, resolving any extension of it raises too |
| Trees.FaultLast | index.js:233-235 | whether resolving a+[x] raises does not depend on which non-negative x is used |
| Trees.NoFaultPrefix | index.js:218-238 | if a path resolves without raising, so does every prefix of it |
| Trees.Has | index.js:274-277 | true exactly when the path addresses a node whose attribute prop is truthy: present, and not a falsy scalar |
| Trees.HasChildren | index.js:269-272 | true exactly when the path addresses a node with a first child |
| Trees.AtChild | index.js:234 | a+[k] addresses a node exactly when a does and k indexes its children, and then it is the k-th child |
| Trees.NodePrefix | index.js:218-238 | every non-empty prefix of a node path addresses a node |
| Trees.NodeSiblings | index.js:47-50 | if a+[k] is a node, so is every earlier sibling a+[j] |
| Trees.NodeValid | index.js:223-231 | a node path has no negative component |
| Trees.DescendantsComplete | index.js:258-264 | the pre-order list below a node holds exactly the non-empty paths that address a node under it |
| Trees.DescendantsSorted | index.js:258-264 | the pre-order list below a node is strictly increasing in pre-order |
| Trees.SubnodesMatch | index.js:258-264 | the nodes below a node are, position by position, the nodes its descendant paths address |
| Trees.SubtreeNodes | index.js:106-113 | base+t is a node exactly when t is in the pre-order list below base, and it is the node t addresses there |
| Trees.PreorderSorted | index.js:34-99 | Preorder is strictly increasing, so it has no repeats |
| Trees.PreorderNodes | index.js:34-99 | a path is in Preorder exactly when it addresses a node |
| Order.FirstAfter | index.js:34-64 | the first position of a list whose entry comes after q: none earlier does, that one does |
| Order.LastBefore | index.js:66-99 | the last position of a list whose entry comes before q: none later does, that one does |
| Order.SortedPositions | index.js:34-99 | in a sorted list, the entry after ps[m] is at m+1 and the one before at m-1 |
| Order.FirstAfterIs | index.js:34-64 | in a sorted list, a position i is FirstAfter(q) when the entry before i is not after q and the entry at i is |
| Order.Succ | index.js:34-64 | a node after p, or nothing exactly when no node comes after p |
| Order.Pred | index.js:66-99 | a node before p, or nothing exactly when no node comes before p |
| Order.SuccChar | index.js:34-64 | Succ(p) is c exactly when c is a node after p and no node lies strictly between them |
| Order.PredChar | index.js:66-99 | Pred(p) is c exactly when c is a node before p and no node lies strictly between them |
| Order.SuccPredRoundTrip | index.js:34-99 | for a node, the predecessor of its successor and the successor of its predecessor are the node itself |
| Order.FirstNode | index.js:39-41 | in a non-empty tree [0] is the first node, with nothing before it |
| Order.SubtreeOrder | index.js:108-113 | the nodes of a subtree, base first, are in pre-order |
| Order.LastDescIsLast | index.js:101-115 | every node of base's subtree is LastDesc(base) or comes before it |
| Order.SubtreeStep | index.js:108-113 | inside a subtree the successor of the k-th node is the (k+1)-th; the successor of the last one is nothing or lies outside the subtree |
| Order.LastDesc | index.js:101-115 | the last node of base's subtree is a node and extends base |
| Order.LastPath | index.js:71-73 | the last node of a non-empty tree is a node |
| Order.LastPathIsLast | index.js:71-73 | the last node of the last root is the last entry of Preorder and nothing follows it |
| Traversal.NextOf | index.js:34-64 | nextNode's result is null or a node |
| Traversal.FirstChildIsSucc | index.js:43-45 | a node's first child, when it has one, is its successor |
| Traversal.NoChildrenAbove | index.js:47-57 | for a node without children, every node after it lies outside its subtree |
| Traversal.SuccIsSibling | index.js:47-57 | when no node after the path extends the prefix a, the next sibling of a, if a node, is the successor |
| Traversal.ClimbStep | index.js:52-57 | when the next sibling of a is not a node, the nodes after the path also lie beyond a's parent |
| Traversal.LeafAll | index.js:47 | before the climb: for a path without children, every node after it lies beyond its subtree |
| Traversal.ClimbAll | index.js:52-57 | the climb's invariant moves up one level when the next sibling at the current level is not a node |
| Traversal.ClimbLevel | index.js:53-56 | one pass of nextNode's loop: the next parent path resolves without raising, it is the parent's next sibling, and when it is a node it is the successor |
| Traversal.NoFaultSibling | index.js:47-57 | the sibling and parent paths nextNode reads resolve without raising |
| Traversal.NextNode | index.js:34-64 | returns NextOf: null for an empty tree; [0] for a missing, empty or negative path; else the pre-order successor |
| Traversal.LastNode | index.js:101-115 | null when the path addresses no node, else LastDesc of it |
| Traversal.LastNodeIsLast | index.js:101-115 | lastNode's result extends the input, and every node of the subtree is it or comes before it |
| Traversal.LastNodeIdempotent | index.js:101-115 | lastNode's result has no children, and lastNode applied to it returns it unchanged |
| Traversal.NearestAncestor | index.js:80-88 | the deepest proper prefix that is a node, climbing with parentPath; nothing exactly when the climb meets a negative component or no prefix is a node |
| Traversal.ClimbParent | index.js:80-84 | one pass of prevNode's loop: the parent of a path that does not raise does not raise, and the nearest ancestor is the parent when that is a node, else the parent's nearest ancestor |
| Traversal.NoFaultPrevSafe | index.js:75-84 | a path that resolves without raising is safe for prevNode |
| Traversal.PrevOf | index.js:66-99 | prevNode's result is null or a node |
| Traversal.PrevNode | index.js:66-99 | returns PrevOf: null for an empty tree; the last node for a missing or empty path; else the previous sibling's last node, the nearest existing ancestor, or a fallback set by the first component |
| Traversal.PrevOfNode | index.js:66-99 | on a node, prevNode is the pre-order predecessor |
| Traversal.PredAfterSibling | index.js:75-78 | the predecessor of a+[x], x at least 1, is the last node under a+[x-1] |
| Traversal.PredOfFirstChild | index.js:80-88 | the predecessor of a first child is its parent |
| Traversal.PrevOfLaterSibling | index.js:75-78 | from a node a+[x] with x at least 1, prevNode gives the predecessor |
| Traversal.PrevOfFirstChild | index.js:80-88 | from a first child, prevNode gives the predecessor, its parent |
| Traversal.PrevOfFirstRoot | index.js:94-98 | from [0], prevNode gives null and no node lies before [0] |
| Traversal.WalkPreorder | index.js:34-99 | on the m-th node of Preorder, nextNode gives the (m+1)-th and prevNode the (m-1)-th, or null at the ends |
| Traversal.WalkEnds | index.js:66-73 | with no path, nextNode gives the first entry of Preorder and prevNode the last |
| Traversal.NextPrevRoundTrip | index.js:34-99 | on a node, prevNode undoes nextNode and nextNode undoes prevNode, whenever the first step is not null |
| Traversal.NextPastEnd | index.js:52-63 | from a valid path whose first component is past the last root nextNode finds no node and returns null |
| Traversal.PrevPastEnd | index.js:94-96 | a path whose first component is past the last root steps back to the last node |
| Traversal.PrevBeforeStart | index.js:90-92 | a path whose first component is negative steps back to [0] |
| Traversal.PrevMovesBack | index.js:75-88 | from a path under an existing root, prevNode gives null or a node before the path |
| Traversal.PrevFromGap | index.js:75-88 | from a+[x] where a+[x-1] is not a node, prevNode returns a, although a+[0] lies between a and a+[x] |
| Traversal.NextOfBetween | index.js:34-64 | from a valid path lying between the entries m-1 and m of Preorder, nextNode gives entry m |
| Traversal.ChildNodes | index.js:240-266 | with a path: null when it addresses no node, else the accumulator followed by the nodes below it in pre-order; without a path: the nodes below each root in turn |
| Traversal.SubtreeWalk | index.js:101-115 | from the k-th node of a subtree nextNode stays inside it exactly when k is not the last position, and then reaches the (k+1)-th node |
| Traversal.SubtreeEntry | index.js:255-264 | the k-th node childNodes lists below base is the node at base's (k+1)-th subtree path |
| Traversal.RootSubtreeEntry | index.js:242-248 | the j-th node below root i is the node at [i] followed by that descendant's relative path |
| Traversal.CollectBelow | index.js:255-265 | the walk from an existing node appends to the list, in pre-order, exactly the nodes below it, stopping at the first path outside its subtree |
| Traversal.ChildNodesAreBelow | index.js:255-264 | the nodes childNodes lists are those addressed by the paths below the given one, in pre-order, with the node itself left out |
| Traversal.AllChildNodes | index.js:242-248 | without a path, the nodes listed are those of the paths of length two or more, in pre-order; no root appears |
| Search.FirstFrom | index.js:134-136 | the first position from j on whose node carries the attribute; none between j and it does |
| Search.LastUpTo | index.js:123-125 | the last position up to j whose node carries the attribute; none between it and j does |
| Search.NotBeforeFrom | index.js:129-138 | no entry of Preorder at or after the first position not before q comes before q |
| Search.NotAfterUpTo | index.js:118-127 | no entry of Preorder up to the last position not after q comes after q |
| Search.StartMatches | index.js:129-138 | a start node that carries the attribute is where both searches stop at once |
| Search.FirstWith | index.js:129-138 | the result carries the attribute and does not come before the start; a start that carries the attribute is itself the result |
| Search.LastWith | index.js:118-127 | the result carries the attribute and does not come after the start; a start that carries the attribute is itself the result |
| Search.Scan | index.js:134-136 | what nextWith's loop yields from a path: a node carrying the attribute, or null |
| Search.ScanBack | index.js:123-125 | what prevWith's loop yields from a path: a node carrying the attribute, or null |
| Search.NearestOf | index.js:140-165 | nearestWith's result, when present, is a node carrying the attribute |
| Search.NodeIndex | index.js:34-99 | a node sits at one position of Preorder, and that is where the position functions place it |
| Search.ScanNode | index.js:134-136 | starting the forward loop on a node gives the first match at or after it |
| Search.ScanBackNode | index.js:123-125 | starting the backward loop on a node gives the last match at or before it |
| Search.RankStep | index.js:134-136 | each nextNode step of the loop strictly lowers the count of nodes left to visit |
| Search.RankBackStep | index.js:123-125 | each prevNode step of the loop strictly lowers the count of nodes left to visit |
| Search.NextWithFrom | index.js:129-138 | from a valid path, nextWith's result is the first node carrying the attribute at or after the first node that comes after the path |
| Search.NextWith | index.js:129-138 | returns the first node carrying the attribute, at or after nextNode(path) |
| Search.PrevWithFrom | index.js:118-127 | from a node, prevWith's result is the last node carrying the attribute at or before the node just before it |
| Search.PrevWith | index.js:118-127 | returns the last node carrying the attribute, at or before prevNode(path) |
| Search.NearestWith | index.js:140-165 | returns NearestOf: null for an empty tree; else a forward search from the given path ([0] when none), then a backward search from it |
| Search.NextWithFindsFirstAfter | index.js:129-138 | from a valid path, the result carries the attribute, comes after the path, and no node between them carries it; null exactly when no node after the path carries it |
| Search.PrevWithFindsLastBefore | index.js:118-127 | from a node, the result carries the attribute, comes before it, and no node between them carries it; null exactly when no node before it carries it |
| Search.WithFromNothing | index.js:118-138 | with no path, nextWith finds the first node of the tree carrying the attribute and prevWith the last |
| Search.NearestKeepsMatch | index.js:151-155 | a path whose node already carries the attribute is returned unchanged |
| Search.NearestFromNode | index.js:140-165 | from a node: the first match at or after it, else the last match before it; null exactly when no node carries the attribute |
| Fixture.SamplePreorder | test/index.js:82-109 | the sample tree's pre-order is [0], [0,0], [0,1], [1], [1,0], [1,0,0], [2], [2,0], [2,1] |
| Fixture.SampleOrderEntries | test/index.js:82-109 | the nine entries of that order, one by one |
| Fixture.SampleIds | test/index.js:137-149 | in the sample tree only the nodes below the roots carry id |
| Fixture.SampleHasMissing | test/index.js:137-146 | has('id') is false without a path and at [0,2] and [1,1,0], which resolve without raising |
| Fixture.SampleNextStart | test/index.js:81-95 | nextNode over the empty tree is null; nextNode with no path and from [-20] gives [0] |
| Fixture.SampleNextInside | test/index.js:85-89 | nextNode from [0], [0,0], [0,1], [1] and [1,0] gives [0,0], [0,1], [1], [1,0] and [1,0,0] |
| Fixture.SampleNextEnd | test/index.js:90-93 | nextNode from [1,0,0], [2] and [2,0] gives [2], [2,0] and [2,1]; from [2,1] it gives null |
| Fixture.SamplePrevWalk | test/index.js:99-107 | prevNode from [2,1], [2,0], [2], [1,0,0], [1,0], [1], [0,1] and [0,0] gives the node before in pre-order, and from [0] null |
| Fixture.SamplePrevWalkEnds | test/index.js:98-109 | prevNode with no path and from [3,2,3] gives [2,1] |
| Fixture.SampleLastNode | test/index.js:75-78 | lastNode([1]) is [1,0,0], lastNode([0]) is [0,1], lastNode([2]) is [2,1], and [2,1] is the last node of the tree |
| Fixture.SampleLastNodeOfC | test/index.js:77 | lastNode([1,0]) is [1,0,0] |
| Fixture.SampleFirstWith | test/index.js:155-163 | the forward search for id from each node: a root moves on to its first child, any other node is kept |
| Fixture.SampleLastWith | test/index.js:166-173 | the backward search for id from each node: [0] finds nothing, the other roots move back one node, any other node is kept |
| Fixture.SampleNextWithAt | test/index.js:157-163 | nextWith('id') from the m-th node of the pre-order, for every m |
| Fixture.SamplePrevWithAt | test/index.js:168-173 | prevWith('id') from the m-th node of the pre-order, for every m |
| Fixture.SampleNextWithStart | test/index.js:155-158 | nextWith('id') with no path and from [0] gives [0,0]; from [0,0] it gives [0,1] |
| Fixture.SampleNextWith | test/index.js:159-161 | nextWith('id') from [0,1], [1,0] and [1,0,0] gives [1,0], [1,0,0] and [2,0] |
| Fixture.SampleNextWithEnd | test/index.js:162-163 | nextWith('id') from [2,0] gives [2,1] and from [2,1] null |
| Fixture.SamplePrevWithStart | test/index.js:166-168 | prevWith('id') with no path gives [2,1]; from [2,1] it gives [2,0] |
| Fixture.SamplePrevWith | test/index.js:169-171 | prevWith('id') from [2,0], [1,0,0] and [1,0] gives [1,0,0], [1,0] and [0,1] |
| Fixture.SamplePrevWithEnd | test/index.js:172-173 | prevWith('id') from [0,1] gives [0,0] and from [0,0] null |
| Fixture.SampleNearestFromStart | test/index.js:177-178 | nearestWith('id') with no path and from [0] gives [0,0] |
| Fixture.SampleScanFromStart | test/index.js:177-178 | the forward search loop from [0] stops at [0,0] |
| Fixture.SampleNearestForward | test/index.js:179 | nearestWith('id', [1,0,1]) is [2,0] |
| Fixture.NoSecondChildOfC | test/index.js:179 | [1,0,1] addresses no node |
| Fixture.GapOrder | test/index.js:179 | [1,0,1] is valid and lies between [1,0,0] and [2] |
| Fixture.StepFromGap | test/index.js:179 | nextNode([1,0,1]) is [2] |
| Fixture.SampleNearestPastSecond | test/index.js:180 | nearestWith('id', [1,1,1]) is [2,0] |
| Fixture.SampleNearestBackward | test/index.js:181 | nearestWith('id', [3,1,1]) is [2,1] |
| Fixture.PastLastRoot | test/index.js:181 | from [3,1,1] nextNode gives null and prevNode gives [2,1] |
| Fixture.SampleNearestNegativeRoot | test/index.js:182 | nearestWith('id', [-10,1,1]) is [0,0] |
| Fixture.SampleNearestRestart | test/index.js:183 | nearestWith('id', [10,-20,1]) is [0,0] |
| Fixture.SampleChildNodes | test/index.js:198-212 | childNodes([0]) is a, b; childNodes([1]) is c, d; childNodes([1,0]) is d; childNodes([2]) is e, f |
| Fixture.SampleAllChildNodes | test/index.js:190-197 | childNodes() is a, b, c, d, e, f, with no root |
| Fixture.SampleReadRoots | test/index.js:59-66 | readPath of [0], [1] and [2] finds the roots |
| Fixture.SampleRead | test/index.js:61-64 | readPath finds b at [0,1] and d at [1,0,0] |
| Fixture.SampleReadBelow | test/index.js:60-67 | readPath finds a at [0,0], c at [1,0], e at [2,0] and f at [2,1] |
| Fixture.SampleReadMissing | test/index.js:68-70 | readPath gives null for [1,0,1], [6,0,1,2] and null |
| Fixture.SampleReadBelowLeaf | index.js:234 | readPath of [0,0,0] raises: the leaf [0,0] has no children field |
| Fixture.FalsyChildrenField | index.js:233-235 | a children field holding 0 yields null when indexed, a missing children field raises |
| Fixture.CustomField | test/index.js:216-226 | with optionField _opts, readPath([0,1]) finds z, the second child |

## Left out

- The factory `OptionTree` (index.js:3-31), with its `.bind` wiring, the `read` and `children` aliases and the `_tree` field, is not modelled. Each operation takes the tree and the children field name as explicit parameters. `MakeConfig` models the defaulting at index.js:5 but not its mutation of the caller's options object.
- A tree that is not an array (`!obj` in readPath, nextNode and prevNode) is not modelled: a tree is always a sequence.
- JavaScript values are reduced to absent, falsy scalar, truthy scalar and array of nodes. A children field holding a scalar counts as having no children, as a number does in the source. A non-empty string there, which the source would index character by character, is not modelled. Array entries that are not objects are not modelled.
- `Trees.Has`: returns the truthiness of `node[prop]` as a boolean, not the attribute's value itself.
- A thrown `TypeError` (descending through a node that has no children field, index.js:234) is not an outcome of the methods. Each method requires the raise not to happen (`Faults`, `PrevSafe`). The pure `Read` function models the raise as the `TypeError` outcome.
- The check after nextNode's loop (index.js:59-61) is left out: the loop only ends once `parent` is null, and readPath of null is null, so that code cannot return.
- `Paths.PrevParentPath` is modelled, but no operation calls it, as in the source.
- Paths and node lists are values. `path.slice(0)` copies, the in-place `++`/`--` on those copies, and the array that childNodes pushes into and shares between recursive calls are all modelled as fresh sequences. The input path is therefore unchanged by construction, and aliasing is not modelled.
- `Traversal.PrevOf`: from a path that addresses no node, prevNode need not return the pre-order predecessor (`Traversal.PrevFromGap`). When the previous sibling slot is empty it climbs to the parent and skips the parent's other descendants. The model keeps this behaviour. The predecessor lemmas (`PrevOfNode`, `PrevWithFindsLastBefore`) are stated for nodes only.
- The repository's read-path test gives the roots an id ('1', '2', '3'); the sample tree gives them a title instead, as the later tests do, so `Fixture.SampleReadRoots` states that the roots are found rather than their ids.
- `Search.NearestFromNode`: characterises nearestWith only from a node; with no path the search starts at the node [0], so that case is covered too. From a path that is not a node, the backward half inherits the skipping above; for it, `NearestOf` is the definition, without a lemma characterising it.
