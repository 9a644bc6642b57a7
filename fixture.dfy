/**
 * The three-root tree of the repository's own tests, with nodes a .. f
 * below the roots, and the walks it fixes.
 */
module Fixture {
  import opened Optional
  import opened Paths
  import opened Trees
  import opened Order
  import opened Traversal
  import opened Search

  const F: string := "options"

  /** A node with only an id. */
  function Leaf(id: string): Node
  {
    Node(map["id" := Truthy(id)])
  }

  /** Node c, which holds the single leaf d. */
  function NodeC(): Node
  {
    Node(map["id" := Truthy("c"), F := List([Leaf("d")])])
  }

  /** Three roots with a title but no id: 1 [a, b], 2 [c [d]] and 3 [e, f]. */
  function Sample(): seq<Node>
  {
    [ Node(map["title" := Truthy("1"), F := List([Leaf("a"), Leaf("b")])]),
      Node(map["title" := Truthy("2"), F := List([NodeC()])]),
      Node(map["title" := Truthy("3"), F := List([Leaf("e"), Leaf("f")])]) ]
  }

  lemma LeafBelow(id: string)
    ensures Descendants(Leaf(id), F) == [] && Subnodes(Leaf(id), F) == []
  {
  }

  lemma PairBelow(n: Node, x: string, y: string)
    requires Kids(n, F) == [Leaf(x), Leaf(y)]
    ensures Descendants(n, F) == [[0], [1]]
  {
    LeafBelow(x);
    LeafBelow(y);
    assert DescendantsFrom(n, F, 2) == [];
    assert DescendantsFrom(n, F, 1) == [[1]];
  }

  lemma CBelow()
    ensures Descendants(NodeC(), F) == [[0]]
  {
    LeafBelow("d");
    assert DescendantsFrom(NodeC(), F, 1) == [];
  }

  lemma SecondRootBelow()
    ensures Descendants(Sample()[1], F) == [[0], [0, 0]]
  {
    var n1 := Sample()[1];
    CBelow();
    assert Kids(n1, F) == [NodeC()];
    assert DescendantsFrom(n1, F, 1) == [];
    assert [0] + [0] == [0, 0];
    assert Prefixed([0], [[0]]) == [[0, 0]];
  }

  /** The sample tree's nodes in depth-first pre-order. */
  function SampleOrder(): seq<Path>
  {
    [[0], [0, 0], [0, 1], [1], [1, 0], [1, 0, 0], [2], [2, 0], [2, 1]]
  }

  lemma SamplePreorder()
    ensures Preorder(Sample(), F) == SampleOrder()
  {
    var t := Sample();
    PairBelow(t[0], "a", "b");
    PairBelow(t[2], "e", "f");
    SecondRootBelow();
    ThreeRootOrder(t);
    PrefixedPair(0);
    PrefixedChain(1);
    PrefixedPair(2);
  }

  lemma PrefixedPair(i: int)
    ensures Prefixed([i], [[0], [1]]) == [[i, 0], [i, 1]]
  {
    assert [i] + [0] == [i, 0] && [i] + [1] == [i, 1];
  }

  lemma PrefixedChain(i: int)
    ensures Prefixed([i], [[0], [0, 0]]) == [[i, 0], [i, 0, 0]]
  {
    assert [i] + [0] == [i, 0] && [i] + [0, 0] == [i, 0, 0];
  }

  /** The pre-order list of a tree with three roots, root by root. */
  lemma ThreeRootOrder(t: seq<Node>)
    requires |t| == 3
    ensures Preorder(t, F) ==
              [[0]] + Prefixed([0], Descendants(t[0], F)) +
              [[1]] + Prefixed([1], Descendants(t[1], F)) +
              [[2]] + Prefixed([2], Descendants(t[2], F))
  {
    var r := Root(t, F);
    var p0, p1, p2 := Prefixed([0], Descendants(t[0], F)), Prefixed([1], Descendants(t[1], F)), Prefixed([2], Descendants(t[2], F));
    assert DescendantsFrom(r, F, 3) == [];
    assert DescendantsFrom(r, F, 2) == [[2]] + p2;
    assert DescendantsFrom(r, F, 1) == [[1]] + p1 + ([[2]] + p2);
    assert DescendantsFrom(r, F, 0) == [[0]] + p0 + ([[1]] + p1 + ([[2]] + p2));
  }

  /** Only the nodes below the roots carry an id. */
  lemma SampleIds(m: int)
    requires 0 <= m < 9
    ensures HasProp(Sample(), F, "id", SampleOrder()[m]) <==> m != 0 && m != 3 && m != 6
  {
    var t := Sample();
    var r := Root(t, F);
    assert Kids(r, F) == t;
    assert Kids(t[0], F) == [Leaf("a"), Leaf("b")];
    assert Kids(t[1], F) == [NodeC()];
    assert Kids(t[2], F) == [Leaf("e"), Leaf("f")];
    assert Kids(NodeC(), F) == [Leaf("d")];
  }

  /** The entries of SampleOrder, one by one. */
  lemma SampleOrderEntries()
    ensures SampleOrder()[0] == [0] && SampleOrder()[1] == [0, 0] && SampleOrder()[2] == [0, 1]
    ensures SampleOrder()[3] == [1] && SampleOrder()[4] == [1, 0] && SampleOrder()[5] == [1, 0, 0]
    ensures SampleOrder()[6] == [2] && SampleOrder()[7] == [2, 0] && SampleOrder()[8] == [2, 1]
  {
  }

  /** The search for id from each node of the sample tree: a root moves on
      to its first child, any other node is kept. */
  lemma SampleFirstWith(t: seq<Node>, m: int)
    requires t == Sample() && 0 <= m < 9
    ensures FirstWith(t, F, "id", Some(SampleOrder()[m])) ==
              Some(SampleOrder()[if m == 0 || m == 3 || m == 6 then m + 1 else m])
  {
    var ps := Preorder(t, F);
    SamplePreorder();
    PreorderSorted(t, F);
    SortedPositions(ps, m);
    SampleIds(m);
    if m == 0 || m == 3 || m == 6 {
      SampleIds(m + 1);
      assert FirstFrom(t, F, "id", m) == m + 1;
    }
  }

  /** The backward search for id from each node of the sample tree: the
      first root finds nothing, the other roots move back to the node before,
      any other node is kept. */
  lemma SampleLastWith(t: seq<Node>, m: int)
    requires t == Sample() && 0 <= m < 9
    ensures LastWith(t, F, "id", Some(SampleOrder()[m])) ==
              if m == 0 then None else Some(SampleOrder()[if m == 3 || m == 6 then m - 1 else m])
  {
    var ps := Preorder(t, F);
    SamplePreorder();
    PreorderSorted(t, F);
    SortedPositions(ps, m);
    SampleIds(m);
    if m == 0 {
      assert LastUpTo(t, F, "id", 0) == -1;
    } else if m == 3 || m == 6 {
      SampleIds(m - 1);
      assert LastUpTo(t, F, "id", m) == m - 1;
    }
  }

  /** nextWith("id", p) from each node of the sample tree: the next node
      that carries an id, skipping the roots. */
  lemma SampleNextWithAt(t: seq<Node>, m: int)
    requires t == Sample() && 0 <= m < 9
    ensures FirstWith(t, F, "id", NextOf(t, F, Some(SampleOrder()[m]))) ==
              if m == 8 then None
              else Some(SampleOrder()[if m == 2 || m == 5 then m + 2 else m + 1])
  {
    SamplePreorder();
    WalkPreorder(t, F, m);
    if m < 8 {
      SampleFirstWith(t, m + 1);
    }
  }

  /** prevWith("id", p) from each node of the sample tree: the previous node
      that carries an id, skipping the roots. */
  lemma SamplePrevWithAt(t: seq<Node>, m: int)
    requires t == Sample() && 0 <= m < 9
    ensures LastWith(t, F, "id", PrevOf(t, F, Some(SampleOrder()[m]))) ==
              if m <= 1 then None
              else Some(SampleOrder()[if m == 4 || m == 7 then m - 2 else m - 1])
  {
    SamplePreorder();
    WalkPreorder(t, F, m);
    if m > 0 {
      SampleLastWith(t, m - 1);
    }
  }

  /** nextWith over the sample tree, as the repository's tests walk it:
      from no path and from the first root, then through the first root's
      children. */
  lemma SampleNextWithStart()
    ensures FirstWith(Sample(), F, "id", NextOf(Sample(), F, None)) == Some([0, 0])
    ensures FirstWith(Sample(), F, "id", NextOf(Sample(), F, Some([0]))) == Some([0, 0])
    ensures FirstWith(Sample(), F, "id", NextOf(Sample(), F, Some([0, 0]))) == Some([0, 1])
  {
    SampleOrderEntries();
    var t := Sample();
    SamplePreorder();
    WalkEnds(t, F);
    SampleFirstWith(t, 0);
    SampleNextWithAt(t, 0);
    SampleNextWithAt(t, 1);
  }

  /** nextWith skips the second and third roots, which carry no id. */
  lemma SampleNextWith()
    ensures FirstWith(Sample(), F, "id", NextOf(Sample(), F, Some([0, 1]))) == Some([1, 0])
    ensures FirstWith(Sample(), F, "id", NextOf(Sample(), F, Some([1, 0]))) == Some([1, 0, 0])
    ensures FirstWith(Sample(), F, "id", NextOf(Sample(), F, Some([1, 0, 0]))) == Some([2, 0])
  {
    SampleOrderEntries();
    var t := Sample();
    SampleNextWithAt(t, 2);
    SampleNextWithAt(t, 4);
    SampleNextWithAt(t, 5);
  }

  /** nextWith through the third root's children, and null after the last. */
  lemma SampleNextWithEnd()
    ensures FirstWith(Sample(), F, "id", NextOf(Sample(), F, Some([2, 0]))) == Some([2, 1])
    ensures FirstWith(Sample(), F, "id", NextOf(Sample(), F, Some([2, 1]))) == None
  {
    SampleOrderEntries();
    var t := Sample();
    SampleNextWithAt(t, 7);
    SampleNextWithAt(t, 8);
  }

  /** prevWith over the sample tree, as the repository's tests walk it: from
      no path and back through the third root's children. */
  lemma SamplePrevWithStart()
    ensures LastWith(Sample(), F, "id", PrevOf(Sample(), F, None)) == Some([2, 1])
    ensures LastWith(Sample(), F, "id", PrevOf(Sample(), F, Some([2, 1]))) == Some([2, 0])
  {
    SampleOrderEntries();
    var t := Sample();
    SamplePrevWalkEnds();
    SampleLastWith(t, 8);
    SamplePrevWithAt(t, 8);
  }

  /** prevWith skips the third and second roots, which carry no id. */
  lemma SamplePrevWith()
    ensures LastWith(Sample(), F, "id", PrevOf(Sample(), F, Some([2, 0]))) == Some([1, 0, 0])
    ensures LastWith(Sample(), F, "id", PrevOf(Sample(), F, Some([1, 0, 0]))) == Some([1, 0])
    ensures LastWith(Sample(), F, "id", PrevOf(Sample(), F, Some([1, 0]))) == Some([0, 1])
  {
    SampleOrderEntries();
    var t := Sample();
    SamplePrevWithAt(t, 7);
    SamplePrevWithAt(t, 5);
    SamplePrevWithAt(t, 4);
  }

  /** prevWith through the first root's children, and null before the first. */
  lemma SamplePrevWithEnd()
    ensures LastWith(Sample(), F, "id", PrevOf(Sample(), F, Some([0, 1]))) == Some([0, 0])
    ensures LastWith(Sample(), F, "id", PrevOf(Sample(), F, Some([0, 0]))) == None
  {
    SampleOrderEntries();
    var t := Sample();
    SamplePrevWithAt(t, 2);
    SamplePrevWithAt(t, 1);
  }

  /** [1, 0, 1] addresses no node: c has a single child. */
  lemma NoSecondChildOfC()
    ensures !IsNode(Sample(), F, [1, 0, 1])
  {
    var t := Sample();
    var r := Root(t, F);
    assert Kids(r, F) == t;
    assert Kids(t[1], F) == [NodeC()];
    assert Kids(NodeC(), F) == [Leaf("d")];
    assert [1, 0, 1][1..] == [0, 1] && [0, 1][1..] == [1];
  }

  /** [1, 0, 1] lies between [1, 0, 0] and [2] in pre-order. */
  lemma GapOrder()
    ensures AllValid([1, 0, 1])
    ensures Before([1, 0, 0], [1, 0, 1]) && Before([1, 0, 1], [2])
  {
    assert [1, 0, 0][1..] == [0, 0] && [1, 0, 1][1..] == [0, 1];
    assert [0, 0][1..] == [0] && [0, 1][1..] == [1];
  }

  /** nextNode([1, 0, 1]) is the third root, which carries no id. */
  lemma StepFromGap()
    ensures NextOf(Sample(), F, Some([1, 0, 1])) == Some([2])
  {
    SampleOrderEntries();
    var t := Sample();
    SamplePreorder();
    GapOrder();
    NextOfBetween(t, F, [1, 0, 1], 6);
  }

  /** nearestWith from a path that is not a node searches forward first:
      [1, 0, 1] finds [2, 0]. */
  lemma SampleNearestForward()
    ensures NearestOf(Sample(), F, "id", Some([1, 0, 1])) == Some([2, 0])
  {
    var t := Sample();
    var ps := Preorder(t, F);
    SamplePreorder();
    PreorderSorted(t, F);
    NoSecondChildOfC();
    StepFromGap();
    SortedPositions(ps, 6);
    SampleIds(6);
    SampleIds(7);
    assert FirstFrom(t, F, "id", 6) == 7;
    assert Scan(t, F, "id", Some([1, 0, 1])) == Some([2, 0]);
  }

  /** From [3, 1, 1], past the last root, nextNode finds nothing and
      prevNode the last node [2, 1]. */
  lemma PastLastRoot()
    ensures NextOf(Sample(), F, Some([3, 1, 1])) == None
    ensures PrevOf(Sample(), F, Some([3, 1, 1])) == Some([2, 1])
  {
    var t := Sample();
    var q := [3, 1, 1];
    assert AllValid(q);
    NextPastEnd(t, F, q);
    PrevPastEnd(t, F, q);
    SampleLastNode();
  }

  /** Past the last root nothing follows, so nearestWith searches backward:
      [3, 1, 1] finds [2, 1]. */
  lemma SampleNearestBackward()
    ensures NearestOf(Sample(), F, "id", Some([3, 1, 1])) == Some([2, 1])
  {
    var t := Sample();
    var ps := Preorder(t, F);
    var q := [3, 1, 1];
    PastLastRoot();
    assert Scan(t, F, "id", Some(q)) == None;
    assert |ps| == 9 && ps[8] == [2, 1] by {
      SamplePreorder();
    }
    PreorderSorted(t, F);
    SortedPositions(ps, 8);
    assert HasProp(t, F, "id", [2, 1]) by {
      SampleIds(8);
    }
    assert LastUpTo(t, F, "id", 8) == 8;
    assert ScanBack(t, F, "id", Some(q)) == Some([2, 1]);
  }

  /** nearestWith without a path, or from the first root, which carries no
      id, finds the first root's first child [0, 0]. */
  lemma SampleNearestFromStart()
    ensures NearestOf(Sample(), F, "id", None) == Some([0, 0])
    ensures NearestOf(Sample(), F, "id", Some([0])) == Some([0, 0])
  {
    SampleOrderEntries();
    SampleScanFromStart(Sample());
  }

  lemma SampleScanFromStart(t: seq<Node>)
    requires t == Sample()
    ensures Scan(t, F, "id", Some(SampleOrder()[0])) == Some(SampleOrder()[1])
  {
    SamplePreorder();
    SampleIds(0);
    SampleIds(1);
    WalkPreorder(t, F, 0);
  }

  /** [1, 1, 1] addresses no node and lies between [1, 0, 0] and [2]: the
      forward search passes the third root and finds [2, 0]. */
  lemma SampleNearestPastSecond()
    ensures NearestOf(Sample(), F, "id", Some([1, 1, 1])) == Some([2, 0])
  {
    SampleOrderEntries();
    var t := Sample();
    var q := [1, 1, 1];
    assert !IsNode(t, F, q) by {
      assert Kids(t[1], F) == [NodeC()];
      assert q[1..] == [1, 1];
    }
    assert AllValid(q) && Before([1, 0, 0], q) && Before(q, [2]) by {
      assert [1, 0, 0][1..] == [0, 0] && q[1..] == [1, 1];
    }
    SamplePreorder();
    NextOfBetween(t, F, q, 6);
    SampleFirstWith(t, 6);
  }

  /** A path with a negative component restarts from the first root:
      [10, -20, 1] finds [0, 0]. */
  lemma SampleNearestRestart()
    ensures NearestOf(Sample(), F, "id", Some([10, -20, 1])) == Some([0, 0])
  {
    var t := Sample();
    var ps := Preorder(t, F);
    SamplePreorder();
    PreorderSorted(t, F);
    SampleIds(0);
    SampleIds(1);
    OutsideRoots(t, F, [10, -20, 1]);
    assert !AllValid([10, -20, 1]) by {
      assert !IsValid([10, -20, 1][1]);
    }
    SortedPositions(ps, 0);
    assert FirstFrom(t, F, "id", 0) == 1;
  }

  /** So does a negative first component: [-10, 1, 1] finds [0, 0]. */
  lemma SampleNearestNegativeRoot()
    ensures NearestOf(Sample(), F, "id", Some([-10, 1, 1])) == Some([0, 0])
  {
    var t := Sample();
    var ps := Preorder(t, F);
    SamplePreorder();
    PreorderSorted(t, F);
    SampleIds(0);
    SampleIds(1);
    OutsideRoots(t, F, [-10, 1, 1]);
    assert !AllValid([-10, 1, 1]) by {
      assert !IsValid([-10, 1, 1][0]);
    }
    SortedPositions(ps, 0);
    assert FirstFrom(t, F, "id", 0) == 1;
  }

  /** nextNode starts at the first root, both without a path and from a
      path with a negative component; over an empty tree it gives null. */
  lemma SampleNextStart()
    ensures NextOf([], F, None) == None
    ensures NextOf(Sample(), F, None) == Some([0])
    ensures NextOf(Sample(), F, Some([-20])) == Some([0])
  {
    assert !IsValid([-20][0]);
  }

  /** nextNode over the first two roots: down into first children, on to
      next siblings, and from a last child on to the next root. */
  lemma SampleNextInside()
    ensures NextOf(Sample(), F, Some([0])) == Some([0, 0])
    ensures NextOf(Sample(), F, Some([0, 0])) == Some([0, 1])
    ensures NextOf(Sample(), F, Some([0, 1])) == Some([1])
    ensures NextOf(Sample(), F, Some([1])) == Some([1, 0])
    ensures NextOf(Sample(), F, Some([1, 0])) == Some([1, 0, 0])
  {
    var t := Sample();
    SamplePreorder();
    WalkPreorder(t, F, 0);
    WalkPreorder(t, F, 1);
    WalkPreorder(t, F, 2);
    WalkPreorder(t, F, 3);
    WalkPreorder(t, F, 4);
  }

  /** nextNode climbs out of a deep leaf, walks the third root and stops
      after the last node. */
  lemma SampleNextEnd()
    ensures NextOf(Sample(), F, Some([1, 0, 0])) == Some([2])
    ensures NextOf(Sample(), F, Some([2])) == Some([2, 0])
    ensures NextOf(Sample(), F, Some([2, 0])) == Some([2, 1])
    ensures NextOf(Sample(), F, Some([2, 1])) == None
  {
    var t := Sample();
    SamplePreorder();
    WalkPreorder(t, F, 5);
    WalkPreorder(t, F, 6);
    WalkPreorder(t, F, 7);
    WalkPreorder(t, F, 8);
  }

  /** prevNode from each node of the sample tree, as the repository's tests
      walk it back from the last node to the first root. */
  lemma SamplePrevWalk()
    ensures PrevOf(Sample(), F, Some([2, 1])) == Some([2, 0])
    ensures PrevOf(Sample(), F, Some([2, 0])) == Some([2])
    ensures PrevOf(Sample(), F, Some([2])) == Some([1, 0, 0])
    ensures PrevOf(Sample(), F, Some([1, 0, 0])) == Some([1, 0])
    ensures PrevOf(Sample(), F, Some([1, 0])) == Some([1])
    ensures PrevOf(Sample(), F, Some([1])) == Some([0, 1])
    ensures PrevOf(Sample(), F, Some([0, 1])) == Some([0, 0])
    ensures PrevOf(Sample(), F, Some([0, 0])) == Some([0])
    ensures PrevOf(Sample(), F, Some([0])) == None
  {
    var t := Sample();
    SamplePreorder();
    WalkPreorder(t, F, 8);
    WalkPreorder(t, F, 7);
    WalkPreorder(t, F, 6);
    WalkPreorder(t, F, 5);
    WalkPreorder(t, F, 4);
    WalkPreorder(t, F, 3);
    WalkPreorder(t, F, 2);
    WalkPreorder(t, F, 1);
    WalkPreorder(t, F, 0);
  }

  /** prevNode without a path, and from [3, 2, 3] past the last root, gives
      the last node [2, 1]. */
  lemma SamplePrevWalkEnds()
    ensures PrevOf(Sample(), F, None) == Some([2, 1])
    ensures PrevOf(Sample(), F, Some([3, 2, 3])) == Some([2, 1])
  {
    var t := Sample();
    SamplePreorder();
    WalkEnds(t, F);
    PrevPastEnd(t, F, [3, 2, 3]);
    SampleLastNode();
  }

  /** The children of the sample tree's nodes. */
  lemma SampleKids()
    ensures Kids(Root(Sample(), F), F) == Sample()
    ensures Kids(Sample()[0], F) == [Leaf("a"), Leaf("b")]
    ensures Kids(Sample()[1], F) == [NodeC()]
    ensures Kids(Sample()[2], F) == [Leaf("e"), Leaf("f")]
    ensures Kids(NodeC(), F) == [Leaf("d")]
  {
  }

  lemma PairSubnodes(n: Node, x: string, y: string)
    requires Kids(n, F) == [Leaf(x), Leaf(y)]
    ensures Subnodes(n, F) == [Leaf(x), Leaf(y)]
  {
    LeafBelow(x);
    LeafBelow(y);
    assert SubnodesFrom(n, F, 2) == [];
    assert SubnodesFrom(n, F, 1) == [Leaf(y)];
  }

  lemma CSubnodes()
    ensures Subnodes(NodeC(), F) == [Leaf("d")]
  {
    LeafBelow("d");
    SampleKids();
    assert SubnodesFrom(NodeC(), F, 1) == [];
  }

  lemma SecondRootSubnodes()
    ensures Subnodes(Sample()[1], F) == [NodeC(), Leaf("d")]
  {
    CSubnodes();
    SampleKids();
    assert SubnodesFrom(Sample()[1], F, 1) == [];
  }

  /** childNodes without a path over the sample tree: the nodes below the
      roots, roots left out. */
  lemma SampleAllChildNodes()
    ensures RootSubnodes(Sample(), F, 3) == [Leaf("a"), Leaf("b"), NodeC(), Leaf("d"), Leaf("e"), Leaf("f")]
  {
    var t := Sample();
    SampleKids();
    PairSubnodes(t[0], "a", "b");
    PairSubnodes(t[2], "e", "f");
    SecondRootSubnodes();
    ThreeRoots(t);
    assert [Leaf("a"), Leaf("b")] + [NodeC(), Leaf("d")] + [Leaf("e"), Leaf("f")]
        == [Leaf("a"), Leaf("b"), NodeC(), Leaf("d"), Leaf("e"), Leaf("f")];
  }

  lemma ThreeRoots(t: seq<Node>)
    requires |t| == 3
    ensures RootSubnodes(t, F, 3) == Subnodes(t[0], F) + Subnodes(t[1], F) + Subnodes(t[2], F)
  {
    assert RootSubnodes(t, F, 1) == Subnodes(t[0], F);
  }

  /** childNodes over the sample tree: below each root and below c lie the
      nodes the repository's tests list. */
  lemma SampleChildNodes()
    ensures IsNode(Sample(), F, [0]) && Subnodes(NodeAt(Sample(), F, [0]), F) == [Leaf("a"), Leaf("b")]
    ensures IsNode(Sample(), F, [1]) && Subnodes(NodeAt(Sample(), F, [1]), F) == [NodeC(), Leaf("d")]
    ensures IsNode(Sample(), F, [1, 0]) && Subnodes(NodeAt(Sample(), F, [1, 0]), F) == [Leaf("d")]
    ensures IsNode(Sample(), F, [2]) && Subnodes(NodeAt(Sample(), F, [2]), F) == [Leaf("e"), Leaf("f")]
  {
    var t := Sample();
    SampleKids();
    assert NodeAt(t, F, [1, 0]) == NodeC() by {
      assert [1, 0][1..] == [0];
    }
    PairSubnodes(t[0], "a", "b");
    PairSubnodes(t[2], "e", "f");
    CSubnodes();
    SecondRootSubnodes();
  }

  /** readPath over the sample tree finds the nodes the repository's tests
      expect. */
  lemma SampleRead()
    ensures Read(Sample(), F, Some([0, 1])) == Found(Leaf("b"))
    ensures Read(Sample(), F, Some([1, 0, 0])) == Found(Leaf("d"))
  {
    assert [0, 1][1..] == [1];
    assert [1, 0, 0][1..] == [0, 0] && [0, 0][1..] == [0];
  }

  /** readPath finds the other nodes below the roots: a, c, e and f. */
  lemma SampleReadBelow()
    ensures Read(Sample(), F, Some([0, 0])) == Found(Leaf("a"))
    ensures Read(Sample(), F, Some([1, 0])) == Found(NodeC())
    ensures Read(Sample(), F, Some([2, 0])) == Found(Leaf("e"))
    ensures Read(Sample(), F, Some([2, 1])) == Found(Leaf("f"))
  {
    assert [0, 0][1..] == [0] && [1, 0][1..] == [0];
    assert [2, 0][1..] == [0] && [2, 1][1..] == [1];
  }

  /** readPath of a root path finds that root. */
  lemma SampleReadRoots()
    ensures Read(Sample(), F, Some([0])) == Found(Sample()[0])
    ensures Read(Sample(), F, Some([1])) == Found(Sample()[1])
    ensures Read(Sample(), F, Some([2])) == Found(Sample()[2])
  {
    assert [0][1..] == [] && [1][1..] == [] && [2][1..] == [];
  }

  /** readPath over the sample tree: paths that run off the tree give null,
      and descending below a leaf raises. */
  lemma SampleReadMissing()
    ensures Read(Sample(), F, Some([1, 0, 1])) == Null
    ensures Read(Sample(), F, Some([6, 0, 1, 2])) == Null
    ensures Read(Sample(), F, None) == Null
  {
    assert [6, 0, 1, 2][1..] == [0, 1, 2] && [0, 1, 2][1..] == [1, 2] && [1, 2][1..] == [2];
    assert [1, 0, 1][1..] == [0, 1] && [0, 1][1..] == [1];
  }

  /** Descending below the leaf a, which has no children field, raises. */
  lemma SampleReadBelowLeaf()
    ensures Faults(Sample(), F, [0, 0, 0])
  {
    assert [0, 0, 0][1..] == [0, 0] && [0, 0][1..] == [0];
  }

  /** A children field holding a falsy scalar such as 0 is indexed like any
      scalar and yields null, while a missing children field raises. */
  lemma FalsyChildrenField()
    ensures Read([Node(map[F := Falsy])], F, Some([0, 0])) == Null
    ensures Faults([Leaf("x")], F, [0, 0])
  {
    var n := Node(map[F := Falsy]);
    assert [0, 0][1..] == [0] && [0][1..] == [];
    assert F in n.attrs && Child(n.attrs[F], 0) == None;
    assert Descend(Some(n), F, [0]) == Descend(None, F, []) == Null;
  }

  /** A custom children field: with optionField "_opts", [0, 1] reaches z. */
  lemma CustomField()
    ensures MakeConfig(Some("_opts")).optionField == "_opts"
    ensures var tree := [Node(map["id" := Truthy("x"), "_opts" := List([Leaf("y"), Leaf("z")])])];
            Read(tree, MakeConfig(Some("_opts")).optionField, Some([0, 1])) == Found(Leaf("z"))
  {
    assert [0, 1][1..] == [1];
  }

  /** lastNode over the sample tree: the last node below the second root is
      [1, 0, 0], below the first root [0, 1], below the third root and of
      the whole tree [2, 1]. */
  lemma SampleLastNode()
    ensures IsNode(Sample(), F, [1]) && LastDesc(Sample(), F, [1]) == [1, 0, 0]
    ensures IsNode(Sample(), F, [0]) && LastDesc(Sample(), F, [0]) == [0, 1]
    ensures IsNode(Sample(), F, [2]) && LastDesc(Sample(), F, [2]) == [2, 1]
    ensures LastPath(Sample(), F) == [2, 1]
  {
    var t := Sample();
    var r := Root(t, F);
    assert Kids(r, F) == t;
    assert NodeAt(t, F, [1]) == t[1];
    assert NodeAt(t, F, [0]) == t[0];
    SecondRootBelow();
    PairBelow(t[0], "a", "b");
    assert NodeAt(t, F, [2]) == t[2];
    PairBelow(t[2], "e", "f");
    assert [1] + [0, 0] == [1, 0, 0];
    assert [0] + [1] == [0, 1];
    assert [2] + [1] == [2, 1];
    assert LastPath(t, F) == LastDesc(t, F, [2]);
  }

  /** lastNode([1, 0]): c's only child d is the last node below c. */
  lemma SampleLastNodeOfC()
    ensures IsNode(Sample(), F, [1, 0]) && LastDesc(Sample(), F, [1, 0]) == [1, 0, 0]
  {
    var t := Sample();
    var r := Root(t, F);
    assert Kids(r, F) == t;
    assert Kids(t[1], F) == [NodeC()];
    assert [1, 0][1..] == [0];
    assert NodeAt(t, F, [1, 0]) == NodeC();
    CBelow();
    assert [1, 0] + [0] == [1, 0, 0];
  }

  /** has("id", p) where p addresses no node: a third child of the first
      root, a second child of the second root; and has without a path. */
  lemma SampleHasMissing()
    ensures !Faults(Sample(), F, [0, 2]) && !Has(Sample(), F, "id", Some([0, 2]))
    ensures !Faults(Sample(), F, [1, 1, 0]) && !Has(Sample(), F, "id", Some([1, 1, 0]))
    ensures !Has(Sample(), F, "id", None)
  {
    var t := Sample();
    assert Kids(t[0], F) == [Leaf("a"), Leaf("b")];
    assert Kids(t[1], F) == [NodeC()];
    assert [0, 2][1..] == [2] && [1, 1, 0][1..] == [1, 0] && [1, 0][1..] == [0];
  }
}
