/**
 * Neighbours in depth-first pre-order. Succ and Pred pick the node that
 * immediately follows or precedes a path among all node paths of the tree;
 * LastDesc is the last node of a subtree. These are the reference
 * definitions the traversal methods are proved against.
 */
module Order {
  import opened Optional
  import opened Paths
  import opened Trees

  // ---------------------------------------------------------------------
  // Positions in a sorted list of paths
  // ---------------------------------------------------------------------

  /** The index of the first entry of ps that comes after q. */
  function FirstAfter(ps: seq<Path>, q: Path): (i: nat)
    ensures i <= |ps|
    ensures forall j :: 0 <= j < i ==> !Before(q, ps[j])
    ensures i < |ps| ==> Before(q, ps[i])
    decreases |ps|
  {
    if ps == [] || Before(q, ps[0]) then 0 else 1 + FirstAfter(ps[1..], q)
  }

  /** The index of the last entry of ps that comes before q, or -1. */
  function LastBefore(ps: seq<Path>, q: Path): (i: int)
    ensures -1 <= i < |ps|
    ensures forall j :: i < j < |ps| ==> !Before(ps[j], q)
    ensures i >= 0 ==> Before(ps[i], q)
    decreases |ps|
  {
    if ps == [] then -1
    else if Before(ps[|ps| - 1], q) then |ps| - 1
    else LastBefore(ps[..|ps| - 1], q)
  }

  /** The index of the first entry of ps that does not come before q. */
  function AtOrAfter(ps: seq<Path>, q: Path): (i: nat)
    ensures i <= |ps|
    ensures forall j :: 0 <= j < i ==> Before(ps[j], q)
    ensures i < |ps| ==> !Before(ps[i], q)
    decreases |ps|
  {
    if ps == [] || !Before(ps[0], q) then 0 else 1 + AtOrAfter(ps[1..], q)
  }

  /** The index of the last entry of ps that does not come after q, or -1. */
  function AtOrBefore(ps: seq<Path>, q: Path): (i: int)
    ensures -1 <= i < |ps|
    ensures forall j :: i < j < |ps| ==> Before(q, ps[j])
    ensures i >= 0 ==> !Before(q, ps[i])
    decreases |ps|
  {
    if ps == [] then -1
    else if !Before(q, ps[|ps| - 1]) then |ps| - 1
    else AtOrBefore(ps[..|ps| - 1], q)
  }

  lemma SortedOrder(ps: seq<Path>, i: int, j: int)
    requires Sorted(ps) && 0 <= i < |ps| && 0 <= j < |ps|
    ensures Before(ps[i], ps[j]) <==> i < j
  {
    if j < i {
      BeforeAsymmetric(ps[j], ps[i]);
    } else if i == j {
      BeforeIrreflexive(ps[i]);
    }
  }

  /** In a sorted list, an entry's neighbours are the entries beside it. */
  lemma SortedPositions(ps: seq<Path>, m: int)
    requires Sorted(ps) && 0 <= m < |ps|
    ensures FirstAfter(ps, ps[m]) == m + 1
    ensures LastBefore(ps, ps[m]) == m - 1
    ensures AtOrAfter(ps, ps[m]) == m
    ensures AtOrBefore(ps, ps[m]) == m
  {
    var i := FirstAfter(ps, ps[m]);
    if i < |ps| {
      SortedOrder(ps, m, i);
    }
    if m + 1 < |ps| {
      SortedOrder(ps, m, m + 1);
    }
    var k := LastBefore(ps, ps[m]);
    if k >= 0 {
      SortedOrder(ps, k, m);
    }
    if m >= 1 {
      SortedOrder(ps, m - 1, m);
    }
    var l := AtOrAfter(ps, ps[m]);
    if l < |ps| {
      SortedOrder(ps, l, m);
    }
    var u := AtOrBefore(ps, ps[m]);
    if u >= 0 {
      SortedOrder(ps, m, u);
    }
    BeforeIrreflexive(ps[m]);
  }

  /** Where a path that is not in a sorted list falls: before entry i. */
  lemma FirstAfterIs(ps: seq<Path>, q: Path, i: int)
    requires Sorted(ps) && 0 <= i <= |ps|
    requires i == 0 || !Before(q, ps[i - 1])
    requires i == |ps| || Before(q, ps[i])
    ensures FirstAfter(ps, q) == i
  {
    var k := FirstAfter(ps, q);
    if k < i {
      SortedOrder(ps, k, i - 1);
      if k < i - 1 {
        BeforeTransitive(q, ps[k], ps[i - 1]);
      }
    }
  }

  // ---------------------------------------------------------------------
  // Successor and predecessor among the nodes of the tree
  // ---------------------------------------------------------------------

  /** The first node after p in pre-order, if any. */
  function Succ(tree: seq<Node>, f: string, p: Path): (r: Option<Path>)
    ensures r.Some? ==> IsNode(tree, f, r.value) && Before(p, r.value)
    ensures r.None? <==> forall q :: IsNode(tree, f, q) ==> !Before(p, q)
  {
    var ps := Preorder(tree, f);
    PreorderNodes(tree, f);
    var i := FirstAfter(ps, p);
    if i < |ps| then Some(ps[i]) else None
  }

  /** The last node before p in pre-order, if any. */
  function Pred(tree: seq<Node>, f: string, p: Path): (r: Option<Path>)
    ensures r.Some? ==> IsNode(tree, f, r.value) && Before(r.value, p)
    ensures r.None? <==> forall q :: IsNode(tree, f, q) ==> !Before(q, p)
  {
    var ps := Preorder(tree, f);
    PreorderNodes(tree, f);
    var i := LastBefore(ps, p);
    if i >= 0 then Some(ps[i]) else None
  }

  /** Nothing lies strictly between p and Succ(p). */
  lemma SuccClosest(tree: seq<Node>, f: string, p: Path, q: Path)
    requires Succ(tree, f, p).Some? && IsNode(tree, f, q) && Before(p, q)
    ensures q == Succ(tree, f, p).value || Before(Succ(tree, f, p).value, q)
  {
    var ps := Preorder(tree, f);
    PreorderNodes(tree, f);
    PreorderSorted(tree, f);
    var i := FirstAfter(ps, p);
    var j :| 0 <= j < |ps| && ps[j] == q;
    SortedOrder(ps, i, j);
  }

  /** A node after p with no node strictly between them is Succ(p). */
  lemma ClosestIsSucc(tree: seq<Node>, f: string, p: Path, c: Path)
    requires IsNode(tree, f, c) && Before(p, c)
    requires forall q :: IsNode(tree, f, q) && Before(p, q) ==> q == c || Before(c, q)
    ensures Succ(tree, f, p) == Some(c)
  {
    var ps := Preorder(tree, f);
    PreorderNodes(tree, f);
    PreorderSorted(tree, f);
    var i := FirstAfter(ps, p);
    var m :| 0 <= m < |ps| && ps[m] == c;
    if ps[i] != c {
      SortedOrder(ps, m, i);
    }
  }

  /** Succ(p) is c exactly when c is a node after p and no node lies
      strictly between them. */
  lemma SuccChar(tree: seq<Node>, f: string, p: Path, c: Path)
    ensures Succ(tree, f, p) == Some(c) <==>
              IsNode(tree, f, c) && Before(p, c) &&
              forall q :: IsNode(tree, f, q) && Before(p, q) ==> q == c || Before(c, q)
  {
    if Succ(tree, f, p) == Some(c) {
      forall q | IsNode(tree, f, q) && Before(p, q)
        ensures q == c || Before(c, q)
      {
        SuccClosest(tree, f, p, q);
      }
    } else if IsNode(tree, f, c) && Before(p, c) {
      if forall q :: IsNode(tree, f, q) && Before(p, q) ==> q == c || Before(c, q) {
        ClosestIsSucc(tree, f, p, c);
      }
    }
  }

  /** Nothing lies strictly between Pred(p) and p. */
  lemma PredClosest(tree: seq<Node>, f: string, p: Path, q: Path)
    requires Pred(tree, f, p).Some? && IsNode(tree, f, q) && Before(q, p)
    ensures q == Pred(tree, f, p).value || Before(q, Pred(tree, f, p).value)
  {
    var ps := Preorder(tree, f);
    PreorderNodes(tree, f);
    PreorderSorted(tree, f);
    var i := LastBefore(ps, p);
    var j :| 0 <= j < |ps| && ps[j] == q;
    SortedOrder(ps, j, i);
  }

  /** A node before p with no node strictly between them is Pred(p). */
  lemma ClosestIsPred(tree: seq<Node>, f: string, p: Path, c: Path)
    requires IsNode(tree, f, c) && Before(c, p)
    requires forall q :: IsNode(tree, f, q) && Before(q, p) ==> q == c || Before(q, c)
    ensures Pred(tree, f, p) == Some(c)
  {
    var ps := Preorder(tree, f);
    PreorderNodes(tree, f);
    PreorderSorted(tree, f);
    var i := LastBefore(ps, p);
    var m :| 0 <= m < |ps| && ps[m] == c;
    if ps[i] != c {
      SortedOrder(ps, i, m);
    }
  }

  /** Pred(p) is c exactly when c is a node before p and no node lies
      strictly between them. */
  lemma PredChar(tree: seq<Node>, f: string, p: Path, c: Path)
    ensures Pred(tree, f, p) == Some(c) <==>
              IsNode(tree, f, c) && Before(c, p) &&
              forall q :: IsNode(tree, f, q) && Before(q, p) ==> q == c || Before(q, c)
  {
    if Pred(tree, f, p) == Some(c) {
      forall q | IsNode(tree, f, q) && Before(q, p)
        ensures q == c || Before(q, c)
      {
        PredClosest(tree, f, p, q);
      }
    } else if IsNode(tree, f, c) && Before(c, p) {
      if forall q :: IsNode(tree, f, q) && Before(q, p) ==> q == c || Before(q, c) {
        ClosestIsPred(tree, f, p, c);
      }
    }
  }

  /** Along the pre-order list of nodes, Succ and Pred step to the
      neighbouring entries, and to nothing past either end. */
  lemma PreorderNeighbours(tree: seq<Node>, f: string, m: int)
    requires 0 <= m < |Preorder(tree, f)|
    ensures Succ(tree, f, Preorder(tree, f)[m]) ==
              if m + 1 < |Preorder(tree, f)| then Some(Preorder(tree, f)[m + 1]) else None
    ensures Pred(tree, f, Preorder(tree, f)[m]) ==
              if m >= 1 then Some(Preorder(tree, f)[m - 1]) else None
  {
    PreorderSorted(tree, f);
    SortedPositions(Preorder(tree, f), m);
  }

  /** The position of a node in the pre-order list. */
  lemma PreorderIndex(tree: seq<Node>, f: string, p: Path) returns (m: int)
    requires IsNode(tree, f, p)
    ensures 0 <= m < |Preorder(tree, f)| && Preorder(tree, f)[m] == p
  {
    PreorderNodes(tree, f);
    m :| 0 <= m < |Preorder(tree, f)| && Preorder(tree, f)[m] == p;
  }

  /** Succ and Pred undo each other on the nodes of the tree. */
  lemma SuccPredRoundTrip(tree: seq<Node>, f: string, p: Path)
    requires IsNode(tree, f, p)
    ensures Succ(tree, f, p).Some? ==> Pred(tree, f, Succ(tree, f, p).value) == Some(p)
    ensures Pred(tree, f, p).Some? ==> Succ(tree, f, Pred(tree, f, p).value) == Some(p)
  {
    var ps := Preorder(tree, f);
    var m := PreorderIndex(tree, f, p);
    PreorderNeighbours(tree, f, m);
    if m + 1 < |ps| {
      PreorderNeighbours(tree, f, m + 1);
    }
    if m >= 1 {
      PreorderNeighbours(tree, f, m - 1);
    }
  }

  /** [0] is the first node of a non-empty tree. */
  lemma FirstNode(tree: seq<Node>, f: string)
    requires tree != []
    ensures IsNode(tree, f, [0])
    ensures Preorder(tree, f) != [] && Preorder(tree, f)[0] == [0]
    ensures Pred(tree, f, [0]) == None
  {
    assert At(Root(tree, f), f, [0]) == At(tree[0], f, []);
    forall q | IsNode(tree, f, q)
      ensures !Before(q, [0])
    {
      NodeValid(tree, f, q);
      if Before(q, [0]) {
        assert [] + [0] == [0];
        BeforeFirstChild([], q);
      }
    }
    var ps := Preorder(tree, f);
    PreorderNodes(tree, f);
    assert [0] in ps;
    var m :| 0 <= m < |ps| && ps[m] == [0];
    PreorderNeighbours(tree, f, m);
  }

  // ---------------------------------------------------------------------
  // The last node of a subtree
  // ---------------------------------------------------------------------

  /** The descendants of the node at base, relative to base. */
  function Below(tree: seq<Node>, f: string, base: Path): seq<Path>
    requires IsNode(tree, f, base)
  {
    Descendants(NodeAt(tree, f, base), f)
  }

  /** The k-th node of the subtree at base in pre-order: base itself, then
      its descendants. */
  function SubtreeAt(tree: seq<Node>, f: string, base: Path, k: int): (r: Path)
    requires IsNode(tree, f, base) && 0 <= k <= |Below(tree, f, base)|
    ensures IsNode(tree, f, r) && IsPrefix(base, r)
  {
    var d := Below(tree, f, base);
    if k == 0 then
      base
    else
      DescendantsComplete(NodeAt(tree, f, base), f, d[k - 1]);
      SubtreeNodes(tree, f, base, d[k - 1]);
      base + d[k - 1]
  }

  /** The last node of the subtree rooted at base, in pre-order. */
  function LastDesc(tree: seq<Node>, f: string, base: Path): (r: Path)
    requires IsNode(tree, f, base)
    ensures IsNode(tree, f, r) && IsPrefix(base, r)
  {
    SubtreeAt(tree, f, base, |Below(tree, f, base)|)
  }

  /** The nodes of a subtree, in pre-order. */
  lemma SubtreeMembers(tree: seq<Node>, f: string, base: Path, q: Path)
    requires IsNode(tree, f, base) && IsNode(tree, f, q) && IsPrefix(base, q)
    ensures exists k :: 0 <= k <= |Below(tree, f, base)| && q == SubtreeAt(tree, f, base, k)
  {
    var d := Below(tree, f, base);
    if q != base {
      var t := q[|base|..];
      assert q == base + t;
      SubtreeNodes(tree, f, base, t);
      var j :| 0 <= j < |d| && d[j] == t;
      assert q == SubtreeAt(tree, f, base, j + 1);
    } else {
      assert q == SubtreeAt(tree, f, base, 0);
    }
  }

  lemma SubtreeOrder(tree: seq<Node>, f: string, base: Path, i: int, j: int)
    requires IsNode(tree, f, base) && 0 <= i <= |Below(tree, f, base)| && 0 <= j <= |Below(tree, f, base)|
    ensures Before(SubtreeAt(tree, f, base, i), SubtreeAt(tree, f, base, j)) <==> i < j
  {
    var d := Below(tree, f, base);
    DescendantsSorted(NodeAt(tree, f, base), f);
    if i == 0 && j == 0 {
      BeforeIrreflexive(base);
    } else if i == 0 {
      DescendantsComplete(NodeAt(tree, f, base), f, d[j - 1]);
      BeforeExtension(base, base + d[j - 1]);
    } else if j == 0 {
      DescendantsComplete(NodeAt(tree, f, base), f, d[i - 1]);
      BeforeExtension(base, base + d[i - 1]);
      BeforeAsymmetric(base, base + d[i - 1]);
    } else {
      BeforeAppend(base, d[i - 1], d[j - 1]);
      SortedOrder(d, i - 1, j - 1);
    }
  }

  /** LastDesc(base) comes last among the nodes of base's subtree. */
  lemma LastDescIsLast(tree: seq<Node>, f: string, base: Path, q: Path)
    requires IsNode(tree, f, base) && IsNode(tree, f, q) && IsPrefix(base, q)
    ensures q == LastDesc(tree, f, base) || Before(q, LastDesc(tree, f, base))
  {
    SubtreeMembers(tree, f, base, q);
    var k :| 0 <= k <= |Below(tree, f, base)| && q == SubtreeAt(tree, f, base, k);
    SubtreeOrder(tree, f, base, k, |Below(tree, f, base)|);
  }

  /** Walking the subtree at base: from its k-th node the successor is the
      (k+1)-th, and from its last node the successor leaves the subtree. */
  lemma SubtreeStep(tree: seq<Node>, f: string, base: Path, k: int)
    requires IsNode(tree, f, base) && 0 <= k <= |Below(tree, f, base)|
    ensures k < |Below(tree, f, base)| ==> Succ(tree, f, SubtreeAt(tree, f, base, k)) == Some(SubtreeAt(tree, f, base, k + 1))
    ensures k == |Below(tree, f, base)| ==>
              Succ(tree, f, SubtreeAt(tree, f, base, k)).None? ||
              !IsPrefix(base, Succ(tree, f, SubtreeAt(tree, f, base, k)).value)
  {
    var n := |Below(tree, f, base)|;
    var cur := SubtreeAt(tree, f, base, k);
    if k < n {
      var c := SubtreeAt(tree, f, base, k + 1);
      SubtreeOrder(tree, f, base, k, k + 1);
      forall q | IsNode(tree, f, q) && Before(cur, q)
        ensures q == c || Before(c, q)
      {
        if q != c && !Before(c, q) {
          BeforeTotal(q, c);
          if k > 0 {
            SubtreeOrder(tree, f, base, 0, k);
            BeforeTransitive(base, cur, q);
          }
          assert c == base + Below(tree, f, base)[k];
          Interval(base, q, Below(tree, f, base)[k]);
          SubtreeMembers(tree, f, base, q);
          var j :| 0 <= j <= n && q == SubtreeAt(tree, f, base, j);
          SubtreeOrder(tree, f, base, j, k + 1);
          SubtreeOrder(tree, f, base, k, j);
        }
      }
      SuccChar(tree, f, cur, c);
    } else {
      var s := Succ(tree, f, cur);
      if s.Some? && IsPrefix(base, s.value) {
        SubtreeMembers(tree, f, base, s.value);
        var j :| 0 <= j <= n && s.value == SubtreeAt(tree, f, base, j);
        SubtreeOrder(tree, f, base, k, j);
      }
    }
  }

  /** The last node of a non-empty tree: the last node under the last root. */
  function LastPath(tree: seq<Node>, f: string): (r: Path)
    requires tree != []
    ensures IsNode(tree, f, r)
  {
    assert At(Root(tree, f), f, [|tree| - 1]) == At(tree[|tree| - 1], f, []);
    LastDesc(tree, f, [|tree| - 1])
  }

  /** LastPath is the last entry of the pre-order list of nodes, so nothing
      follows it. */
  lemma LastPathIsLast(tree: seq<Node>, f: string)
    requires tree != []
    ensures Preorder(tree, f) != [] && Preorder(tree, f)[|Preorder(tree, f)| - 1] == LastPath(tree, f)
    ensures Succ(tree, f, LastPath(tree, f)) == None
  {
    var last := LastPath(tree, f);
    var root := [|tree| - 1];
    forall q | IsNode(tree, f, q)
      ensures !Before(last, q)
    {
      if Before(last, q) {
        NodeValid(tree, f, q);
        AtChild(Root(tree, f), f, [], q[0]);
        assert q == [q[0]] + q[1..];
        NodePrefix(tree, f, [q[0]], q[1..]);
        assert [] + [q[0]] == [q[0]];
        if q[0] == |tree| - 1 {
          assert q[..1] == root;
          LastDescIsLast(tree, f, root, q);
          BeforeIrreflexive(q);
          if q != last {
            BeforeAsymmetric(q, last);
          }
        }
      }
    }
    var ps := Preorder(tree, f);
    PreorderNodes(tree, f);
    var m :| 0 <= m < |ps| && ps[m] == last;
    PreorderNeighbours(tree, f, m);
  }
}
