/**
 * Node traversal: nextNode, prevNode, lastNode and childNodes. Each method
 * follows the source step by step and is proved to compute a reference
 * function (NextOf, PrevOf, LastDesc, Subnodes); the lemmas below say what
 * those functions mean in terms of depth-first pre-order.
 */
module Traversal {
  import opened Optional
  import opened Paths
  import opened Trees
  import opened Order

  /** Root i is a node, it is tree[i], and reading it does not raise. */
  lemma RootNode(tree: seq<Node>, f: string, i: int)
    requires 0 <= i < |tree|
    ensures IsNode(tree, f, [i]) && NodeAt(tree, f, [i]) == tree[i] && !Faults(tree, f, [i])
  {
    assert At(Root(tree, f), f, [i]) == At(tree[i], f, []);
    NodeNoFault(tree, f, [i]);
  }

  lemma OutsideRoots(tree: seq<Node>, f: string, q: Path)
    requires q != [] && !(0 <= q[0] < |tree|)
    ensures !IsNode(tree, f, q)
  {
  }

  // ---------------------------------------------------------------------
  // nextNode
  // ---------------------------------------------------------------------

  /** What nextNode returns: nothing for an empty tree, the first root for a
      missing, empty or invalid path, and otherwise the first node after the
      path in pre-order (whether or not the path itself is a node). */
  function NextOf(tree: seq<Node>, f: string, p: Option<Path>): (r: Option<Path>)
    ensures r.Some? ==> IsNode(tree, f, r.value)
  {
    if tree == [] then None
    else if p.None? || p.value == [] || !AllValid(p.value) then
      FirstNode(tree, f);
      Some([0])
    else
      Succ(tree, f, p.value)
  }

  /** A first child, when there is one, is the successor. */
  lemma FirstChildIsSucc(tree: seq<Node>, f: string, p: Path)
    requires p != [] && IsNode(tree, f, p + [0])
    ensures Succ(tree, f, p) == Some(p + [0])
  {
    var c := p + [0];
    assert c[..|p|] == p;
    BeforeExtension(p, c);
    forall q | IsNode(tree, f, q) && Before(p, q)
      ensures q == c || Before(c, q)
    {
      if IsPrefix(p, q) {
        BeforeIrreflexive(p);
        NodeValid(tree, f, q);
        assert q[..|q|] == q;
        assert q == q[..|p|] + q[|p|..];
        if q[|p|] == 0 {
          assert q[..|p| + 1] == c;
          if q != c {
            BeforeExtension(c, q);
          }
        } else {
          assert c == p + ([0] + []);
          BeforeAtDivergence(p, 0, [], q);
        }
      } else {
        AboveExtensions(p, q, [0]);
      }
    }
    SuccChar(tree, f, p, c);
  }

  /** Without a first child, nothing after p extends p. */
  lemma NoChildrenAbove(tree: seq<Node>, f: string, p: Path, q: Path)
    requires p != [] && !IsNode(tree, f, p + [0])
    requires IsNode(tree, f, q) && Before(p, q)
    ensures !IsPrefix(p, q)
  {
    if IsPrefix(p, q) {
      BeforeIrreflexive(p);
      NodeValid(tree, f, q);
      assert q[..|q|] == q;
      assert q == q[..|p|] + q[|p|..];
      var x := q[|p|];
      assert q == (p + [x]) + q[|p| + 1..];
      NodePrefix(tree, f, p + [x], q[|p| + 1..]);
      NodeSiblings(tree, f, p, x, 0);
    }
  }

  /** When every node after path lies beyond the subtree of its prefix a,
      and the next sibling of a is a node, that sibling is the successor. */
  lemma SuccIsSibling(tree: seq<Node>, f: string, path: Path, a: Path)
    requires |a| >= 1 && IsPrefix(a, path) && IsNode(tree, f, Sibling(a))
    requires forall q :: IsNode(tree, f, q) && Before(path, q) ==> Before(a, q) && !IsPrefix(a, q)
    ensures Succ(tree, f, path) == Some(Sibling(a))
  {
    var s := Sibling(a);
    assert path == a + path[|a|..];
    BeforeSibling(a, path[|a|..]);
    forall q | IsNode(tree, f, q) && Before(path, q)
      ensures q == s || Before(s, q)
    {
      SiblingMin(a, q);
    }
    SuccChar(tree, f, path, s);
  }

  /** One step of nextNode's climb: if a's next sibling is not a node, a node
      beyond a's subtree is also beyond its parent's subtree (and so a has a
      parent). */
  lemma ClimbStep(tree: seq<Node>, f: string, a: Path, q: Path)
    requires |a| >= 1 && AllValid(a) && !IsNode(tree, f, Sibling(a))
    requires IsNode(tree, f, q) && Before(a, q) && !IsPrefix(a, q)
    ensures |a| >= 2 && Before(a[..|a| - 1], q) && !IsPrefix(a[..|a| - 1], q)
  {
    var a' := a[..|a| - 1];
    SplitAbove(a, q);
    if IsPrefix(a', q) && |q| > |a| - 1 && q[|a| - 1] > a[|a| - 1] {
      var x := q[|a| - 1];
      assert q == (a' + [x]) + q[|a|..];
      assert Sibling(a) == a' + [a[|a| - 1] + 1];
      NodePrefix(tree, f, a' + [x], q[|a|..]);
      NodeSiblings(tree, f, a', x, a[|a| - 1] + 1);
    }
  }

  /** Before the climb: when path has no children, every node after it lies
      beyond its subtree. */
  lemma LeafAll(tree: seq<Node>, f: string, path: Path)
    requires path != [] && !IsNode(tree, f, path + [0])
    ensures forall q :: IsNode(tree, f, q) && Before(path, q) ==>
              Before(path[..|path|], q) && !IsPrefix(path[..|path|], q)
  {
    assert path[..|path|] == path;
    forall q | IsNode(tree, f, q) && Before(path, q)
      ensures Before(path, q) && !IsPrefix(path, q)
    {
      NoChildrenAbove(tree, f, path, q);
    }
  }

  /** One climb of nextNode's loop, for every node after path at once. */
  lemma ClimbAll(tree: seq<Node>, f: string, path: Path, k: int)
    requires 1 <= k <= |path| && AllValid(path) && !IsNode(tree, f, Sibling(path[..k]))
    requires forall q :: IsNode(tree, f, q) && Before(path, q) ==>
               Before(path[..k], q) && !IsPrefix(path[..k], q)
    ensures forall q :: IsNode(tree, f, q) && Before(path, q) ==>
              k >= 2 && Before(path[..k - 1], q) && !IsPrefix(path[..k - 1], q)
  {
    var a := path[..k];
    assert a[..k - 1] == path[..k - 1];
    assert AllValid(a);
    forall q | IsNode(tree, f, q) && Before(path, q)
      ensures k >= 2 && Before(path[..k - 1], q) && !IsPrefix(path[..k - 1], q)
    {
      assert Before(a, q) && !IsPrefix(a, q);
      ClimbStep(tree, f, a, q);
    }
  }

  /** The siblings nextNode reads along its climb resolve without raising. */
  lemma NoFaultSibling(tree: seq<Node>, f: string, path: Path, k: int)
    requires AllValid(path) && !Faults(tree, f, path) && 1 <= k <= |path|
    ensures !Faults(tree, f, Sibling(path[..k]))
  {
    var a := path[..k];
    assert path == a + path[k..];
    NoFaultPrefix(tree, f, a, path[k..]);
    assert a == a[..k - 1] + [a[k - 1]];
    assert Sibling(a) == a[..k - 1] + [a[k - 1] + 1];
    FaultLast(tree, f, a[..k - 1], a[k - 1], a[k - 1] + 1);
  }

  /** One level of nextNode's climb from cur, which agrees with path above
      its last component: the parent's next sibling resolves without
      raising, nothing after path lies below the parent, and when that
      sibling is a node it is path's successor. */
  lemma ClimbLevel(tree: seq<Node>, f: string, path: Path, cur: Path)
    requires AllValid(path) && !Faults(tree, f, path)
    requires 2 <= |cur| <= |path| && cur[..|cur| - 1] == path[..|cur| - 1]
    requires !IsNode(tree, f, Sibling(path[..|cur|]))
    requires forall q :: IsNode(tree, f, q) && Before(path, q) ==>
               Before(path[..|cur|], q) && !IsPrefix(path[..|cur|], q)
    ensures NextParentPath(cur) == Some(Sibling(path[..|cur| - 1]))
    ensures !Faults(tree, f, Sibling(path[..|cur| - 1]))
    ensures forall q :: IsNode(tree, f, q) && Before(path, q) ==>
              Before(path[..|cur| - 1], q) && !IsPrefix(path[..|cur| - 1], q)
    ensures IsNode(tree, f, Sibling(path[..|cur| - 1])) ==>
              Succ(tree, f, path) == Some(Sibling(path[..|cur| - 1]))
  {
    var k := |cur|;
    NextSiblingIsSibling(cur[..k - 1]);
    ClimbAll(tree, f, path, k);
    NoFaultSibling(tree, f, path, k - 1);
    if IsNode(tree, f, Sibling(path[..k - 1])) {
      SuccIsSibling(tree, f, path, path[..k - 1]);
    }
  }

  /** nextNode: the first child, else the next sibling, else the next sibling
      of the nearest ancestor that has one. */
  method NextNode(tree: seq<Node>, f: string, p: Option<Path>) returns (r: Option<Path>)
    requires p.Some? && p.value != [] && AllValid(p.value) ==> !Faults(tree, f, p.value)
    ensures r == NextOf(tree, f, p)
  {
    if |tree| == 0 {
      return None;
    }
    if p.None? || |p.value| == 0 {
      return Some([0]);
    }
    var path := p.value;
    var valid := IsValidPath(path);
    if !valid {
      return Some([0]);
    }
    if HasChildren(tree, f, p) {
      FirstChildIsSucc(tree, f, path);
      return Some(path + [0]);
    }
    assert path[..|path|] == path;
    LeafAll(tree, f, path);
    var sibling := NextSiblingPath(p);
    NextSiblingIsSibling(path);
    NoFaultSibling(tree, f, path, |path|);
    var found := ReadPath(tree, f, sibling);
    if found.Found? {
      SuccIsSibling(tree, f, path, path[..|path|]);
      return sibling;
    }
    var cur := path;
    var parent := NextParentPath(cur);
    while parent.Some?
      invariant 1 <= |cur| <= |path|
      invariant cur[..|cur| - 1] == path[..|cur| - 1]
      invariant parent == NextParentPath(cur)
      invariant !IsNode(tree, f, Sibling(path[..|cur|]))
      invariant forall q :: IsNode(tree, f, q) && Before(path, q) ==>
                  Before(path[..|cur|], q) && !IsPrefix(path[..|cur|], q)
      decreases |cur|
    {
      ClimbLevel(tree, f, path, cur);
      found := ReadPath(tree, f, parent);
      if found.Found? {
        return parent;
      }
      cur := parent.value;
      parent := NextParentPath(cur);
    }
    ClimbAll(tree, f, path, 1);
    return None;
  }

  // ---------------------------------------------------------------------
  // lastNode
  // ---------------------------------------------------------------------

  /** One step of the walk through the subtree at base, as lastNode and
      childNodes take it: nextNode from the k-th node of the subtree stays
      inside the subtree exactly when k is not the last position, and then
      gives the (k+1)-th node. */
  lemma SubtreeWalk(tree: seq<Node>, f: string, base: Path, k: int)
    requires IsNode(tree, f, base) && 0 <= k <= |Below(tree, f, base)|
    ensures SubtreeAt(tree, f, base, k) != [] && AllValid(SubtreeAt(tree, f, base, k))
    ensures !Faults(tree, f, SubtreeAt(tree, f, base, k))
    ensures var nx := NextOf(tree, f, Some(SubtreeAt(tree, f, base, k)));
            (nx.Some? && IsPrefix(base, nx.value)) <==> k < |Below(tree, f, base)|
    ensures k < |Below(tree, f, base)| ==>
              NextOf(tree, f, Some(SubtreeAt(tree, f, base, k))) == Some(SubtreeAt(tree, f, base, k + 1))
  {
    var cur := SubtreeAt(tree, f, base, k);
    SubtreeStep(tree, f, base, k);
    NodeNoFault(tree, f, cur);
    NodeValid(tree, f, cur);
    OutsideRootsContra(tree, f, cur);
  }

  /** lastNode: walks nextNode from the given node for as long as the result
      stays inside its subtree and returns the last path reached. */
  method LastNode(tree: seq<Node>, f: string, p: Option<Path>) returns (r: Option<Path>)
    requires p.Some? ==> !Faults(tree, f, p.value)
    ensures r == if p.Some? && IsNode(tree, f, p.value) then Some(LastDesc(tree, f, p.value)) else None
  {
    if p.None? {
      return None;
    }
    var found := ReadPath(tree, f, p);
    if !found.Found? {
      return None;
    }
    var base := p.value;
    ghost var n := |Below(tree, f, base)|;
    var current := base;
    var path := p;
    ghost var k := 0;
    while true
      invariant 0 <= k <= n
      invariant current == SubtreeAt(tree, f, base, k)
      invariant path == Some(current)
      decreases n - k
    {
      SubtreeWalk(tree, f, base, k);
      path := NextNode(tree, f, path);
      if path.None? {
        break;
      }
      SlicePrefix(base, path.value);
      var inside := IsEqual(Some(base), Some(Slice(path.value, |base|)));
      if !inside {
        break;
      }
      current := path.value;
      k := k + 1;
    }
    NodeValid(tree, f, current);
    r := ValidPath(current);
  }

  /** The node lastNode returns is in the subtree of the given node, and
      every other node of that subtree comes before it. */
  lemma LastNodeIsLast(tree: seq<Node>, f: string, base: Path, q: Path)
    requires IsNode(tree, f, base) && IsNode(tree, f, q) && IsPrefix(base, q)
    ensures IsPrefix(base, LastDesc(tree, f, base))
    ensures q == LastDesc(tree, f, base) || Before(q, LastDesc(tree, f, base))
  {
    LastDescIsLast(tree, f, base, q);
  }

  /** lastNode is idempotent: the last node of a subtree has no children,
      so lastNode returns it unchanged. */
  lemma LastNodeIdempotent(tree: seq<Node>, f: string, base: Path)
    requires IsNode(tree, f, base)
    ensures !IsNode(tree, f, LastDesc(tree, f, base) + [0])
    ensures LastDesc(tree, f, LastDesc(tree, f, base)) == LastDesc(tree, f, base)
  {
    var l := LastDesc(tree, f, base);
    if IsNode(tree, f, l + [0]) {
      LastDescIsLast(tree, f, base, l + [0]);
      BeforeExtension(l, l + [0]);
      BeforeAsymmetric(l, l + [0]);
    }
    var m := LastDesc(tree, f, l);
    LastDescIsLast(tree, f, base, m);
    if m != l {
      BeforeExtension(l, m);
      BeforeAsymmetric(l, m);
    }
  }

  // ---------------------------------------------------------------------
  // prevNode
  // ---------------------------------------------------------------------

  /** The deepest proper prefix of a that is a node, found by climbing with
      parentPath; the climb stops at once when a parent path holds a
      negative component. */
  function NearestAncestor(tree: seq<Node>, f: string, a: Path): (r: Option<Path>)
    requires |a| >= 1
    ensures r.Some? ==> IsNode(tree, f, r.value) && 1 <= |r.value| < |a| && r.value == a[..|r.value|]
    ensures r.Some? ==> AllValid(a[..|a| - 1]) && forall k :: |r.value| < k < |a| ==> !IsNode(tree, f, a[..k])
    ensures r.None? <==> !AllValid(a[..|a| - 1]) || forall k :: 1 <= k < |a| ==> !IsNode(tree, f, a[..k])
    decreases |a|
  {
    match ParentPath(a)
    case None => None
    case Some(b) =>
      assert forall k :: 0 <= k <= |b| ==> b[..k] == a[..k];
      if IsNode(tree, f, b) then Some(b) else NearestAncestor(tree, f, b)
  }

  /** What prevNode needs so that none of its reads raises: resolving the
      previous sibling and the parent path does not raise. */
  predicate PrevSafe(tree: seq<Node>, f: string, p: Path)
    requires |p| >= 1
  {
    (PrevSiblingPath(Some(p)).Some? ==> !Faults(tree, f, PrevSiblingPath(Some(p)).value)) &&
    (ParentPath(p).Some? ==> !Faults(tree, f, ParentPath(p).value))
  }

  /** A path that resolves without raising is safe for prevNode. */
  lemma NoFaultPrevSafe(tree: seq<Node>, f: string, p: Path)
    requires |p| >= 1 && !Faults(tree, f, p)
    ensures PrevSafe(tree, f, p)
  {
    var a := p[..|p| - 1];
    var x := p[|p| - 1];
    assert p == a + [x];
    NoFaultPrefix(tree, f, a, [x]);
    var s := PrevSiblingPath(Some(p));
    if s.Some? {
      assert s.value == a + [x - 1];
      FaultLast(tree, f, a, x, x - 1);
    }
  }

  /** What prevNode returns: the last node of the whole tree for a missing or
      empty path; else the last node under the previous sibling when that
      sibling is a node; else the nearest ancestor that is a node; else the
      first root for a path starting below zero, the last node for a path
      starting past the roots, and nothing otherwise. */
  function PrevOf(tree: seq<Node>, f: string, p: Option<Path>): (r: Option<Path>)
    ensures r.Some? ==> IsNode(tree, f, r.value)
  {
    if tree == [] then None
    else if p.None? || p.value == [] then Some(LastPath(tree, f))
    else
      var s := PrevSiblingPath(p);
      if s.Some? && IsNode(tree, f, s.value) then Some(LastDesc(tree, f, s.value))
      else
        var anc := NearestAncestor(tree, f, p.value);
        if anc.Some? then anc
        else if p.value[0] < 0 then
          FirstNode(tree, f);
          Some([0])
        else if p.value[0] >= |tree| then Some(LastPath(tree, f))
        else None
  }

  /** One step of prevNode's climb: the parent of a path that resolves
      without raising resolves without raising, and the nearest ancestor of a
      path is its parent when that is a node and otherwise the parent's. */
  lemma ClimbParent(tree: seq<Node>, f: string, a: Path)
    requires |a| >= 1 && !Faults(tree, f, a)
    ensures ParentPath(a).Some? ==> !Faults(tree, f, ParentPath(a).value)
    ensures ParentPath(a).Some? ==>
              NearestAncestor(tree, f, a) ==
              (if IsNode(tree, f, ParentPath(a).value) then ParentPath(a)
               else NearestAncestor(tree, f, ParentPath(a).value))
    ensures ParentPath(a).None? ==> NearestAncestor(tree, f, a).None?
  {
    if |a| >= 2 {
      assert a == a[..|a| - 1] + [a[|a| - 1]];
      NoFaultPrefix(tree, f, a[..|a| - 1], [a[|a| - 1]]);
    }
  }

  /** prevNode: the last node under the previous sibling, else the nearest
      ancestor that exists, else a fallback depending on the first
      component. */
  method PrevNode(tree: seq<Node>, f: string, p: Option<Path>) returns (r: Option<Path>)
    requires p.Some? && p.value != [] ==> PrevSafe(tree, f, p.value)
    ensures r == PrevOf(tree, f, p)
  {
    if |tree| == 0 {
      return None;
    }
    if p.None? || |p.value| == 0 {
      RootNode(tree, f, |tree| - 1);
      r := LastNode(tree, f, Some([|tree| - 1]));
      return;
    }
    var path := p.value;
    var sibling := LastNode(tree, f, PrevSiblingPath(p));
    var found := ReadPath(tree, f, sibling);
    if found.Found? {
      return sibling;
    }
    var parent := ParentPath(path);
    while parent.Some?
      invariant parent.Some? ==> |parent.value| >= 1 && !Faults(tree, f, parent.value)
      invariant parent.Some? ==>
                  NearestAncestor(tree, f, path) ==
                  (if IsNode(tree, f, parent.value) then parent else NearestAncestor(tree, f, parent.value))
      invariant parent.None? ==> NearestAncestor(tree, f, path).None?
      decreases if parent.Some? then |parent.value| else 0
    {
      found := ReadPath(tree, f, parent);
      if found.Found? {
        break;
      }
      ClimbParent(tree, f, parent.value);
      parent := ParentPath(parent.value);
    }
    if parent.Some? {
      return parent;
    }
    if !IsValid(path[0]) {
      r := NextNode(tree, f, None);
      return;
    }
    if path[0] > |tree| - 1 {
      RootNode(tree, f, |tree| - 1);
      r := LastNode(tree, f, Some([|tree| - 1]));
      return;
    }
    return None;
  }

  // ---------------------------------------------------------------------
  // What nextNode and prevNode compute
  // ---------------------------------------------------------------------

  /** The node just before a later sibling is the last node under the
      sibling before it. */
  lemma PredAfterSibling(tree: seq<Node>, f: string, a: Path, x: int)
    requires IsNode(tree, f, a + [x]) && x >= 1
    ensures IsNode(tree, f, a + [x - 1])
    ensures Pred(tree, f, a + [x]) == Some(LastDesc(tree, f, a + [x - 1]))
  {
    var p := a + [x];
    var n := |p|;
    NodeSiblings(tree, f, a, x, x - 1);
    var sv := a + [x - 1];
    var c := LastDesc(tree, f, sv);
    assert c == a + ([x - 1] + c[n..]);
    BeforeAtDivergence(a, x - 1, c[n..], p);
    if c != sv {
      BeforeExtension(sv, c);
    }
    forall q | IsNode(tree, f, q) && Before(q, p)
      ensures q == c || Before(q, c)
    {
      if q == sv {
      } else if Before(q, sv) {
        if c != sv {
          BeforeTransitive(q, sv, c);
        }
      } else {
        BeforeTotal(q, sv);
        assert a + [x - 1 + 1] == p;
        Gap(a, x - 1, q);
        LastDescIsLast(tree, f, sv, q);
      }
    }
    PredChar(tree, f, p, c);
  }

  /** The node just before a first child is its parent. */
  lemma PredOfFirstChild(tree: seq<Node>, f: string, a: Path)
    requires a != [] && IsNode(tree, f, a + [0])
    ensures Pred(tree, f, a + [0]) == Some(a)
  {
    var p := a + [0];
    NodePrefix(tree, f, a, [0]);
    BeforeExtension(a, p);
    forall q | IsNode(tree, f, q) && Before(q, p)
      ensures q == a || Before(q, a)
    {
      NodeValid(tree, f, q);
      BeforeFirstChild(a, q);
    }
    PredChar(tree, f, p, a);
  }

  /** prevNode from a later sibling goes to the last node under the sibling
      before it. */
  lemma PrevOfLaterSibling(tree: seq<Node>, f: string, a: Path, x: int)
    requires IsNode(tree, f, a + [x]) && x >= 1
    ensures PrevOf(tree, f, Some(a + [x])) == Pred(tree, f, a + [x])
  {
    var p := a + [x];
    NodeValid(tree, f, p);
    assert p[..|p| - 1] == a;
    var s := PrevSiblingPath(Some(p));
    assert s.value == s.value[..|a|] + [s.value[|a|]];
    PredAfterSibling(tree, f, a, x);
  }

  /** prevNode from a first child goes to its parent. */
  lemma PrevOfFirstChild(tree: seq<Node>, f: string, a: Path)
    requires a != [] && IsNode(tree, f, a + [0])
    ensures PrevOf(tree, f, Some(a + [0])) == Pred(tree, f, a + [0])
  {
    var p := a + [0];
    NodeValid(tree, f, p);
    assert p[..|p| - 1] == a;
    NodePrefix(tree, f, a, [0]);
    assert ParentPath(p) == Some(a);
    assert NearestAncestor(tree, f, p) == Some(a);
    PredOfFirstChild(tree, f, a);
  }

  /** prevNode from the first root finds nothing, and no node lies before
      the first root. */
  lemma PrevOfFirstRoot(tree: seq<Node>, f: string)
    requires tree != []
    ensures PrevOf(tree, f, Some([0])) == None
    ensures Pred(tree, f, [0]) == None
  {
    FirstNode(tree, f);
    assert PrevSiblingPath(Some([0])) == None;
    assert NearestAncestor(tree, f, [0]) == None;
  }

  /** Lies before a node: its predecessor in pre-order. */
  lemma PrevOfNode(tree: seq<Node>, f: string, p: Path)
    requires IsNode(tree, f, p)
    ensures PrevOf(tree, f, Some(p)) == Pred(tree, f, p)
  {
    NodeValid(tree, f, p);
    var n := |p|;
    var a := p[..n - 1];
    var x := p[n - 1];
    assert p == a + [x];
    if x >= 1 {
      PrevOfLaterSibling(tree, f, a, x);
    } else if n >= 2 {
      PrevOfFirstChild(tree, f, a);
    } else {
      assert p == [0];
      PrevOfFirstRoot(tree, f);
    }
  }

  /** nextNode and prevNode step along the pre-order list of nodes, and
      give nothing past either end. */
  lemma WalkPreorder(tree: seq<Node>, f: string, m: int)
    requires 0 <= m < |Preorder(tree, f)|
    ensures NextOf(tree, f, Some(Preorder(tree, f)[m])) ==
              if m + 1 < |Preorder(tree, f)| then Some(Preorder(tree, f)[m + 1]) else None
    ensures PrevOf(tree, f, Some(Preorder(tree, f)[m])) ==
              if m >= 1 then Some(Preorder(tree, f)[m - 1]) else None
  {
    var p := Preorder(tree, f)[m];
    PreorderNodes(tree, f);
    NodeValid(tree, f, p);
    OutsideRootsContra(tree, f, p);
    PreorderNeighbours(tree, f, m);
    PrevOfNode(tree, f, p);
  }

  lemma OutsideRootsContra(tree: seq<Node>, f: string, p: Path)
    requires IsNode(tree, f, p)
    ensures tree != [] && 0 <= p[0] < |tree|
  {
  }

  /** Without a path, nextNode starts at the first node and prevNode at the
      last one. */
  lemma WalkEnds(tree: seq<Node>, f: string)
    requires tree != []
    ensures Preorder(tree, f) != []
    ensures NextOf(tree, f, None) == Some(Preorder(tree, f)[0])
    ensures PrevOf(tree, f, None) == Some(Preorder(tree, f)[|Preorder(tree, f)| - 1])
  {
    FirstNode(tree, f);
    LastPathIsLast(tree, f);
  }

  /** From a node, prevNode undoes nextNode and nextNode undoes prevNode. */
  lemma NextPrevRoundTrip(tree: seq<Node>, f: string, p: Path)
    requires IsNode(tree, f, p)
    ensures NextOf(tree, f, Some(p)).Some? ==> PrevOf(tree, f, NextOf(tree, f, Some(p))) == Some(p)
    ensures PrevOf(tree, f, Some(p)).Some? ==> NextOf(tree, f, PrevOf(tree, f, Some(p))) == Some(p)
  {
    NodeValid(tree, f, p);
    OutsideRootsContra(tree, f, p);
    PrevOfNode(tree, f, p);
    SuccPredRoundTrip(tree, f, p);
    var nx := NextOf(tree, f, Some(p));
    if nx.Some? {
      PrevOfNode(tree, f, nx.value);
    }
    var pv := PrevOf(tree, f, Some(p));
    if pv.Some? {
      NodeValid(tree, f, pv.value);
    }
  }

  /** A path that starts past the last root steps back to the last node. */
  lemma PrevPastEnd(tree: seq<Node>, f: string, p: Path)
    requires tree != [] && p != [] && p[0] >= |tree|
    ensures PrevOf(tree, f, Some(p)) == Some(LastPath(tree, f))
  {
    var s := PrevSiblingPath(Some(p));
    if s.Some? {
      if |p| >= 2 {
        assert s.value[0] == p[0];
        OutsideRoots(tree, f, s.value);
      } else if IsNode(tree, f, s.value) {
        assert s.value == [|tree| - 1];
      }
    }
    forall k | 1 <= k < |p|
      ensures !IsNode(tree, f, p[..k])
    {
      OutsideRoots(tree, f, p[..k]);
    }
  }

  /** A valid path that starts past the last root has no successor. */
  lemma NextPastEnd(tree: seq<Node>, f: string, p: Path)
    requires p != [] && AllValid(p) && p[0] >= |tree|
    ensures NextOf(tree, f, Some(p)) == None
  {
    if tree != [] {
      forall q | IsNode(tree, f, q)
        ensures !Before(p, q)
      {
        OutsideRootsContra(tree, f, q);
        assert Before(q, p);
        BeforeAsymmetric(q, p);
      }
    }
  }

  /** A path that starts below zero steps back to the first root. */
  lemma PrevBeforeStart(tree: seq<Node>, f: string, p: Path)
    requires tree != [] && p != [] && p[0] < 0
    ensures PrevOf(tree, f, Some(p)) == Some([0])
  {
    var s := PrevSiblingPath(Some(p));
    assert !AllValid(p[..|p| - 1]) || |p| == 1;
  }

  /** nextNode from any valid path, node or not, is the first node after
      it: the m-th node of the pre-order list when that one comes after the
      path and the one before it does not. */
  lemma NextOfBetween(tree: seq<Node>, f: string, p: Path, m: int)
    requires p != [] && AllValid(p) && 0 <= m < |Preorder(tree, f)|
    requires Before(p, Preorder(tree, f)[m])
    requires m == 0 || !Before(p, Preorder(tree, f)[m - 1])
    ensures NextOf(tree, f, Some(p)) == Some(Preorder(tree, f)[m])
  {
    var ps := Preorder(tree, f);
    PreorderNodes(tree, f);
    OutsideRootsContra(tree, f, ps[m]);
    PreorderSorted(tree, f);
    FirstAfterIs(ps, p, m);
  }

  /** For a path that starts at a root, prevNode never moves forward: it
      returns nothing or a node that comes before the path. */
  lemma PrevMovesBack(tree: seq<Node>, f: string, p: Path)
    requires p != [] && 0 <= p[0] < |tree|
    ensures PrevOf(tree, f, Some(p)).None? || Before(PrevOf(tree, f, Some(p)).value, p)
  {
    var n := |p|;
    var s := PrevSiblingPath(Some(p));
    if s.Some? && IsNode(tree, f, s.value) {
      var c := LastDesc(tree, f, s.value);
      assert c[..n] == s.value;
      assert c[..n - 1] == s.value[..n - 1];
      PrevSiblingBefore(p, c);
    } else {
      var anc := NearestAncestor(tree, f, p);
      if anc.Some? {
        BeforeExtension(anc.value, p);
      }
    }
  }

  /** From a path that is not a node, prevNode can skip nodes: when the
      previous sibling slot is empty it climbs to the parent, although the
      parent's first child lies between the parent and the path. */
  lemma PrevFromGap(tree: seq<Node>, f: string, a: Path, x: int)
    requires IsNode(tree, f, a) && IsNode(tree, f, a + [0])
    requires x >= 1 && !IsNode(tree, f, a + [x - 1])
    ensures PrevOf(tree, f, Some(a + [x])) == Some(a)
    ensures Before(a, a + [0]) && Before(a + [0], a + [x])
  {
    var p := a + [x];
    NodeValid(tree, f, a);
    assert p[..|p| - 1] == a;
    var s := PrevSiblingPath(Some(p)).value;
    assert s == s[..|a|] + [s[|a|]];
    OutsideRootsContra(tree, f, a);
    BeforeExtension(a, a + [0]);
    BeforeAppend(a, [0], [x]);
  }

  // ---------------------------------------------------------------------
  // childNodes
  // ---------------------------------------------------------------------

  /** The descendants of roots 0 .. n-1, root by root, without the roots. */
  function RootSubnodes(tree: seq<Node>, f: string, n: int): seq<Node>
    requires 0 <= n <= |tree|
  {
    if n == 0 then [] else RootSubnodes(tree, f, n - 1) + Subnodes(tree[n - 1], f)
  }

  /** The (k+1)-th node of the subtree at base is the k-th node below it. */
  lemma SubtreeEntry(tree: seq<Node>, f: string, base: Path, k: int)
    requires IsNode(tree, f, base) && 0 <= k < |Below(tree, f, base)|
    ensures |Subnodes(NodeAt(tree, f, base), f)| == |Below(tree, f, base)|
    ensures NodeAt(tree, f, SubtreeAt(tree, f, base, k + 1)) == Subnodes(NodeAt(tree, f, base), f)[k]
  {
    var m := NodeAt(tree, f, base);
    SubnodesMatch(m, f);
    DescendantsComplete(m, f, Below(tree, f, base)[k]);
    SubtreeNodes(tree, f, base, Below(tree, f, base)[k]);
  }

  /** childNodes: with a path, the nodes strictly below it in pre-order,
      appended to the given list; without a path, the nodes below each root
      in turn. */
  method ChildNodes(tree: seq<Node>, f: string, p: Option<Path>, acc: seq<Node>) returns (r: Option<seq<Node>>)
    requires p.Some? ==> !Faults(tree, f, p.value)
    ensures p.None? ==> r == Some(RootSubnodes(tree, f, |tree|))
    ensures p.Some? ==> r == if IsNode(tree, f, p.value) then Some(acc + Subnodes(NodeAt(tree, f, p.value), f)) else None
    decreases if p.None? then 1 else 0
  {
    if p.None? {
      var nodes: seq<Node> := [];
      var i := 0;
      while i < |tree|
        invariant 0 <= i <= |tree|
        invariant nodes == RootSubnodes(tree, f, i)
      {
        RootNode(tree, f, i);
        var sub := ChildNodes(tree, f, Some([i]), nodes);
        nodes := sub.value;
        i := i + 1;
      }
      return Some(nodes);
    }
    var found := ReadPath(tree, f, p);
    if !found.Found? {
      return None;
    }
    var nodes := CollectBelow(tree, f, p.value, acc);
    return Some(nodes);
  }

  /** Reading the (k+1)-th node of the subtree at base extends the first k
      nodes below base by one. */
  lemma CollectStep(tree: seq<Node>, f: string, base: Path, k: int)
    requires IsNode(tree, f, base) && 0 <= k < |Below(tree, f, base)|
    ensures |Subnodes(NodeAt(tree, f, base), f)| == |Below(tree, f, base)|
    ensures Subnodes(NodeAt(tree, f, base), f)[..k + 1] ==
            Subnodes(NodeAt(tree, f, base), f)[..k] + [NodeAt(tree, f, SubtreeAt(tree, f, base, k + 1))]
  {
    var sub := Subnodes(NodeAt(tree, f, base), f);
    SubtreeEntry(tree, f, base, k);
    assert sub[..k + 1] == sub[..k] + [sub[k]];
  }

  /** The walk childNodes takes from an existing node at base: nextNode
      while the path stays inside the subtree, reading each node on the way. */
  method CollectBelow(tree: seq<Node>, f: string, base: Path, acc: seq<Node>) returns (nodes: seq<Node>)
    requires IsNode(tree, f, base)
    ensures nodes == acc + Subnodes(NodeAt(tree, f, base), f)
  {
    ghost var m := NodeAt(tree, f, base);
    ghost var n := |Below(tree, f, base)|;
    SubnodesMatch(m, f);
    nodes := acc;
    var path := Some(base);
    ghost var k := 0;
    while true
      invariant 0 <= k <= n
      invariant path == Some(SubtreeAt(tree, f, base, k))
      invariant nodes == acc + Subnodes(m, f)[..k]
      decreases n - k
    {
      SubtreeWalk(tree, f, base, k);
      path := NextNode(tree, f, path);
      if path.None? {
        break;
      }
      SlicePrefix(base, path.value);
      var inside := IsEqual(Some(base), Some(Slice(path.value, |base|)));
      if !inside {
        break;
      }
      var next := ReadPath(tree, f, path);
      CollectStep(tree, f, base, k);
      nodes := nodes + [next.node];
      k := k + 1;
    }
    assert Subnodes(m, f)[..n] == Subnodes(m, f);
  }

  /** childNodes lists, in order, the nodes at the paths of the subtree
      below p: entry k is the node at p + Below[k], and Below holds exactly
      the relative paths of p's descendants, in increasing pre-order. */
  lemma ChildNodesAreBelow(tree: seq<Node>, f: string, p: Path)
    requires IsNode(tree, f, p)
    ensures |Subnodes(NodeAt(tree, f, p), f)| == |Below(tree, f, p)|
    ensures forall k :: 0 <= k < |Below(tree, f, p)| ==>
              IsNode(tree, f, p + Below(tree, f, p)[k]) &&
              NodeAt(tree, f, p + Below(tree, f, p)[k]) == Subnodes(NodeAt(tree, f, p), f)[k]
    ensures forall t :: t != [] ==> (IsNode(tree, f, p + t) <==> t in Below(tree, f, p))
    ensures Sorted(Below(tree, f, p))
  {
    var m := NodeAt(tree, f, p);
    var d := Below(tree, f, p);
    SubnodesMatch(m, f);
    DescendantsSorted(m, f);
    forall k | 0 <= k < |d|
      ensures IsNode(tree, f, p + d[k]) && NodeAt(tree, f, p + d[k]) == Subnodes(m, f)[k]
    {
      DescendantsComplete(m, f, d[k]);
      SubtreeNodes(tree, f, p, d[k]);
    }
    forall t | t != []
      ensures IsNode(tree, f, p + t) <==> t in d
    {
      SubtreeNodes(tree, f, p, t);
    }
  }

  /** The paths of roots 0 .. n-1's descendants, root by root. */
  function DeepPaths(tree: seq<Node>, f: string, n: int): seq<Path>
    requires 0 <= n <= |tree|
  {
    if n == 0 then [] else DeepPaths(tree, f, n - 1) + Prefixed([n - 1], Descendants(tree[n - 1], f))
  }

  /** The j-th descendant of root i is the node at [i] followed by its
      relative path. */
  lemma RootSubtreeEntry(tree: seq<Node>, f: string, i: int, j: int)
    requires 0 <= i < |tree| && 0 <= j < |Descendants(tree[i], f)|
    ensures |Subnodes(tree[i], f)| == |Descendants(tree[i], f)|
    ensures IsNode(tree, f, [i] + Descendants(tree[i], f)[j])
    ensures NodeAt(tree, f, [i] + Descendants(tree[i], f)[j]) == Subnodes(tree[i], f)[j]
  {
    var d := Descendants(tree[i], f);
    RootNode(tree, f, i);
    SubnodesMatch(tree[i], f);
    DescendantsComplete(tree[i], f, d[j]);
    SubtreeNodes(tree, f, [i], d[j]);
  }

  lemma {:induction false} DeepPathsMatch(tree: seq<Node>, f: string, n: int)
    requires 0 <= n <= |tree|
    ensures |DeepPaths(tree, f, n)| == |RootSubnodes(tree, f, n)|
    ensures forall k :: 0 <= k < |DeepPaths(tree, f, n)| ==>
              IsNode(tree, f, DeepPaths(tree, f, n)[k]) &&
              NodeAt(tree, f, DeepPaths(tree, f, n)[k]) == RootSubnodes(tree, f, n)[k]
  {
    if n > 0 {
      DeepPathsMatch(tree, f, n - 1);
      var c := tree[n - 1];
      var prev := DeepPaths(tree, f, n - 1);
      var d := Descendants(c, f);
      var ps := DeepPaths(tree, f, n);
      var ns := RootSubnodes(tree, f, n);
      assert ps == prev + Prefixed([n - 1], d);
      assert ns == RootSubnodes(tree, f, n - 1) + Subnodes(c, f);
      RootNode(tree, f, n - 1);
      SubnodesMatch(c, f);
      forall k | 0 <= k < |ps|
        ensures IsNode(tree, f, ps[k]) && NodeAt(tree, f, ps[k]) == ns[k]
      {
        if k < |prev| {
          assert ps[k] == prev[k];
          assert ns[k] == RootSubnodes(tree, f, n - 1)[k];
        } else {
          var j := k - |prev|;
          assert ps[k] == [n - 1] + d[j];
          assert ns[k] == Subnodes(c, f)[j];
          RootSubtreeEntry(tree, f, n - 1, j);
        }
      }
    }
  }

  lemma {:induction false} DeepPathsMembers(tree: seq<Node>, f: string, n: int, q: Path)
    requires 0 <= n <= |tree|
    ensures q in DeepPaths(tree, f, n) <==> IsNode(tree, f, q) && |q| >= 2 && q[0] < n
  {
    if n > 0 {
      DeepPathsMembers(tree, f, n - 1, q);
      var c := tree[n - 1];
      var d := Descendants(c, f);
      assert DeepPaths(tree, f, n) == DeepPaths(tree, f, n - 1) + Prefixed([n - 1], d);
      PrefixedMember([n - 1], d, q);
      if |q| >= 1 && q[0] == n - 1 {
        assert q[..1] == [n - 1];
        assert At(Root(tree, f), f, q) == At(c, f, q[1..]);
        DescendantsComplete(c, f, q[1..]);
      }
    }
  }

  lemma {:induction false} DeepPathsShape(tree: seq<Node>, f: string, n: int)
    requires 0 <= n <= |tree|
    ensures forall k :: 0 <= k < |DeepPaths(tree, f, n)| ==>
              |DeepPaths(tree, f, n)[k]| >= 2 && 0 <= DeepPaths(tree, f, n)[k][0] < n
  {
    if n > 0 {
      DeepPathsShape(tree, f, n - 1);
      var c := tree[n - 1];
      var prev := DeepPaths(tree, f, n - 1);
      var d := Descendants(c, f);
      var ps := DeepPaths(tree, f, n);
      assert ps == prev + Prefixed([n - 1], d);
      forall k | 0 <= k < |ps|
        ensures |ps[k]| >= 2 && 0 <= ps[k][0] < n
      {
        if k < |prev| {
          assert ps[k] == prev[k];
        } else {
          assert ps[k] == [n - 1] + d[k - |prev|];
          DescendantsComplete(c, f, d[k - |prev|]);
        }
      }
    }
  }

  lemma {:induction false} DeepPathsSorted(tree: seq<Node>, f: string, n: int)
    requires 0 <= n <= |tree|
    ensures Sorted(DeepPaths(tree, f, n))
  {
    if n > 0 {
      DeepPathsSorted(tree, f, n - 1);
      DeepPathsShape(tree, f, n - 1);
      var prev := DeepPaths(tree, f, n - 1);
      var d := Descendants(tree[n - 1], f);
      var block := Prefixed([n - 1], d);
      DescendantsSorted(tree[n - 1], f);
      PrefixedSorted([n - 1], d);
      forall x, y | x in prev && y in block
        ensures Before(x, y)
      {
        var i :| 0 <= i < |prev| && prev[i] == x;
        var j :| 0 <= j < |block| && block[j] == y;
        assert y[0] == n - 1;
      }
      SortedConcat(prev, block);
    }
  }

  /** childNodes without a path lists every node that is not a root, each
      once, in pre-order. */
  lemma AllChildNodes(tree: seq<Node>, f: string)
    ensures |DeepPaths(tree, f, |tree|)| == |RootSubnodes(tree, f, |tree|)|
    ensures forall k :: 0 <= k < |DeepPaths(tree, f, |tree|)| ==>
              IsNode(tree, f, DeepPaths(tree, f, |tree|)[k]) &&
              NodeAt(tree, f, DeepPaths(tree, f, |tree|)[k]) == RootSubnodes(tree, f, |tree|)[k]
    ensures forall q :: q in DeepPaths(tree, f, |tree|) <==> IsNode(tree, f, q) && |q| >= 2
    ensures Sorted(DeepPaths(tree, f, |tree|))
  {
    DeepPathsMatch(tree, f, |tree|);
    DeepPathsSorted(tree, f, |tree|);
    forall q
      ensures q in DeepPaths(tree, f, |tree|) <==> IsNode(tree, f, q) && |q| >= 2
    {
      DeepPathsMembers(tree, f, |tree|, q);
      if IsNode(tree, f, q) {
        OutsideRootsContra(tree, f, q);
      }
    }
  }
}
