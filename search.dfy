/**
 * Traversal by property: nextWith, prevWith and nearestWith. They walk with
 * nextNode and prevNode until they reach a node whose attribute is truthy.
 * Each method is proved to compute a reference function (FirstWith,
 * LastWith, NearestOf), and the lemmas below say which node that is in
 * depth-first pre-order.
 */
module Search {
  import opened Optional
  import opened Paths
  import opened Trees
  import opened Order
  import opened Traversal

  /** The node at q exists and its attribute prop is truthy. */
  predicate HasProp(tree: seq<Node>, f: string, prop: string, q: Path)
  {
    IsNode(tree, f, q) && Carries(NodeAt(tree, f, q), prop)
  }

  /** The first position of the pre-order list, from j on, whose node
      carries prop; the length of the list when there is none. */
  function FirstFrom(tree: seq<Node>, f: string, prop: string, j: int): (i: int)
    requires 0 <= j <= |Preorder(tree, f)|
    ensures j <= i <= |Preorder(tree, f)|
    ensures forall l :: j <= l < i ==> !HasProp(tree, f, prop, Preorder(tree, f)[l])
    ensures i < |Preorder(tree, f)| ==> HasProp(tree, f, prop, Preorder(tree, f)[i])
    decreases |Preorder(tree, f)| - j
  {
    if j == |Preorder(tree, f)| then j
    else if HasProp(tree, f, prop, Preorder(tree, f)[j]) then j
    else FirstFrom(tree, f, prop, j + 1)
  }

  /** The last position of the pre-order list, up to j, whose node carries
      prop; -1 when there is none. */
  function LastUpTo(tree: seq<Node>, f: string, prop: string, j: int): (i: int)
    requires -1 <= j < |Preorder(tree, f)|
    ensures -1 <= i <= j
    ensures forall l :: i < l <= j ==> !HasProp(tree, f, prop, Preorder(tree, f)[l])
    ensures i >= 0 ==> HasProp(tree, f, prop, Preorder(tree, f)[i])
    decreases j + 1
  {
    if j < 0 then -1
    else if HasProp(tree, f, prop, Preorder(tree, f)[j]) then j
    else LastUpTo(tree, f, prop, j - 1)
  }

  /** Entries from position AtOrAfter(q) on do not come before q. */
  lemma NotBeforeFrom(tree: seq<Node>, f: string, q: Path, i: int)
    requires AtOrAfter(Preorder(tree, f), q) <= i <= |Preorder(tree, f)|
    ensures i < |Preorder(tree, f)| ==> !Before(Preorder(tree, f)[i], q)
  {
    var ps := Preorder(tree, f);
    var j := AtOrAfter(ps, q);
    if j < i < |ps| && Before(ps[i], q) {
      PreorderSorted(tree, f);
      BeforeTransitive(ps[j], ps[i], q);
    }
  }

  /** Entries up to position AtOrBefore(q) do not come after q. */
  lemma NotAfterUpTo(tree: seq<Node>, f: string, q: Path, i: int)
    requires -1 <= i <= AtOrBefore(Preorder(tree, f), q)
    ensures i >= 0 ==> !Before(q, Preorder(tree, f)[i])
  {
    var ps := Preorder(tree, f);
    var j := AtOrBefore(ps, q);
    if 0 <= i < j && Before(q, ps[i]) {
      PreorderSorted(tree, f);
      BeforeTransitive(q, ps[i], ps[j]);
    }
  }

  /** A node carrying prop is where both searches from it stop at once. */
  lemma StartMatches(tree: seq<Node>, f: string, prop: string, q: Path)
    ensures HasProp(tree, f, prop, q) ==>
              var j := AtOrAfter(Preorder(tree, f), q);
              j < |Preorder(tree, f)| && Preorder(tree, f)[j] == q && FirstFrom(tree, f, prop, j) == j &&
              AtOrBefore(Preorder(tree, f), q) == j && LastUpTo(tree, f, prop, j) == j
  {
    if HasProp(tree, f, prop, q) {
      var _ := NodeIndex(tree, f, q);
    }
  }

  /** The first node carrying prop that does not come before start. */
  function FirstWith(tree: seq<Node>, f: string, prop: string, start: Option<Path>): (r: Option<Path>)
    ensures r.Some? ==> start.Some? && HasProp(tree, f, prop, r.value) && !Before(r.value, start.value)
    ensures start.Some? && HasProp(tree, f, prop, start.value) ==> r == start
  {
    if start.None? then None
    else
      var ps := Preorder(tree, f);
      var i := FirstFrom(tree, f, prop, AtOrAfter(ps, start.value));
      NotBeforeFrom(tree, f, start.value, i);
      StartMatches(tree, f, prop, start.value);
      if i < |ps| then Some(ps[i]) else None
  }

  /** The last node carrying prop that does not come after start. */
  function LastWith(tree: seq<Node>, f: string, prop: string, start: Option<Path>): (r: Option<Path>)
    ensures r.Some? ==> start.Some? && HasProp(tree, f, prop, r.value) && !Before(start.value, r.value)
    ensures start.Some? && HasProp(tree, f, prop, start.value) ==> r == start
  {
    if start.None? then None
    else
      var ps := Preorder(tree, f);
      var i := LastUpTo(tree, f, prop, AtOrBefore(ps, start.value));
      NotAfterUpTo(tree, f, start.value, i);
      StartMatches(tree, f, prop, start.value);
      if i >= 0 then Some(ps[i]) else None
  }

  /** What the search loop of nextWith yields from path: path itself when it
      carries prop, else the first such node from nextNode(path) on. */
  function Scan(tree: seq<Node>, f: string, prop: string, path: Option<Path>): (r: Option<Path>)
    ensures r.Some? ==> HasProp(tree, f, prop, r.value)
  {
    if path.None? then None
    else if HasProp(tree, f, prop, path.value) then path
    else FirstWith(tree, f, prop, NextOf(tree, f, path))
  }

  /** What the search loop of prevWith yields from path. */
  function ScanBack(tree: seq<Node>, f: string, prop: string, path: Option<Path>): (r: Option<Path>)
    ensures r.Some? ==> HasProp(tree, f, prop, r.value)
  {
    if path.None? then None
    else if HasProp(tree, f, prop, path.value) then path
    else LastWith(tree, f, prop, PrevOf(tree, f, path))
  }

  /** The loops' progress measures: the number of nodes left to visit. */
  function Rank(tree: seq<Node>, f: string, path: Option<Path>): nat
  {
    if path.None? then 0
    else if IsNode(tree, f, path.value) then |Preorder(tree, f)| - AtOrAfter(Preorder(tree, f), path.value)
    else |Preorder(tree, f)| + 1
  }

  function RankBack(tree: seq<Node>, f: string, path: Option<Path>): nat
  {
    if path.None? then 0
    else if IsNode(tree, f, path.value) then AtOrAfter(Preorder(tree, f), path.value) + 1
    else |Preorder(tree, f)| + 2
  }

  // ---------------------------------------------------------------------
  // One step of the search loops
  // ---------------------------------------------------------------------

  /** The position of a node in the pre-order list. */
  lemma NodeIndex(tree: seq<Node>, f: string, q: Path) returns (m: int)
    requires IsNode(tree, f, q)
    ensures 0 <= m < |Preorder(tree, f)| && Preorder(tree, f)[m] == q
    ensures AtOrAfter(Preorder(tree, f), q) == m && AtOrBefore(Preorder(tree, f), q) == m
  {
    var ps := Preorder(tree, f);
    PreorderNodes(tree, f);
    PreorderSorted(tree, f);
    m :| 0 <= m < |ps| && ps[m] == q;
    SortedPositions(ps, m);
  }

  lemma ScanNode(tree: seq<Node>, f: string, prop: string, path: Option<Path>)
    requires path.Some? ==> IsNode(tree, f, path.value)
    ensures Scan(tree, f, prop, path) == FirstWith(tree, f, prop, path)
  {
    if path.Some? {
      var ps := Preorder(tree, f);
      var m := NodeIndex(tree, f, path.value);
      NodeValid(tree, f, path.value);
      WalkPreorder(tree, f, m);
      if m + 1 < |ps| {
        var _ := NodeIndex(tree, f, ps[m + 1]);
      }
    }
  }

  lemma ScanBackNode(tree: seq<Node>, f: string, prop: string, path: Option<Path>)
    requires path.Some? ==> IsNode(tree, f, path.value)
    ensures ScanBack(tree, f, prop, path) == LastWith(tree, f, prop, path)
  {
    if path.Some? {
      var ps := Preorder(tree, f);
      var m := NodeIndex(tree, f, path.value);
      WalkPreorder(tree, f, m);
      if m >= 1 {
        var _ := NodeIndex(tree, f, ps[m - 1]);
      }
    }
  }

  lemma RankStep(tree: seq<Node>, f: string, path: Option<Path>)
    requires path.Some?
    ensures Rank(tree, f, NextOf(tree, f, path)) < Rank(tree, f, path)
  {
    var ps := Preorder(tree, f);
    var next := NextOf(tree, f, path);
    if IsNode(tree, f, path.value) {
      var m := NodeIndex(tree, f, path.value);
      WalkPreorder(tree, f, m);
    }
    if next.Some? {
      var _ := NodeIndex(tree, f, next.value);
    }
  }

  lemma RankBackStep(tree: seq<Node>, f: string, path: Option<Path>)
    requires path.Some?
    ensures RankBack(tree, f, PrevOf(tree, f, path)) < RankBack(tree, f, path)
  {
    var prev := PrevOf(tree, f, path);
    if IsNode(tree, f, path.value) {
      var m := NodeIndex(tree, f, path.value);
      WalkPreorder(tree, f, m);
    }
    if prev.Some? {
      var _ := NodeIndex(tree, f, prev.value);
    }
  }

  // ---------------------------------------------------------------------
  // nextWith, prevWith, nearestWith
  // ---------------------------------------------------------------------

  /** nextWith: step once with nextNode when there is no path or the node
      already carries prop, then keep stepping until a node carries it. */
  method NextWith(tree: seq<Node>, f: string, prop: string, p: Option<Path>) returns (r: Option<Path>)
    requires p.Some? ==> !Faults(tree, f, p.value)
    ensures r == FirstWith(tree, f, prop, NextOf(tree, f, p))
  {
    var path := p;
    if path.None? || Has(tree, f, prop, path) {
      path := NextNode(tree, f, path);
      ScanNode(tree, f, prop, path);
      if path.Some? {
        NodeNoFault(tree, f, path.value);
      }
    }
    while path.Some? && !Has(tree, f, prop, path)
      invariant path.Some? ==> !Faults(tree, f, path.value)
      invariant Scan(tree, f, prop, path) == FirstWith(tree, f, prop, NextOf(tree, f, p))
      decreases Rank(tree, f, path)
    {
      RankStep(tree, f, path);
      path := NextNode(tree, f, path);
      ScanNode(tree, f, prop, path);
      if path.Some? {
        NodeNoFault(tree, f, path.value);
      }
    }
    return path;
  }

  /** prevWith: the mirror image of nextWith, stepping with prevNode. */
  method PrevWith(tree: seq<Node>, f: string, prop: string, p: Option<Path>) returns (r: Option<Path>)
    requires p.Some? ==> !Faults(tree, f, p.value)
    ensures r == LastWith(tree, f, prop, PrevOf(tree, f, p))
  {
    var path := p;
    if path.None? || Has(tree, f, prop, path) {
      if path.Some? {
        NodeNoFault(tree, f, path.value);
        NoFaultPrevSafe(tree, f, path.value);
      }
      path := PrevNode(tree, f, path);
      ScanBackNode(tree, f, prop, path);
      if path.Some? {
        NodeNoFault(tree, f, path.value);
      }
    }
    while path.Some? && !Has(tree, f, prop, path)
      invariant path.Some? ==> !Faults(tree, f, path.value)
      invariant ScanBack(tree, f, prop, path) == LastWith(tree, f, prop, PrevOf(tree, f, p))
      decreases RankBack(tree, f, path)
    {
      RankBackStep(tree, f, path);
      if path.value != [] {
        NoFaultPrevSafe(tree, f, path.value);
      }
      path := PrevNode(tree, f, path);
      ScanBackNode(tree, f, prop, path);
      if path.Some? {
        NodeNoFault(tree, f, path.value);
      }
    }
    return path;
  }

  /** What nearestWith returns: from the given path (the first root when
      none is given), the path itself if it carries prop, else the first
      node after it that does, else the last node before it that does. */
  function NearestOf(tree: seq<Node>, f: string, prop: string, orig: Option<Path>): (r: Option<Path>)
    ensures r.Some? ==> HasProp(tree, f, prop, r.value)
  {
    if tree == [] then None
    else
      var o := if orig.None? then [0] else orig.value;
      var forward := Scan(tree, f, prop, Some(o));
      if forward.Some? then forward else ScanBack(tree, f, prop, Some(o))
  }

  /** nearestWith: search forward with nextNode from the given path; when
      that runs out, search backward with prevNode from the same path. */
  method NearestWith(tree: seq<Node>, f: string, prop: string, orig: Option<Path>) returns (r: Option<Path>)
    requires orig.Some? ==> !Faults(tree, f, orig.value)
    ensures r == NearestOf(tree, f, prop, orig)
  {
    if |tree| == 0 {
      return None;
    }
    var o := orig;
    if o.None? {
      o := NextNode(tree, f, o);
      RootNode(tree, f, 0);
    }
    var path := o;
    while path.Some? && !Has(tree, f, prop, path)
      invariant path.Some? ==> !Faults(tree, f, path.value)
      invariant Scan(tree, f, prop, path) == Scan(tree, f, prop, o)
      decreases Rank(tree, f, path)
    {
      RankStep(tree, f, path);
      path := NextNode(tree, f, path);
      ScanNode(tree, f, prop, path);
      if path.Some? {
        NodeNoFault(tree, f, path.value);
      }
    }
    if path.None? {
      path := o;
      while path.Some? && !Has(tree, f, prop, path)
        invariant path.Some? ==> !Faults(tree, f, path.value)
        invariant ScanBack(tree, f, prop, path) == ScanBack(tree, f, prop, o)
        decreases RankBack(tree, f, path)
      {
        RankBackStep(tree, f, path);
        if path.value != [] {
          NoFaultPrevSafe(tree, f, path.value);
        }
        path := PrevNode(tree, f, path);
        ScanBackNode(tree, f, prop, path);
        if path.Some? {
          NodeNoFault(tree, f, path.value);
        }
      }
    }
    return path;
  }

  // ---------------------------------------------------------------------
  // Which node the searches find
  // ---------------------------------------------------------------------

  /** Entries of the pre-order list are ordered as their positions are. */
  lemma PositionOrder(tree: seq<Node>, f: string, i: int, j: int)
    requires 0 <= i < |Preorder(tree, f)| && 0 <= j < |Preorder(tree, f)|
    ensures Before(Preorder(tree, f)[i], Preorder(tree, f)[j]) <==> i < j
  {
    PreorderSorted(tree, f);
    SortedOrder(Preorder(tree, f), i, j);
  }

  /** The first position from FirstAfter(p) on whose node carries prop
      holds the first node after p carrying prop; the length of the list
      when no node after p carries prop. */
  lemma FirstFromAfter(tree: seq<Node>, f: string, prop: string, p: Path)
    ensures var ps := Preorder(tree, f);
            var k := FirstFrom(tree, f, prop, FirstAfter(ps, p));
            (k < |ps| ==> Before(p, ps[k]) &&
                          forall x :: HasProp(tree, f, prop, x) && Before(p, x) ==> x == ps[k] || Before(ps[k], x)) &&
            (k == |ps| <==> forall x :: HasProp(tree, f, prop, x) ==> !Before(p, x))
  {
    var ps := Preorder(tree, f);
    var i := FirstAfter(ps, p);
    var k := FirstFrom(tree, f, prop, i);
    if k < |ps| && k > i {
      PositionOrder(tree, f, i, k);
      BeforeTransitive(p, ps[i], ps[k]);
    }
    forall x | HasProp(tree, f, prop, x) && Before(p, x)
      ensures k < |ps| && (x == ps[k] || Before(ps[k], x))
    {
      var l := NodeIndex(tree, f, x);
      assert l >= i;
      assert HasProp(tree, f, prop, ps[l]);
      if k < |ps| {
        PositionOrder(tree, f, k, l);
      }
    }
  }

  /** nextWith from a valid path searches forward from the first node
      after it. */
  lemma NextWithFrom(tree: seq<Node>, f: string, prop: string, p: Path)
    requires p != [] && AllValid(p)
    ensures FirstWith(tree, f, prop, NextOf(tree, f, Some(p))) ==
              var k := FirstFrom(tree, f, prop, FirstAfter(Preorder(tree, f), p));
              if k < |Preorder(tree, f)| then Some(Preorder(tree, f)[k]) else None
  {
    var ps := Preorder(tree, f);
    var i := FirstAfter(ps, p);
    if i < |ps| {
      PreorderNodes(tree, f);
      OutsideRootsContra(tree, f, ps[i]);
      var _ := NodeIndex(tree, f, ps[i]);
    }
  }

  /** nextWith from a valid path finds the first node after it that carries
      prop, and nothing exactly when no node after it carries prop. */
  lemma NextWithFindsFirstAfter(tree: seq<Node>, f: string, prop: string, p: Path)
    requires p != [] && AllValid(p)
    ensures FirstWith(tree, f, prop, NextOf(tree, f, Some(p))).Some? ==>
              var c := FirstWith(tree, f, prop, NextOf(tree, f, Some(p))).value;
              HasProp(tree, f, prop, c) && Before(p, c) &&
              forall x :: HasProp(tree, f, prop, x) && Before(p, x) ==> x == c || Before(c, x)
    ensures FirstWith(tree, f, prop, NextOf(tree, f, Some(p))).None? <==>
              forall x :: HasProp(tree, f, prop, x) ==> !Before(p, x)
  {
    NextWithFrom(tree, f, prop, p);
    FirstFromAfter(tree, f, prop, p);
  }

  /** The last position before m whose node carries prop holds the last
      node before the m-th one carrying prop; -1 when no node before the
      m-th one carries prop. */
  lemma LastUpToBefore(tree: seq<Node>, f: string, prop: string, m: int)
    requires 0 <= m < |Preorder(tree, f)|
    ensures var ps, k := Preorder(tree, f), LastUpTo(tree, f, prop, m - 1);
            (k >= 0 ==> Before(ps[k], ps[m]) &&
                        forall x :: HasProp(tree, f, prop, x) && Before(x, ps[m]) ==> x == ps[k] || Before(x, ps[k])) &&
            (k < 0 <==> forall x :: HasProp(tree, f, prop, x) ==> !Before(x, ps[m]))
  {
    var ps := Preorder(tree, f);
    var k := LastUpTo(tree, f, prop, m - 1);
    if k >= 0 {
      PositionOrder(tree, f, k, m);
    }
    forall x | HasProp(tree, f, prop, x) && Before(x, ps[m])
      ensures k >= 0 && (x == ps[k] || Before(x, ps[k]))
    {
      var l := NodeIndex(tree, f, x);
      PositionOrder(tree, f, l, m);
      assert HasProp(tree, f, prop, ps[l]);
      if k >= 0 {
        PositionOrder(tree, f, l, k);
      }
    }
  }

  /** prevWith from a node searches backward from the position before it. */
  lemma PrevWithFrom(tree: seq<Node>, f: string, prop: string, p: Path) returns (m: int)
    requires IsNode(tree, f, p)
    ensures 0 <= m < |Preorder(tree, f)| && Preorder(tree, f)[m] == p
    ensures LastWith(tree, f, prop, PrevOf(tree, f, Some(p))) ==
              var k := LastUpTo(tree, f, prop, m - 1); if k >= 0 then Some(Preorder(tree, f)[k]) else None
  {
    var ps := Preorder(tree, f);
    m := NodeIndex(tree, f, p);
    WalkPreorder(tree, f, m);
    if m >= 1 {
      var _ := NodeIndex(tree, f, ps[m - 1]);
    }
  }

  /** prevWith from a node finds the last node before it that carries prop,
      and nothing exactly when no node before it carries prop. */
  lemma PrevWithFindsLastBefore(tree: seq<Node>, f: string, prop: string, p: Path)
    requires IsNode(tree, f, p)
    ensures LastWith(tree, f, prop, PrevOf(tree, f, Some(p))).Some? ==>
              var c := LastWith(tree, f, prop, PrevOf(tree, f, Some(p))).value;
              HasProp(tree, f, prop, c) && Before(c, p) &&
              forall x :: HasProp(tree, f, prop, x) && Before(x, p) ==> x == c || Before(x, c)
    ensures LastWith(tree, f, prop, PrevOf(tree, f, Some(p))).None? <==>
              forall x :: HasProp(tree, f, prop, x) ==> !Before(x, p)
  {
    var m := PrevWithFrom(tree, f, prop, p);
    LastUpToBefore(tree, f, prop, m);
  }

  /** Without a path, nextWith finds the first node of the tree carrying
      prop and prevWith the last one. */
  lemma WithFromNothing(tree: seq<Node>, f: string, prop: string)
    requires tree != []
    ensures FirstWith(tree, f, prop, NextOf(tree, f, None)) ==
              (var i := FirstFrom(tree, f, prop, 0); if i < |Preorder(tree, f)| then Some(Preorder(tree, f)[i]) else None)
    ensures LastWith(tree, f, prop, PrevOf(tree, f, None)) ==
              (var i := LastUpTo(tree, f, prop, |Preorder(tree, f)| - 1); if i >= 0 then Some(Preorder(tree, f)[i]) else None)
  {
    var ps := Preorder(tree, f);
    WalkEnds(tree, f);
    var _ := NodeIndex(tree, f, ps[0]);
    var _ := NodeIndex(tree, f, ps[|ps| - 1]);
  }

  /** nearestWith returns the given path unchanged when its node already
      carries prop. */
  lemma NearestKeepsMatch(tree: seq<Node>, f: string, prop: string, p: Path)
    requires HasProp(tree, f, prop, p)
    ensures NearestOf(tree, f, prop, Some(p)) == Some(p)
  {
    OutsideRootsContra(tree, f, p);
  }

  /** From a node, nearestWith finds the first node at or after it carrying
      prop, else the last one before it; it finds nothing exactly when no
      node carries prop. */
  lemma NearestFromNode(tree: seq<Node>, f: string, prop: string, p: Path)
    requires IsNode(tree, f, p)
    ensures NearestOf(tree, f, prop, Some(p)) ==
              if FirstWith(tree, f, prop, Some(p)).Some? then FirstWith(tree, f, prop, Some(p))
              else LastWith(tree, f, prop, Some(p))
    ensures NearestOf(tree, f, prop, Some(p)).Some? ==> HasProp(tree, f, prop, NearestOf(tree, f, prop, Some(p)).value)
    ensures NearestOf(tree, f, prop, Some(p)).None? <==> forall x :: !HasProp(tree, f, prop, x)
  {
    var ps := Preorder(tree, f);
    PreorderNodes(tree, f);
    PreorderSorted(tree, f);
    OutsideRootsContra(tree, f, p);
    ScanNode(tree, f, prop, Some(p));
    ScanBackNode(tree, f, prop, Some(p));
    var m := NodeIndex(tree, f, p);
    var i := FirstFrom(tree, f, prop, m);
    var k := LastUpTo(tree, f, prop, m);
    forall x | HasProp(tree, f, prop, x)
      ensures i < |ps| || k >= 0
    {
      var l :| 0 <= l < |ps| && ps[l] == x;
    }
  }
}
