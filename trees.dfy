/**
 * The tree reader: nodes, the configurable children field, resolving a
 * path to a node (readPath), the node queries (has, hasChildren), and the
 * pre-order enumeration of a node's descendants used to state what the
 * traversal engine computes.
 */
module Trees {
  import opened Optional
  import opened Paths

  /** An attribute value. An attribute that is undefined or null is an
      absent key of the node's map. Falsy stands for the other falsy scalars
      (0, false, "", NaN); Truthy stands for any truthy scalar, its text
      telling such values apart; List is an array of nodes (truthy even when
      empty). */
  datatype Value = Falsy | Truthy(text: string) | List(items: seq<Node>)

  /** A node is an object with named attributes; its children sit under the
      attribute named by the configuration. */
  datatype Node = Node(attrs: map<string, Value>)

  /** The construction options: the name of the children field. */
  datatype Config = Config(optionField: string)

  /** opts.optionField || 'options': a missing or empty name means "options". */
  function MakeConfig(optionField: Option<string>): (c: Config)
    ensures c.optionField != ""
    ensures optionField.Some? && optionField.value != "" ==> c.optionField == optionField.value
    ensures optionField.None? || optionField.value == "" ==> c.optionField == "options"
  {
    if optionField.Some? && optionField.value != "" then Config(optionField.value) else Config("options")
  }

  /** The children of n: the list under field f, or none when the field is
      absent or holds no list. */
  function Kids(n: Node, f: string): (ks: seq<Node>)
    ensures forall k :: 0 <= k < |ks| ==> ks[k] < n
  {
    if f in n.attrs && n.attrs[f].List? then
      assert n.attrs[f] in n.attrs.Values;
      n.attrs[f].items
    else
      []
  }

  /** The roots of a tree, seen as the children of a virtual node. */
  function Root(tree: seq<Node>, f: string): (n: Node)
    ensures Kids(n, f) == tree
  {
    Node(map[f := List(tree)])
  }

  /** The node reached from n by following the relative path p. */
  function At(n: Node, f: string, p: Path): Option<Node>
    decreases |p|
  {
    if p == [] then Some(n)
    else if 0 <= p[0] < |Kids(n, f)| then At(Kids(n, f)[p[0]], f, p[1..])
    else None
  }

  /** The attribute prop of n is truthy: present and not a falsy scalar. */
  predicate Carries(n: Node, prop: string)
  {
    prop in n.attrs && !n.attrs[prop].Falsy?
  }

  /** The non-empty path p addresses a node of the tree. */
  predicate IsNode(tree: seq<Node>, f: string, p: Path)
  {
    p != [] && At(Root(tree, f), f, p).Some?
  }

  function NodeAt(tree: seq<Node>, f: string, p: Path): Node
    requires IsNode(tree, f, p)
  {
    At(Root(tree, f), f, p).value
  }

  // ---------------------------------------------------------------------
  // Shape of the set of node paths
  // ---------------------------------------------------------------------

  lemma AtAppend(n: Node, f: string, a: Path, s: Path)
    ensures At(n, f, a + s) == if At(n, f, a).Some? then At(At(n, f, a).value, f, s) else None
    decreases |a|
  {
    if a == [] {
      assert a + s == s;
    } else {
      assert (a + s)[0] == a[0];
      assert (a + s)[1..] == a[1..] + s;
      if 0 <= a[0] < |Kids(n, f)| {
        AtAppend(Kids(n, f)[a[0]], f, a[1..], s);
      }
    }
  }

  lemma AtValid(n: Node, f: string, p: Path)
    requires At(n, f, p).Some?
    ensures AllValid(p)
    decreases |p|
  {
    if p != [] {
      AtValid(Kids(n, f)[p[0]], f, p[1..]);
      assert forall i :: 1 <= i < |p| ==> p[i] == p[1..][i - 1];
    }
  }

  /** Child k of the node at a exists exactly when a addresses a node with
      more than k children. */
  lemma AtChild(n: Node, f: string, a: Path, k: int)
    ensures At(n, f, a + [k]).Some? <==> At(n, f, a).Some? && 0 <= k < |Kids(At(n, f, a).value, f)|
    ensures At(n, f, a + [k]).Some? ==> At(n, f, a + [k]).value == Kids(At(n, f, a).value, f)[k]
  {
    AtAppend(n, f, a, [k]);
  }

  /** Node paths are closed under taking prefixes. */
  lemma NodePrefix(tree: seq<Node>, f: string, a: Path, s: Path)
    requires a != [] && IsNode(tree, f, a + s)
    ensures IsNode(tree, f, a)
  {
    AtAppend(Root(tree, f), f, a, s);
  }

  /** Children are numbered without gaps: if child k exists so does child j <= k. */
  lemma NodeSiblings(tree: seq<Node>, f: string, a: Path, k: int, j: int)
    requires IsNode(tree, f, a + [k]) && 0 <= j <= k
    ensures IsNode(tree, f, a + [j])
  {
    AtChild(Root(tree, f), f, a, k);
    AtChild(Root(tree, f), f, a, j);
  }

  lemma NodeValid(tree: seq<Node>, f: string, p: Path)
    requires IsNode(tree, f, p)
    ensures AllValid(p)
  {
    AtValid(Root(tree, f), f, p);
  }

  // ---------------------------------------------------------------------
  // readPath
  // ---------------------------------------------------------------------

  /** What readPath produces: a node, null, or the TypeError the source
      raises when it indexes the missing children field of a node. */
  datatype Lookup = Found(node: Node) | Null | TypeError

  /** node[optionField][k] once node[optionField] is known to be neither
      undefined nor null: a list is indexed, a scalar yields undefined. */
  function Child(v: Value, k: int): (r: Option<Node>)
    ensures r.Some? ==> v.List? && r.value in v.items
  {
    match v
    case List(items) => if 0 <= k < |items| then Some(items[k]) else None
    case _ => None
  }

  /** The rest of readPath's loop, from the value currently held in `node`:
      a negative component gives null; a missing node is carried along
      without indexing; a node without the children field raises. Without a
      raise, it finds a node exactly when there is one at rest below `node`. */
  function Descend(node: Option<Node>, f: string, rest: Path): (r: Lookup)
    ensures node.None? ==> !r.Found?
    ensures node.Some? ==> (r.Found? <==> At(node.value, f, rest).Some?)
    ensures node.Some? && At(node.value, f, rest).Some? ==> r == Found(At(node.value, f, rest).value)
    decreases |rest|
  {
    if rest == [] then
      (if node.Some? then Found(node.value) else Null)
    else if !IsValid(rest[0]) then
      Null
    else
      match node
      case None => Descend(None, f, rest[1..])
      case Some(n) =>
        if f !in n.attrs then TypeError else Descend(Child(n.attrs[f], rest[0]), f, rest[1..])
  }

  /** readPath as a value: null for a null or empty path or a negative first
      component; otherwise the descent from the root it names. */
  function Read(tree: seq<Node>, f: string, p: Option<Path>): (r: Lookup)
    ensures r.Found? ==> p.Some? && IsNode(tree, f, p.value) && r.node == NodeAt(tree, f, p.value)
  {
    if p.None? || p.value == [] || !IsValid(p.value[0]) then
      Null
    else if p.value[0] < |tree| then
      assert At(Root(tree, f), f, p.value) == At(tree[p.value[0]], f, p.value[1..]);
      Descend(Some(tree[p.value[0]]), f, p.value[1..])
    else
      Descend(None, f, p.value[1..])
  }

  /** Indexing the children field of a node that has one agrees with the
      children the paths follow: a list gives its k-th entry, a scalar gives
      nothing. */
  lemma ChildIsKid(n: Node, f: string, k: int)
    requires f in n.attrs
    ensures Child(n.attrs[f], k) == if 0 <= k < |Kids(n, f)| then Some(Kids(n, f)[k]) else None
  {
  }

  /** Resolving p raises a TypeError in the source. */
  predicate Faults(tree: seq<Node>, f: string, p: Path)
  {
    Read(tree, f, Some(p)).TypeError?
  }

  /** readPath finds a node exactly at the paths that address one, and it is
      that node. */
  lemma {:induction false} ReadFindsNode(tree: seq<Node>, f: string, p: Path)
    ensures Read(tree, f, Some(p)).Found? <==> IsNode(tree, f, p)
    ensures IsNode(tree, f, p) ==> Read(tree, f, Some(p)) == Found(NodeAt(tree, f, p))
  {
    if p != [] && IsValid(p[0]) && p[0] < |tree| {
      assert At(Root(tree, f), f, p) == At(tree[p[0]], f, p[1..]);
    }
  }

  /** readPath: resolves the path by indexing the roots and then the
      children field, one component at a time. */
  method ReadPath(tree: seq<Node>, f: string, p: Option<Path>) returns (r: Lookup)
    ensures r == Read(tree, f, p)
    ensures r.Found? <==> p.Some? && IsNode(tree, f, p.value)
    ensures r.Found? ==> r.node == NodeAt(tree, f, p.value)
    ensures r.TypeError? <==> p.Some? && Faults(tree, f, p.value)
  {
    if p.None? {
      return Null;
    }
    var path := p.value;
    ReadFindsNode(tree, f, path);
    if |path| == 0 || !IsValid(path[0]) {
      return Null;
    }
    var node: Option<Node> := if path[0] < |tree| then Some(tree[path[0]]) else None;
    var i := 1;
    while i < |path|
      invariant 1 <= i <= |path|
      invariant Descend(node, f, path[i..]) == Read(tree, f, p)
    {
      assert path[i..][0] == path[i] && path[i..][1..] == path[i + 1..];
      if !IsValid(path[i]) {
        return Null;
      }
      if node.Some? {
        if f !in node.value.attrs {
          return TypeError;
        }
        node := Child(node.value.attrs[f], path[i]);
      }
      i := i + 1;
    }
    r := if node.Some? then Found(node.value) else Null;
  }

  /** A path that addresses a node resolves without raising. */
  lemma NodeNoFault(tree: seq<Node>, f: string, p: Path)
    requires IsNode(tree, f, p)
    ensures !Faults(tree, f, p)
  {
    ReadFindsNode(tree, f, p);
  }

  lemma DescendFaultExtends(node: Option<Node>, f: string, rest: Path, t: Path)
    requires Descend(node, f, rest).TypeError?
    ensures Descend(node, f, rest + t).TypeError?
    decreases |rest|
  {
    assert rest != [];
    assert (rest + t)[0] == rest[0] && (rest + t)[1..] == rest[1..] + t;
    match node
    case None =>
      DescendFaultExtends(None, f, rest[1..], t);
    case Some(n) =>
      if f in n.attrs {
        DescendFaultExtends(Child(n.attrs[f], rest[0]), f, rest[1..], t);
      }
  }

  /** Once resolving a raises, resolving any extension of a raises too. */
  lemma {:induction false} FaultExtends(tree: seq<Node>, f: string, a: Path, t: Path)
    requires Faults(tree, f, a)
    ensures Faults(tree, f, a + t)
  {
    assert (a + t)[0] == a[0] && (a + t)[1..] == a[1..] + t;
    DescendFaultExtends(if a[0] < |tree| then Some(tree[a[0]]) else None, f, a[1..], t);
  }

  lemma DescendFaultLast(node: Option<Node>, f: string, rest: Path, x: int, y: int)
    requires x >= 0 && y >= 0
    ensures Descend(node, f, rest + [x]).TypeError? <==> Descend(node, f, rest + [y]).TypeError?
    decreases |rest|
  {
    if rest == [] {
      assert [] + [x] == [x] && [] + [y] == [y];
      match node
      case None =>
      case Some(n) =>
        if f in n.attrs {
          assert Descend(Child(n.attrs[f], x), f, []) != TypeError;
          assert Descend(Child(n.attrs[f], y), f, []) != TypeError;
        }
    } else {
      assert (rest + [x])[1..] == rest[1..] + [x] && (rest + [y])[1..] == rest[1..] + [y];
      match node
      case None =>
        DescendFaultLast(None, f, rest[1..], x, y);
      case Some(n) =>
        if f in n.attrs {
          DescendFaultLast(Child(n.attrs[f], rest[0]), f, rest[1..], x, y);
        }
    }
  }

  /** Whether resolving a + [x] raises does not depend on which valid x. */
  lemma {:induction false} FaultLast(tree: seq<Node>, f: string, a: Path, x: int, y: int)
    requires x >= 0 && y >= 0
    ensures Faults(tree, f, a + [x]) <==> Faults(tree, f, a + [y])
  {
    if a == [] {
      assert [] + [x] == [x] && [] + [y] == [y];
    } else if a[0] >= 0 {
      assert (a + [x])[0] == a[0] && (a + [x])[1..] == a[1..] + [x];
      assert (a + [y])[0] == a[0] && (a + [y])[1..] == a[1..] + [y];
      DescendFaultLast(if a[0] < |tree| then Some(tree[a[0]]) else None, f, a[1..], x, y);
    }
  }

  /** Following rest from n, the k-th step stands on an existing node that
      has no children field, with a component that is not negative: the
      step at which readPath indexes undefined. */
  predicate LacksFieldAt(n: Node, f: string, rest: Path, k: int)
  {
    0 <= k < |rest| && At(n, f, rest[..k]).Some? && rest[k] >= 0 && f !in At(n, f, rest[..k]).value.attrs
  }

  /** A missing node is carried to the end without indexing, so it never raises. */
  lemma {:induction false} DescendNoneNoFault(f: string, rest: Path)
    ensures !Descend(None, f, rest).TypeError?
    decreases |rest|
  {
    if rest != [] && IsValid(rest[0]) {
      DescendNoneNoFault(f, rest[1..]);
    }
  }

  /** The descent from n raises exactly when some step stands on a node
      without the children field. */
  lemma {:induction false} DescendFaults(n: Node, f: string, rest: Path)
    ensures Descend(Some(n), f, rest).TypeError? <==> exists k :: LacksFieldAt(n, f, rest, k)
    decreases |rest|
  {
    if rest == [] {
    } else if rest[0] < 0 {
      forall k | 0 < k < |rest|
        ensures At(n, f, rest[..k]).None?
      {
        assert rest[..k][0] == rest[0];
      }
    } else if f !in n.attrs {
      assert rest[..0] == [];
      assert LacksFieldAt(n, f, rest, 0);
    } else {
      var c := Child(n.attrs[f], rest[0]);
      assert rest[..0] == [];
      assert !LacksFieldAt(n, f, rest, 0);
      if c.None? {
        DescendNoneNoFault(f, rest[1..]);
        forall k | 0 < k < |rest|
          ensures At(n, f, rest[..k]).None?
        {
          assert rest[..k][0] == rest[0];
        }
      } else {
        DescendFaults(c.value, f, rest[1..]);
        forall k | 0 < k < |rest|
          ensures LacksFieldAt(n, f, rest, k) <==> LacksFieldAt(c.value, f, rest[1..], k - 1)
        {
          assert rest[..k][0] == rest[0] && rest[..k][1..] == rest[1..][..k - 1];
          assert rest[k] == rest[1..][k - 1];
        }
        if exists k :: LacksFieldAt(n, f, rest, k) {
          var k :| LacksFieldAt(n, f, rest, k);
          assert LacksFieldAt(c.value, f, rest[1..], k - 1);
        }
        if exists j :: LacksFieldAt(c.value, f, rest[1..], j) {
          var j :| LacksFieldAt(c.value, f, rest[1..], j);
          assert LacksFieldAt(n, f, rest, j + 1);
        }
      }
    }
  }

  /** Component k of p is read on an existing node, p[..k], that has no
      children field, and p[k] is not negative. */
  predicate MissingField(tree: seq<Node>, f: string, p: Path, k: int)
  {
    1 <= k < |p| && IsNode(tree, f, p[..k]) && p[k] >= 0 && f !in NodeAt(tree, f, p[..k]).attrs
  }

  /** readPath raises exactly when it reads a non-negative component on an
      existing node that has no children field: a node before it on the
      path that is missing or a negative component stops the read first. */
  lemma {:induction false} FaultsExactly(tree: seq<Node>, f: string, p: Path)
    ensures Faults(tree, f, p) <==> exists k :: MissingField(tree, f, p, k)
  {
    if p == [] {
    } else if p[0] < 0 || p[0] >= |tree| {
      if p[0] >= 0 {
        DescendNoneNoFault(f, p[1..]);
      }
      forall k | 1 <= k < |p|
        ensures !IsNode(tree, f, p[..k])
      {
        assert p[..k][0] == p[0];
      }
    } else {
      var n := tree[p[0]];
      DescendFaults(n, f, p[1..]);
      forall k | 1 <= k < |p|
        ensures MissingField(tree, f, p, k) <==> LacksFieldAt(n, f, p[1..], k - 1)
      {
        assert p[..k][0] == p[0] && p[..k][1..] == p[1..][..k - 1];
        assert p[k] == p[1..][k - 1];
      }
      if exists k :: MissingField(tree, f, p, k) {
        var k :| MissingField(tree, f, p, k);
        assert LacksFieldAt(n, f, p[1..], k - 1);
      }
      if exists j :: LacksFieldAt(n, f, p[1..], j) {
        var j :| LacksFieldAt(n, f, p[1..], j);
        assert MissingField(tree, f, p, j + 1);
      }
    }
  }

  // ---------------------------------------------------------------------
  // Node queries
  // ---------------------------------------------------------------------

  /** has: the node at p exists and its attribute `prop` is truthy. */
  function Has(tree: seq<Node>, f: string, prop: string, p: Option<Path>): (b: bool)
    requires p.Some? ==> !Faults(tree, f, p.value)
    ensures b <==> p.Some? && IsNode(tree, f, p.value) && Carries(NodeAt(tree, f, p.value), prop)
  {
    if p.Some? then
      ReadFindsNode(tree, f, p.value);
      var r := Read(tree, f, p);
      r.Found? && prop in r.node.attrs && !r.node.attrs[prop].Falsy?
    else
      false
  }

  /** hasChildren: the node at p exists and its children field is a
      non-empty list; that is, p's first child exists. */
  function HasChildren(tree: seq<Node>, f: string, p: Option<Path>): (b: bool)
    requires p.Some? ==> !Faults(tree, f, p.value)
    ensures b <==> p.Some? && p.value != [] && IsNode(tree, f, p.value + [0])
  {
    if p.Some? then
      ReadFindsNode(tree, f, p.value);
      AtChild(Root(tree, f), f, p.value, 0);
      if p.value == [] then
        assert Read(tree, f, p) == Null;
        false
      else
        var r := Read(tree, f, p);
        r.Found? && f in r.node.attrs && r.node.attrs[f].List? && |r.node.attrs[f].items| > 0
    else
      false
  }

  // ---------------------------------------------------------------------
  // Pre-order enumeration
  // ---------------------------------------------------------------------

  /** Every path of ps with a put in front. */
  function Prefixed(a: Path, ps: seq<Path>): (r: seq<Path>)
    ensures |r| == |ps| && forall k :: 0 <= k < |ps| ==> r[k] == a + ps[k]
  {
    seq(|ps|, k requires 0 <= k < |ps| => a + ps[k])
  }

  /** The paths, relative to n, of n's strict descendants in depth-first
      pre-order: each child, then its descendants, then the next child. */
  function Descendants(n: Node, f: string): seq<Path>
    decreases n, 1
  {
    DescendantsFrom(n, f, 0)
  }

  function DescendantsFrom(n: Node, f: string, i: nat): seq<Path>
    decreases n, 0, |Kids(n, f)| - i
  {
    if i >= |Kids(n, f)| then
      []
    else
      [[i]] + Prefixed([i], Descendants(Kids(n, f)[i], f)) + DescendantsFrom(n, f, i + 1)
  }

  /** Every node path of the tree in depth-first pre-order. */
  function Preorder(tree: seq<Node>, f: string): seq<Path>
  {
    Descendants(Root(tree, f), f)
  }

  /** The nodes of n's strict descendants in depth-first pre-order. */
  function Subnodes(n: Node, f: string): seq<Node>
    decreases n, 1
  {
    SubnodesFrom(n, f, 0)
  }

  function SubnodesFrom(n: Node, f: string, i: nat): seq<Node>
    decreases n, 0, |Kids(n, f)| - i
  {
    if i >= |Kids(n, f)| then
      []
    else
      [Kids(n, f)[i]] + Subnodes(Kids(n, f)[i], f) + SubnodesFrom(n, f, i + 1)
  }

  /** Strictly increasing in pre-order. */
  predicate Sorted(ps: seq<Path>)
  {
    forall i, j :: 0 <= i < j < |ps| ==> Before(ps[i], ps[j])
  }

  lemma PrefixedMember(a: Path, ps: seq<Path>, s: Path)
    ensures s in Prefixed(a, ps) <==> IsPrefix(a, s) && s[|a|..] in ps
  {
    var r := Prefixed(a, ps);
    if s in r {
      var k :| 0 <= k < |r| && r[k] == s;
      assert s[|a|..] == ps[k];
    }
    if IsPrefix(a, s) && s[|a|..] in ps {
      var k :| 0 <= k < |ps| && ps[k] == s[|a|..];
      assert r[k] == s;
    }
  }

  /** The enumeration lists exactly the paths that address a descendant. */
  lemma {:induction false} DescendantsComplete(n: Node, f: string, s: Path)
    ensures s in Descendants(n, f) <==> s != [] && At(n, f, s).Some?
    decreases n, 1
  {
    DescendantsFromComplete(n, f, 0, s);
  }

  lemma {:induction false} DescendantsFromComplete(n: Node, f: string, i: nat, s: Path)
    ensures s in DescendantsFrom(n, f, i) <==> s != [] && s[0] >= i && At(n, f, s).Some?
    decreases n, 0, |Kids(n, f)| - i
  {
    if i < |Kids(n, f)| {
      var c := Kids(n, f)[i];
      var sub := Descendants(c, f);
      DescendantsFromComplete(n, f, i + 1, s);
      PrefixedMember([i], sub, s);
      if s != [] && s[0] == i {
        if |s| > 1 {
          DescendantsComplete(c, f, s[1..]);
          assert s[..1] == [i];
        } else {
          assert s == [i];
        }
      }
    }
  }

  lemma SortedConcat(a: seq<Path>, b: seq<Path>)
    requires Sorted(a) && Sorted(b)
    requires forall x, y :: x in a && y in b ==> Before(x, y)
    ensures Sorted(a + b)
  {
    forall i, j | 0 <= i < j < |a + b|
      ensures Before((a + b)[i], (a + b)[j])
    {
      if j >= |a| && i < |a| {
        assert (a + b)[i] in a && (a + b)[j] in b;
      }
    }
  }

  lemma PrefixedSorted(a: Path, ps: seq<Path>)
    requires Sorted(ps)
    ensures Sorted(Prefixed(a, ps))
  {
    forall i, j | 0 <= i < j < |ps|
      ensures Before(a + ps[i], a + ps[j])
    {
      BeforeAppend(a, ps[i], ps[j]);
    }
  }

  /** The enumeration is strictly increasing in pre-order. */
  lemma {:induction false} DescendantsSorted(n: Node, f: string)
    ensures Sorted(Descendants(n, f))
    decreases n, 1
  {
    DescendantsFromSorted(n, f, 0);
  }

  lemma {:induction false} DescendantsFromSorted(n: Node, f: string, i: nat)
    ensures Sorted(DescendantsFrom(n, f, i))
    decreases n, 0, |Kids(n, f)| - i
  {
    if i < |Kids(n, f)| {
      var c := Kids(n, f)[i];
      var sub := Descendants(c, f);
      var mid := Prefixed([i], sub);
      var rest := DescendantsFrom(n, f, i + 1);
      DescendantsSorted(c, f);
      PrefixedSorted([i], sub);
      DescendantsFromSorted(n, f, i + 1);
      forall y | y in mid
        ensures Before([i], y) && y[0] == i
      {
        PrefixedMember([i], sub, y);
        DescendantsComplete(c, f, y[1..]);
        BeforeExtension([i], y);
      }
      SortedConcat([[i]], mid);
      forall x, y | x in [[i]] + mid && y in rest
        ensures Before(x, y)
      {
        DescendantsFromComplete(n, f, i + 1, y);
      }
      SortedConcat([[i]] + mid, rest);
    }
  }

  /** The node list pairs up with the path list: entry k of Subnodes is the
      node at entry k of Descendants. */
  lemma {:induction false} SubnodesMatch(n: Node, f: string)
    ensures |Subnodes(n, f)| == |Descendants(n, f)|
    ensures forall k :: 0 <= k < |Descendants(n, f)| ==> At(n, f, Descendants(n, f)[k]) == Some(Subnodes(n, f)[k])
    decreases n, 1
  {
    SubnodesFromMatch(n, f, 0);
  }

  lemma {:induction false} SubnodesFromMatch(n: Node, f: string, i: nat)
    ensures |SubnodesFrom(n, f, i)| == |DescendantsFrom(n, f, i)|
    ensures forall k :: 0 <= k < |DescendantsFrom(n, f, i)| ==>
              At(n, f, DescendantsFrom(n, f, i)[k]) == Some(SubnodesFrom(n, f, i)[k])
    decreases n, 0, |Kids(n, f)| - i
  {
    if i < |Kids(n, f)| {
      var c := Kids(n, f)[i];
      SubnodesMatch(c, f);
      SubnodesFromMatch(n, f, i + 1);
      var ps := DescendantsFrom(n, f, i);
      var ns := SubnodesFrom(n, f, i);
      var m := |Descendants(c, f)|;
      forall k | 0 <= k < |ps|
        ensures At(n, f, ps[k]) == Some(ns[k])
      {
        if k == 0 {
          assert ps[0] == [i] && ns[0] == c;
          assert At(n, f, [i]) == At(c, f, []);
        } else if k <= m {
          var t := Descendants(c, f)[k - 1];
          assert ps[k] == [i] + t;
          assert ns[k] == Subnodes(c, f)[k - 1];
          assert ([i] + t)[0] == i && ([i] + t)[1..] == t;
        } else {
          assert ps[k] == DescendantsFrom(n, f, i + 1)[k - 1 - m];
          assert ns[k] == SubnodesFrom(n, f, i + 1)[k - 1 - m];
        }
      }
    }
  }

  /** The paths below a node of the tree are that node's path followed by
      the relative paths of its descendants. */
  lemma SubtreeNodes(tree: seq<Node>, f: string, base: Path, t: Path)
    requires IsNode(tree, f, base) && t != []
    ensures IsNode(tree, f, base + t) <==> t in Descendants(NodeAt(tree, f, base), f)
    ensures IsNode(tree, f, base + t) ==>
              At(NodeAt(tree, f, base), f, t).Some? && NodeAt(tree, f, base + t) == At(NodeAt(tree, f, base), f, t).value
  {
    AtAppend(Root(tree, f), f, base, t);
    DescendantsComplete(NodeAt(tree, f, base), f, t);
  }

  /** Preorder lists every node path of the tree, in increasing pre-order. */
  lemma PreorderSorted(tree: seq<Node>, f: string)
    ensures Sorted(Preorder(tree, f))
  {
    DescendantsSorted(Root(tree, f), f);
  }

  lemma PreorderNodes(tree: seq<Node>, f: string)
    ensures forall q :: q in Preorder(tree, f) <==> IsNode(tree, f, q)
  {
    forall q
      ensures q in Preorder(tree, f) <==> IsNode(tree, f, q)
    {
      DescendantsComplete(Root(tree, f), f, q);
    }
  }

  /** A path whose resolution does not raise has prefixes that do not raise. */
  lemma NoFaultPrefix(tree: seq<Node>, f: string, a: Path, t: Path)
    requires !Faults(tree, f, a + t)
    ensures !Faults(tree, f, a)
  {
    if Faults(tree, f, a) {
      FaultExtends(tree, f, a, t);
    }
  }
}
