/**
 * Path algebra of the navigator: validity of path components, the sibling
 * and parent paths derived from a path, the prefix test, and the
 * depth-first pre-order on paths.
 *
 * Paths are sequence values, so "works on a copy and leaves the input
 * unchanged" holds by construction: every helper returns a new value.
 */
module Paths {
  import opened Optional

  /** Its first component indexes the roots; each later one indexes the
      children of the node reached so far. */
  type Path = seq<int>

  /** isValid: a component can be used as an index when it is not negative. */
  predicate IsValid(point: int)
  {
    point >= 0
  }

  /** Every component is valid (vacuously true of the empty path). */
  predicate AllValid(p: Path)
  {
    forall i :: 0 <= i < |p| ==> IsValid(p[i])
  }

  /** isValidPath: scans the components from the last one down. */
  method IsValidPath(p: Path) returns (ok: bool)
    ensures ok <==> forall i :: 0 <= i < |p| ==> p[i] >= 0
  {
    var i := |p| - 1;
    while i >= 0
      invariant -1 <= i < |p|
      invariant forall j :: i < j < |p| ==> IsValid(p[j])
    {
      if !IsValid(p[i]) {
        return false;
      }
      i := i - 1;
    }
    return true;
  }

  /** validPath: the path itself when no component is negative, else null. */
  function ValidPath(p: Path): (r: Option<Path>)
    ensures r.Some? <==> forall i :: 0 <= i < |p| ==> p[i] >= 0
    ensures r.Some? ==> r.value == p
  {
    if AllValid(p) then Some(p) else None
  }

  /** a is a prefix of b, or b itself. */
  predicate IsPrefix(a: Path, b: Path)
  {
    |a| <= |b| && b[..|a|] == a
  }

  /** isEqual(a, b): compares a's components, last one first, with b's.
      A position past the end of b reads as undefined, which equals no
      number, so the test is "a is a prefix of b". */
  method IsEqual(a: Option<Path>, b: Option<Path>) returns (eq: bool)
    ensures eq <==> a.Some? && b.Some? && IsPrefix(a.value, b.value)
  {
    if a.None? || b.None? {
      return false;
    }
    var x, y := a.value, b.value;
    var i := |x| - 1;
    while i >= 0
      invariant -1 <= i < |x|
      invariant i < |x| - 1 ==> |x| <= |y|
      invariant forall j :: i < j < |x| ==> j < |y| && x[j] == y[j]
    {
      if i >= |y| || x[i] != y[i] {
        return false;
      }
      i := i - 1;
    }
    assert y[..|x|] == x;
    return true;
  }

  // ---------------------------------------------------------------------
  // Sibling and parent paths
  // ---------------------------------------------------------------------

  /** prevSiblingPath: a copy with the last component decremented, passed
      through validPath. */
  function PrevSiblingPath(p: Option<Path>): (r: Option<Path>)
    requires p.Some? ==> |p.value| >= 1
    ensures p.None? ==> r.None?
    ensures p.Some? ==> (r.Some? <==> AllValid(p.value[..|p.value| - 1]) && p.value[|p.value| - 1] >= 1)
    ensures r.Some? ==> AllValid(r.value) && |r.value| == |p.value|
    ensures r.Some? ==> r.value[..|p.value| - 1] == p.value[..|p.value| - 1]
    ensures r.Some? ==> r.value[|p.value| - 1] == p.value[|p.value| - 1] - 1
  {
    match p
    case None => None
    case Some(q) =>
      var c := q[|q| - 1 := q[|q| - 1] - 1];
      assert c[..|q| - 1] == q[..|q| - 1];
      assert AllValid(c) <==> AllValid(q[..|q| - 1]) && q[|q| - 1] >= 1 by {
        if AllValid(c) {
          assert forall i :: 0 <= i < |q| - 1 ==> q[..|q| - 1][i] == c[i];
          assert c[|q| - 1] >= 0;
        }
      }
      ValidPath(c)
  }

  /** nextSiblingPath: a copy with the last component incremented; the tree
      is not consulted, so the result may address nothing. */
  function NextSiblingPath(p: Option<Path>): (r: Option<Path>)
    requires p.Some? ==> |p.value| >= 1
    ensures r.Some? <==> p.Some?
    ensures r.Some? ==> |r.value| == |p.value| && r.value[..|p.value| - 1] == p.value[..|p.value| - 1]
    ensures r.Some? ==> r.value[|p.value| - 1] == p.value[|p.value| - 1] + 1
  {
    match p
    case None => None
    case Some(q) =>
      var c := q[|q| - 1 := q[|q| - 1] + 1];
      assert c[..|q| - 1] == q[..|q| - 1];
      Some(c)
  }

  /** parentPath: the path without its last component, passed through
      validPath; a root path has no parent. */
  function ParentPath(p: Path): (r: Option<Path>)
    requires |p| >= 1
    ensures r.Some? <==> |p| >= 2 && AllValid(p[..|p| - 1])
    ensures r.Some? ==> r.value == p[..|p| - 1]
  {
    if |p| == 1 then None else ValidPath(p[..|p| - 1])
  }

  /** prevParentPath: the previous sibling of the parent; for a root path,
      the previous root. No operation of the navigator calls it. */
  function PrevParentPath(p: Path): (r: Option<Path>)
    requires |p| >= 1
    ensures |p| == 1 ==> r == PrevSiblingPath(Some(p))
    ensures |p| >= 2 ==> r == PrevSiblingPath(Some(p[..|p| - 1]))
  {
    if |p| == 1 then
      assert [p[0] - 1] == p[0 := p[0] - 1];
      ValidPath([p[0] - 1])
    else
      var c := p[..|p| - 1];
      ValidPath(c[|c| - 1 := c[|c| - 1] - 1])
  }

  /** nextParentPath: the next sibling of the parent; a root path has none. */
  function NextParentPath(p: Path): (r: Option<Path>)
    requires |p| >= 1
    ensures r.Some? <==> |p| >= 2
    ensures r.Some? ==> r == NextSiblingPath(Some(p[..|p| - 1]))
  {
    if |p| == 1 then
      None
    else
      var c := p[..|p| - 1];
      Some(c[|c| - 1 := c[|c| - 1] + 1])
  }

  /** Stepping to the next sibling and back restores a valid path. */
  lemma {:induction false} SiblingRoundTrip(p: Path)
    requires |p| >= 1 && AllValid(p)
    ensures PrevSiblingPath(NextSiblingPath(Some(p))) == Some(p)
    ensures p[|p| - 1] >= 1 ==> NextSiblingPath(PrevSiblingPath(Some(p))) == Some(p)
  {
    var n := NextSiblingPath(Some(p)).value;
    assert n[..|p| - 1] == p[..|p| - 1];
    assert AllValid(n[..|n| - 1]);
    var back := PrevSiblingPath(Some(n)).value;
    assert back == p by {
      assert back[..|p| - 1] == p[..|p| - 1];
      assert back == back[..|p| - 1] + [back[|p| - 1]];
      assert p == p[..|p| - 1] + [p[|p| - 1]];
    }
    if p[|p| - 1] >= 1 {
      assert AllValid(p[..|p| - 1]);
      var b := PrevSiblingPath(Some(p)).value;
      var f := NextSiblingPath(Some(b)).value;
      assert f[..|p| - 1] == p[..|p| - 1];
      assert f == f[..|p| - 1] + [f[|p| - 1]];
      assert p == p[..|p| - 1] + [p[|p| - 1]];
    }
  }

  // ---------------------------------------------------------------------
  // Depth-first pre-order on paths
  // ---------------------------------------------------------------------

  /** p comes before q in depth-first pre-order: p is a proper prefix of q,
      or at the first position where they differ p's component is smaller. */
  predicate Before(p: Path, q: Path)
    decreases |p|
  {
    q != [] && (p == [] || p[0] < q[0] || (p[0] == q[0] && Before(p[1..], q[1..])))
  }

  lemma {:induction false} BeforeIrreflexive(p: Path)
    ensures !Before(p, p)
    decreases |p|
  {
    if p != [] {
      BeforeIrreflexive(p[1..]);
    }
  }

  lemma {:induction false} BeforeTransitive(p: Path, q: Path, r: Path)
    requires Before(p, q) && Before(q, r)
    ensures Before(p, r)
    decreases |p|
  {
    if p != [] && p[0] == q[0] && q[0] == r[0] {
      BeforeTransitive(p[1..], q[1..], r[1..]);
    }
  }

  lemma {:induction false} BeforeAsymmetric(p: Path, q: Path)
    requires Before(p, q)
    ensures !Before(q, p)
  {
    if Before(q, p) {
      BeforeTransitive(p, q, p);
      BeforeIrreflexive(p);
    }
  }

  lemma {:induction false} BeforeTotal(p: Path, q: Path)
    requires p != q
    ensures Before(p, q) || Before(q, p)
    decreases |p|
  {
    if p != [] && q != [] && p[0] == q[0] {
      assert p == [p[0]] + p[1..] && q == [q[0]] + q[1..];
      BeforeTotal(p[1..], q[1..]);
    }
  }

  /** A common prefix does not change the order. */
  lemma BeforeAppend(a: Path, x: Path, y: Path)
    ensures Before(a + x, a + y) <==> Before(x, y)
    decreases |a|
  {
    if a != [] {
      assert (a + x)[0] == a[0] == (a + y)[0];
      assert (a + x)[1..] == a[1..] + x;
      assert (a + y)[1..] == a[1..] + y;
      BeforeAppend(a[1..], x, y);
    } else {
      assert a + x == x && a + y == y;
    }
  }

  /** A proper prefix comes first. */
  lemma {:induction false} BeforeExtension(a: Path, b: Path)
    requires IsPrefix(a, b) && a != b
    ensures Before(a, b)
  {
    assert b == a + b[|a|..];
    assert a == a + [];
    BeforeAppend(a, [], b[|a|..]);
  }

  /** Paths that agree up to position |a| and then carry a larger component
      come after everything that starts with a + [x]. */
  lemma BeforeAtDivergence(a: Path, x: int, t: Path, r: Path)
    requires IsPrefix(a, r) && |r| > |a| && x < r[|a|]
    ensures Before(a + ([x] + t), r)
  {
    assert r == a + r[|a|..];
    BeforeAppend(a, [x] + t, r[|a|..]);
  }

  /** The prefix test on non-empty paths, one component at a time. */
  lemma PrefixCons(a: Path, r: Path)
    requires a != [] && r != []
    ensures IsPrefix(a, r) <==> a[0] == r[0] && IsPrefix(a[1..], r[1..])
  {
    if |a| <= |r| {
      assert r[..|a|] == [r[0]] + r[1..][..|a| - 1];
      assert a == [a[0]] + a[1..];
    }
  }

  /** A path after a that extends a's parent but not a itself continues
      with a larger last component. */
  lemma AboveInParent(a: Path, r: Path)
    requires |a| >= 1 && Before(a, r) && !IsPrefix(a, r) && IsPrefix(a[..|a| - 1], r)
    ensures |r| >= |a| && r[|a| - 1] > a[|a| - 1]
  {
    var n := |a|;
    if |r| < n {
      assert r == a[..n - 1];
      BeforeExtension(r, a);
      BeforeAsymmetric(a, r);
    } else {
      var c, t := a[..n - 1], r[n - 1..];
      assert a == c + [a[n - 1]];
      assert r == c + t;
      BeforeAppend(c, [a[n - 1]], t);
      assert [a[n - 1]][1..] == [];
      assert r[..n] == c + [t[0]];
    }
  }

  /** A path after a that does not extend a's parent comes after the parent. */
  lemma AboveParent(a: Path, r: Path)
    requires |a| >= 1 && Before(a, r) && !IsPrefix(a[..|a| - 1], r)
    ensures Before(a[..|a| - 1], r)
  {
    var a' := a[..|a| - 1];
    BeforeExtension(a', a);
    if Before(r, a') {
      BeforeTransitive(a, r, a');
      BeforeAsymmetric(a', a);
    } else {
      assert r != a';
      BeforeTotal(a', r);
    }
  }

  /** A path that comes after a without extending it leaves a at the last
      position or earlier. */
  lemma SplitAbove(a: Path, r: Path)
    requires |a| >= 1 && Before(a, r) && !IsPrefix(a, r)
    ensures (IsPrefix(a[..|a| - 1], r) && |r| > |a| - 1 && r[|a| - 1] > a[|a| - 1])
         || (Before(a[..|a| - 1], r) && !IsPrefix(a[..|a| - 1], r))
  {
    if IsPrefix(a[..|a| - 1], r) {
      AboveInParent(a, r);
    } else {
      AboveParent(a, r);
    }
  }

  /** Whatever comes after a without extending it also comes after every
      extension of a. */
  lemma AboveExtensions(a: Path, r: Path, t: Path)
    requires Before(a, r) && !IsPrefix(a, r)
    ensures Before(a + t, r) && !IsPrefix(a + t, r)
    decreases |a|
  {
    assert a != [] && r != [];
    PrefixCons(a, r);
    PrefixCons(a + t, r);
    assert (a + t)[0] == a[0];
    assert (a + t)[1..] == a[1..] + t;
    if a[0] == r[0] {
      AboveExtensions(a[1..], r[1..], t);
    }
  }

  /** Whatever lies strictly between p and an extension of p extends p. */
  lemma Interval(p: Path, r: Path, s: Path)
    requires Before(p, r) && Before(r, p + s)
    ensures IsPrefix(p, r) && r != p
  {
    if !IsPrefix(p, r) {
      AboveExtensions(p, r, s);
      BeforeAsymmetric(r, p + s);
    }
    BeforeIrreflexive(p);
  }

  /** The path of the next sibling: the last component moved up by one. */
  function Sibling(a: Path): (s: Path)
    requires |a| >= 1
    ensures |s| == |a| && IsPrefix(a[..|a| - 1], s) && s[|a| - 1] == a[|a| - 1] + 1
  {
    a[..|a| - 1] + [a[|a| - 1] + 1]
  }

  lemma NextSiblingIsSibling(a: Path)
    requires |a| >= 1
    ensures NextSiblingPath(Some(a)) == Some(Sibling(a))
  {
    var s := NextSiblingPath(Some(a)).value;
    assert s == s[..|a| - 1] + [s[|a| - 1]];
  }

  /** The first path after a that does not extend a is a's next sibling. */
  lemma SiblingMin(a: Path, r: Path)
    requires |a| >= 1 && Before(a, r) && !IsPrefix(a, r)
    ensures r == Sibling(a) || Before(Sibling(a), r)
  {
    var a' := a[..|a| - 1];
    var s := Sibling(a);
    SplitAbove(a, r);
    if IsPrefix(a', r) && |r| > |a| - 1 && r[|a| - 1] > a[|a| - 1] {
      if r[|a| - 1] == a[|a| - 1] + 1 {
        assert r[..|a|] == r[..|a| - 1] + [r[|a| - 1]];
        assert IsPrefix(s, r);
        if r != s {
          BeforeExtension(s, r);
        }
      } else {
        assert s == a' + ([a[|a| - 1] + 1] + []);
        BeforeAtDivergence(a', a[|a| - 1] + 1, [], r);
      }
    } else {
      AboveExtensions(a', r, [a[|a| - 1] + 1]);
    }
  }

  /** Nothing lies strictly between a + [x] and a + [x + 1] except the
      extensions of a + [x]. */
  lemma Gap(a: Path, x: int, r: Path)
    requires Before(a + [x], r) && Before(r, a + [x + 1])
    ensures IsPrefix(a + [x], r)
  {
    if !IsPrefix(a + [x], r) {
      var c := a + [x];
      var s := a + [x + 1];
      assert c[..|c| - 1] == a;
      assert Sibling(c) == s;
      SiblingMin(c, r);
      if r == s {
        BeforeIrreflexive(s);
      } else {
        BeforeAsymmetric(r, s);
      }
    }
  }

  /** Every extension of a path's previous sibling comes before the path. */
  lemma PrevSiblingBefore(p: Path, c: Path)
    requires |p| >= 1 && |c| >= |p|
    requires c[..|p| - 1] == p[..|p| - 1] && c[|p| - 1] == p[|p| - 1] - 1
    ensures Before(c, p)
  {
    var n := |p|;
    var a := p[..n - 1];
    assert c == a + ([p[n - 1] - 1] + c[n..]);
    assert p == a + [p[n - 1]];
    BeforeAtDivergence(a, p[n - 1] - 1, c[n..], p);
  }

  /** Among paths with no negative component, what comes before a's first
      child is a itself or comes before a. */
  lemma BeforeFirstChild(a: Path, r: Path)
    requires AllValid(r) && Before(r, a + [0])
    ensures r == a || Before(r, a)
  {
    if r != a && !Before(r, a) {
      BeforeTotal(r, a);
      Interval(a, r, [0]);
      var t := r[|a|..];
      assert r == a + t;
      BeforeAppend(a, t, [0]);
    }
  }

  /** path.slice(0, n): the first n components, or all of them when the
      path is shorter. */
  function Slice(p: Path, n: nat): (r: Path)
    ensures |r| == (if n <= |p| then n else |p|) && IsPrefix(r, p)
  {
    if n <= |p| then p[..n] else p
  }

  /** Comparing a with the slice of b to a's length is the prefix test. */
  lemma SlicePrefix(a: Path, b: Path)
    ensures IsPrefix(a, Slice(b, |a|)) <==> IsPrefix(a, b)
  {
    if |a| <= |b| {
      assert b[..|a|][..|a|] == b[..|a|];
    }
  }

  /** Every extension of a comes before a's next sibling. */
  lemma BeforeSibling(a: Path, t: Path)
    requires |a| >= 1
    ensures Before(a + t, Sibling(a))
  {
    var a' := a[..|a| - 1];
    assert a + t == a' + ([a[|a| - 1]] + t);
    BeforeAtDivergence(a', a[|a| - 1], t, Sibling(a));
  }
}
