/**
 * The filter_* predicates: which rows each SQL condition selects. A condition
 * is modelled as a predicate on one row.
 */
module Filters {
  import opened Wrappers
  import opened PathOrder
  import opened PathCodec
  import opened Rows

  /**
   * filter_descendants as written: same tree, path above the node's path
   * (or equal to it with andSelf), and below inc_path(path) when that exists.
   */
  predicate DescendantsAsWritten(steplen: nat, treeId: int, path: Path, andSelf: bool, r: Row)
    requires steplen > 0 && IsPath(path)
  {
    var next := IncPath(path, steplen);
    && r.treeId == treeId
    && (if andSelf then LexLessEq(path, r.path) else LexLess(path, r.path))
    && (next.Ok? ==> LexLess(r.path, next.value))
  }

  /**
   * The least path above every descendant of path: the successor of the
   * nearest ancestor-or-self whose last segment is not all 'Z'. None when no
   * such ancestor exists, in which case nothing after path in its tree bounds it.
   */
  function UpperBound(path: Path, steplen: nat): Option<Path>
    requires steplen > 0 && IsPath(path)
    decreases |path|
  {
    match IncPath(path, steplen)
    case Ok(next) => Some(next)
    case Err(_) => if |path| <= steplen then None else UpperBound(path[..|path| - steplen], steplen)
  }

  /** The length of the ancestor-or-self that UpperBound increments (0 when there is none). */
  function BoundCut(path: Path, steplen: nat): nat
    requires steplen > 0 && IsPath(path)
    decreases |path|
  {
    if IncPath(path, steplen).Ok? then |path|
    else if |path| <= steplen then 0
    else BoundCut(path[..|path| - steplen], steplen)
  }

  /**
   * filter_descendants with the upper bound taken from UpperBound, so that a
   * node whose last segment is all 'Z' is still bounded by an ancestor's successor.
   */
  predicate Descendants(steplen: nat, treeId: int, path: Path, andSelf: bool, r: Row)
    requires steplen > 0 && IsPath(path)
  {
    var bound := UpperBound(path, steplen);
    && r.treeId == treeId
    && (if andSelf then LexLessEq(path, r.path) else LexLess(path, r.path))
    && (bound.Some? ==> LexLess(r.path, bound.value))
  }

  /** filter_children: descendants exactly one level below. */
  predicate Children(steplen: nat, treeId: int, path: Path, depth: int, r: Row)
    requires steplen > 0 && IsPath(path)
  {
    Descendants(steplen, treeId, path, false, r) && r.depth == depth + 1
  }

  /** filter_children as written, on top of filter_descendants as written. */
  predicate ChildrenAsWritten(steplen: nat, treeId: int, path: Path, depth: int, r: Row)
    requires steplen > 0 && IsPath(path)
  {
    DescendantsAsWritten(steplen, treeId, path, false, r) && r.depth == depth + 1
  }

  /**
   * filter_ancestors: same tree, the row's path is a prefix of path (the LIKE
   * path || '%' test; no symbol is a LIKE wildcard), and the row is higher up.
   */
  predicate Ancestors(treeId: int, path: Path, depth: int, andSelf: bool, r: Row) {
    && r.treeId == treeId
    && IsPrefix(r.path, path)
    && (if andSelf then r.depth <= depth else r.depth < depth)
  }

  /** filter_parent: the row whose key is parentId; a literal false for a root. */
  predicate Parent(parentId: Option<int>, r: Row) {
    parentId.Some? && r.id == parentId.value
  }

  lemma QuotientUnique(q1: int, r1: int, q2: int, r2: int, s: nat)
    requires 0 <= r1 < s && 0 <= r2 < s && q1 * s + r1 == q2 * s + r2
    ensures q1 == q2 && r1 == r2
  {
    if q1 < q2 {
      MulMono(q1 + 1, q2, s);
      Distrib(q1, s);
    } else if q2 < q1 {
      MulMono(q2 + 1, q1, s);
      Distrib(q2, s);
    }
  }

  /** Dropping the last segment of an aligned path leaves an aligned path. */
  lemma ModStep(a: nat, s: nat)
    requires s > 0 && a >= s && a % s == 0
    ensures (a - s) % s == 0
  {
    var q := a / s;
    Distrib(q - 1, s);
    QuotientUnique((a - s) / s, (a - s) % s, q - 1, 0, s);
  }

  /** Two distinct multiples of steplen are at least steplen apart. */
  lemma MultiplesApart(a: nat, b: nat, s: nat)
    requires s > 0 && a % s == 0 && b % s == 0 && a < b
    ensures a <= b - s
  {
    var m, n := a / s, b / s;
    if m >= n {
      MulMono(n, m, s);
    } else {
      MulMono(m + 1, n, s);
      Distrib(m, s);
    }
  }

  /** UpperBound is the successor of the prefix of length BoundCut, when that is not empty. */
  lemma {:induction false} BoundCutBound(path: Path, steplen: nat)
    requires steplen > 0 && IsPath(path)
    ensures var j, b := BoundCut(path, steplen), UpperBound(path, steplen);
      && j <= |path|
      && (b.Some? <==> j > 0)
      && (j > 0 ==> IncPath(path[..j], steplen) == Ok(b.value))
    decreases |path|
  {
    if IncPath(path, steplen).Ok? {
      assert path[..|path|] == path;
    } else if |path| > steplen {
      var p' := path[..|path| - steplen];
      BoundCutBound(p', steplen);
      BoundCutParent(path, p', steplen);
    }
  }

  /** Where the path itself cannot be incremented, UpperBound and BoundCut are those of its parent. */
  lemma {:induction false} BoundCutParent(path: Path, p': Path, steplen: nat)
    requires steplen > 0 && IsPath(path) && IncPath(path, steplen).Err? && |path| > steplen
    requires p' == path[..|path| - steplen] && IsPath(p') && BoundCut(p', steplen) <= |p'|
    ensures BoundCut(path, steplen) == BoundCut(p', steplen)
    ensures UpperBound(path, steplen) == UpperBound(p', steplen)
    ensures p'[..BoundCut(p', steplen)] == path[..BoundCut(p', steplen)]
  {
    PrefixOfPrefix(path, |path| - steplen, BoundCut(p', steplen));
  }

  /** A prefix of a prefix is a prefix. */
  lemma PrefixOfPrefix(s: Path, a: nat, b: nat)
    requires b <= a <= |s|
    ensures s[..a][..b] == s[..b]
  {
  }

  /** An extension of p agrees with the prefix of p of length j below j. */
  lemma PrefixAgrees(p: Path, q: Path, j: nat, i: nat)
    requires IsPrefix(p, q) && i < j <= |p|
    ensures q[..i] == p[..j][..i] && q[i] == p[..j][i]
  {
    assert q[..|p|] == p;
    assert q[i] == q[..|p|][i];
  }

  /** Everything of the path after the prefix that UpperBound increments is 'Z'. */
  lemma {:induction false} BoundCutTail(path: Path, steplen: nat)
    requires steplen > 0 && IsPath(path)
    ensures BoundCut(path, steplen) <= |path|
    ensures forall k :: BoundCut(path, steplen) <= k < |path| ==> path[k] == 'Z'
    decreases |path|
  {
    if IncPath(path, steplen).Err? {
      IncPathOverflowIff(path, steplen);
      if |path| > steplen {
        var p' := path[..|path| - steplen];
        BoundCutTail(p', steplen);
        var j := BoundCut(p', steplen);
        forall k | j <= k < |path| ensures path[k] == 'Z' {
          if k < |p'| {
            assert path[k] == p'[k];
          }
        }
      }
    }
  }

  /** On an aligned path, the prefix that UpperBound increments is aligned too. */
  lemma {:induction false} BoundCutAligned(path: Path, steplen: nat)
    requires steplen > 0 && IsPath(path) && |path| % steplen == 0
    ensures BoundCut(path, steplen) % steplen == 0
    decreases |path|
  {
    if IncPath(path, steplen).Err? && |path| > steplen {
      ModStep(|path|, steplen);
      BoundCutAligned(path[..|path| - steplen], steplen);
    }
  }

  /**
   * The order argument behind AboveSuccessor, on the shape of an increment of
   * p' at position i into r.
   */
  lemma AboveShape(p': Path, r: Path, q: Path, steplen: nat, i: nat, k: nat)
    requires steplen > 0 && IsPath(p') && IsPath(q) && IsPath(r)
    requires |p'| % steplen == 0 && |q| % steplen == 0 && |r| == |p'|
    requires |p'| - steplen <= i < |p'| && r[..i] == p'[..i] && p'[i] != 'Z' && r[i] == Succ(p'[i])
    requires forall t :: i < t < |p'| ==> p'[t] == 'Z'
    requires forall t :: i < t < |r| ==> r[t] == '0'
    requires k < |p'| && k < |q| && q[..k] == p'[..k] && p'[k] < q[k]
    ensures !LexLess(q, r)
  {
    if k < i {
      assert r[..k] == q[..k] && r[k] == p'[k];
      LexLessAt(r, q, k);
    } else if k == i {
      IndexMonotone(p'[i], q[i]);
      IndexMonotone(r[i], q[i]);
      if q[i] != r[i] {
        LexLessAt(r, q, i);
      } else {
        assert q[..i + 1] == r[..i + 1];
        LcpMaximal(q, r, i + 1);
        if |q| < |p'| {
          MultiplesApart(|q|, |p'|, steplen);
        }
      }
    }
  }

  /**
   * A well-shaped path that leaves p' at some position by a larger symbol is
   * not below inc_path(p').
   */
  lemma AboveSuccessor(p': Path, q: Path, steplen: nat, k: nat)
    requires steplen > 0 && IsPath(p') && IsPath(q) && |p'| >= steplen
    requires |p'| % steplen == 0 && |q| % steplen == 0 && IncPath(p', steplen).Ok?
    requires k < |p'| && k < |q| && q[..k] == p'[..k] && p'[k] < q[k]
    ensures !LexLess(q, IncPath(p', steplen).value)
  {
    IncPathShape(p', steplen);
    AboveShape(p', IncPath(p', steplen).value, q, steplen, IncPos(p', steplen), k);
  }

  /** Below the upper bound and above path, a well-shaped path has path as its prefix. */
  lemma {:induction false} RangeToPrefix(p: Path, q: Path, steplen: nat)
    requires steplen > 0 && IsPath(p) && IsPath(q)
    requires |p| % steplen == 0 && |q| % steplen == 0
    requires LexLess(p, q)
    requires UpperBound(p, steplen).Some? ==> LexLess(q, UpperBound(p, steplen).value)
    ensures IsPrefix(p, q)
  {
    BoundCutBound(p, steplen);
    BoundCutTail(p, steplen);
    BoundCutAligned(p, steplen);
    var j := BoundCut(p, steplen);
    var k := Lcp(p, q);
    if k < j {
      assert p[..j][..k] == p[..k];
      MultiplesApart(0, j, steplen);
      AboveSuccessor(p[..j], q, steplen, k);
    }
  }

  /** An extension of path lies below path's upper bound, and a proper one above path. */
  lemma {:induction false} PrefixToRange(p: Path, q: Path, steplen: nat)
    requires steplen > 0 && IsPath(p) && IsPrefix(p, q)
    ensures |p| < |q| ==> LexLess(p, q)
    ensures UpperBound(p, steplen).Some? ==> LexLess(q, UpperBound(p, steplen).value)
  {
    if |p| < |q| {
      PrefixLess(p, q);
    }
    BoundCutBound(p, steplen);
    var j := BoundCut(p, steplen);
    if j > 0 {
      var p', r := p[..j], UpperBound(p, steplen).value;
      IncPathShape(p', steplen);
      var i := IncPos(p', steplen);
      PrefixAgrees(p, q, j, i);
      LexLessAt(q, r, i);
    }
  }

  /**
   * The descendants filter selects exactly the rows of the same tree whose
   * path extends the node's path (the node itself only with andSelf).
   */
  lemma DescendantsIffPrefix(steplen: nat, treeId: int, path: Path, andSelf: bool, r: Row)
    requires steplen > 0 && IsPath(path) && |path| % steplen == 0
    requires IsPath(r.path) && |r.path| % steplen == 0
    ensures Descendants(steplen, treeId, path, andSelf, r) <==>
      r.treeId == treeId && IsPrefix(path, r.path) && (andSelf || r.path != path)
  {
    var q, b := r.path, UpperBound(path, steplen);
    LexLessIrreflexive(path);
    if q != path && LexLess(path, q) && (b.Some? ==> LexLess(q, b.value)) {
      RangeToPrefix(path, q, steplen);
    }
    if IsPrefix(path, q) {
      PrefixToRange(path, q, steplen);
    }
  }

  /** The length of a stored path is a multiple of steplen, and fixes the depth. */
  lemma ShapedAligned(r: Row, steplen: nat)
    requires steplen > 0 && Shaped(r, steplen)
    ensures |r.path| % steplen == 0
  {
    QuotientUnique(|r.path| / steplen, |r.path| % steplen, r.depth, 0, steplen);
  }

  lemma DepthFromLength(a: Row, b: Row, steplen: nat, delta: nat)
    requires steplen > 0 && Shaped(a, steplen) && Shaped(b, steplen)
    ensures |b.path| == |a.path| + delta * steplen <==> b.depth == a.depth + delta
    ensures |a.path| <= |b.path| <==> a.depth <= b.depth
  {
    assert (a.depth + delta) * steplen == a.depth * steplen + delta * steplen;
    if |b.path| == |a.path| + delta * steplen {
      QuotientUnique(b.depth, 0, a.depth + delta, 0, steplen);
    }
    if a.depth <= b.depth {
      MulMono(a.depth, b.depth, steplen);
    } else {
      MulMono(b.depth + 1, a.depth, steplen);
      Distrib(b.depth, steplen);
    }
  }

  /**
   * The children filter selects exactly the rows of the same tree whose path is
   * the node's path followed by one more segment.
   */
  lemma ChildrenIffSegment(steplen: nat, node: Row, r: Row)
    requires steplen > 0 && Shaped(node, steplen) && Shaped(r, steplen)
    ensures Children(steplen, node.treeId, node.path, node.depth, r) <==>
      r.treeId == node.treeId && IsPrefix(node.path, r.path) && |r.path| == |node.path| + steplen
  {
    ShapedAligned(node, steplen);
    ShapedAligned(r, steplen);
    DescendantsIffPrefix(steplen, node.treeId, node.path, false, r);
    DepthFromLength(node, r, steplen, 1);
  }

  /**
   * filter_ancestors and filter_descendants are converses: a is selected as an
   * ancestor of b exactly when b is selected as a descendant of a.
   */
  lemma AncestorsDescendantsDual(steplen: nat, a: Row, b: Row, andSelf: bool)
    requires steplen > 0 && Shaped(a, steplen) && Shaped(b, steplen)
    ensures Ancestors(b.treeId, b.path, b.depth, andSelf, a) <==>
      Descendants(steplen, a.treeId, a.path, andSelf, b)
  {
    ShapedAligned(a, steplen);
    ShapedAligned(b, steplen);
    DescendantsIffPrefix(steplen, a.treeId, a.path, andSelf, b);
    DepthFromLength(a, b, steplen, 0);
  }

  /** Where inc_path succeeds, the filter as written and the corrected one agree. */
  lemma DescendantsAgreeWhenIncrementable(steplen: nat, treeId: int, path: Path, andSelf: bool, r: Row)
    requires steplen > 0 && IsPath(path) && IncPath(path, steplen).Ok?
    ensures DescendantsAsWritten(steplen, treeId, path, andSelf, r) <==>
      Descendants(steplen, treeId, path, andSelf, r)
  {
  }

  /**
   * The children filter as written inherits the overmatch: with steplen 1,
   * under the parent "0Z" at depth 2 it takes in the row "100" at depth 3,
   * which is in the later subtree "1" and is not a child of "0Z".
   */
  lemma ChildrenAsWrittenOvermatches()
    ensures var r := Row(4, Some(3), 1, "100", 3);
      && ChildrenAsWritten(1, 1, "0Z", 2, r)
      && !IsPrefix("0Z", r.path)
      && !Children(1, 1, "0Z", 2, r)
  {
    var r := Row(4, Some(3), 1, "100", 3);
    BoundOf0Z();
    LcpAt("0Z", "100", 0);
    LcpAt("100", "1", 1);
  }

  /** With steplen 1, "0Z" cannot be incremented, and the successor of its parent "0" bounds it. */
  lemma BoundOf0Z()
    ensures IncPath("0Z", 1) == Err(PathOverflow)
    ensures UpperBound("0Z", 1) == Some("1")
  {
    assert Window("0Z", 1) == "Z" && StripMax("Z") == StripMax("") == [];
    assert "0Z"[..1] == "0";
    assert Window("0", 1) == "0" && StripMax("0") == "0";
    assert "0"[..0] + "0"[..0] + [Succ('0')] + Zeros(0) == "1";
  }

  /**
   * With steplen 1, the node "0Z" (the 36th child of "0") has no incrementable
   * last segment, so the filter as written has no upper bound and takes in the
   * next subtree "1" of the same tree.
   */
  lemma DescendantsAsWrittenOvermatches()
    ensures var r := Row(3, Some(1), 1, "1", 1);
      && DescendantsAsWritten(1, 1, "0Z", false, r)
      && !IsPrefix("0Z", r.path)
      && !Descendants(1, 1, "0Z", false, r)
  {
    var r := Row(3, Some(1), 1, "1", 1);
    BoundOf0Z();
    LcpAt("0Z", "1", 0);
    LexLessIrreflexive("1");
  }

  /** Python's from_path[:-steplen]: the path of the parent of the node at fromPath. */
  function ParentPath(fromPath: Path, steplen: nat): (pp: Path)
    requires steplen > 0
    ensures IsPrefix(pp, fromPath)
  {
    fromPath[..Cut(fromPath, steplen)]
  }

  /**
   * The upper bound of the sibling filter in _pull_nodes as written: none for
   * a child of a root, else inc_path of the parent path, whose overflow escapes.
   */
  function SiblingBoundAsWritten(fromPath: Path, steplen: nat): Result<Option<Path>>
    requires steplen > 0 && IsPath(fromPath)
  {
    var pp := ParentPath(fromPath, steplen);
    if pp == [] then Ok(None)
    else match IncPath(pp, steplen)
      case Ok(b) => Ok(Some(b))
      case Err(e) => Err(e)
  }

  /** The sibling filter of _pull_nodes, given its upper bound. */
  predicate SiblingsFromWithBound(treeId: int, fromPath: Path, depth: int, bound: Option<Path>, r: Row) {
    && r.treeId == treeId
    && LexLessEq(fromPath, r.path)
    && r.depth == depth
    && (bound.Some? ==> LexLess(r.path, bound.value))
  }

  /** The sibling filter with the parent's UpperBound, which always exists. */
  predicate SiblingsFrom(steplen: nat, treeId: int, fromPath: Path, depth: int, r: Row)
    requires steplen > 0 && IsPath(fromPath)
  {
    SiblingsFromWithBound(treeId, fromPath, depth, UpperBound(ParentPath(fromPath, steplen), steplen), r)
  }

  /** Where the filter as written gets a bound, it is the corrected one. */
  lemma {:induction false} SiblingBoundAgrees(fromPath: Path, steplen: nat)
    requires steplen > 0 && IsPath(fromPath) && SiblingBoundAsWritten(fromPath, steplen).Ok?
    ensures SiblingBoundAsWritten(fromPath, steplen).value == UpperBound(ParentPath(fromPath, steplen), steplen)
  {
    var pp := ParentPath(fromPath, steplen);
    if pp == [] {
      assert Window(pp, steplen) == [] && StripMax([]) == [];
    }
  }

  /**
   * The sibling filter selects exactly the rows of the same tree at the same
   * depth under the same parent path, from fromPath onwards.
   */
  lemma SiblingsFromIff(steplen: nat, node: Row, r: Row)
    requires steplen > 0 && Shaped(node, steplen) && node.depth >= 1 && Shaped(r, steplen)
    ensures SiblingsFrom(steplen, node.treeId, node.path, node.depth, r) <==>
      && r.treeId == node.treeId && r.depth == node.depth
      && IsPrefix(ParentPath(node.path, steplen), r.path)
      && LexLessEq(node.path, r.path)
  {
    var p, pp := node.path, ParentPath(node.path, steplen);
    MulMono(1, node.depth, steplen);
    ShapedAligned(node, steplen);
    ModStep(|p|, steplen);
    ShapedAligned(r, steplen);
    DescendantsIffPrefix(steplen, node.treeId, pp, false, r);
    PrefixLess(pp, p);
    if LexLess(p, r.path) {
      LexLessTransitive(pp, p, r.path);
    }
  }

  /**
   * With steplen 1, "Z0" is the first child of "Z", the 36th child of a root.
   * Pulling its siblings fails as written, since "Z" cannot be incremented,
   * while the corrected bound exists (there is none).
   */
  lemma SiblingBoundAsWrittenOverflows()
    ensures SiblingBoundAsWritten("Z0", 1) == Err(PathOverflow)
    ensures UpperBound(ParentPath("Z0", 1), 1) == None
  {
    assert ParentPath("Z0", 1) == "Z";
    assert Window("Z", 1) == "Z" && StripMax("Z") == StripMax("") == [];
  }
}
