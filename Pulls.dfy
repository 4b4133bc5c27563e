/**
 * _pull_nodes as a plan of _update_subtree calls: the siblings from a path
 * onwards each take the place of their neighbour, one step up (closing a gap)
 * or one step down (opening one).
 */
module Pulls {
  import opened Wrappers
  import opened PathOrder
  import opened PathCodec
  import opened Rows
  import opened Filters
  import opened Updates

  /** The siblings _pull_nodes selects, ORDER BY path. */
  function Siblings(rows: seq<Row>, steplen: nat, treeId: int, fromPath: Path, depth: int): seq<Row>
    requires steplen > 0 && IsPath(fromPath)
  {
    SortByPath(Filter(rows, r => SiblingsFrom(steplen, treeId, fromPath, depth, r)))
  }

  /**
   * The selection holds, sorted by path, exactly the rows of the tree at the
   * depth of fromPath under its parent path and from fromPath onwards.
   */
  lemma SiblingsSpec(rows: seq<Row>, steplen: nat, node: Row)
    requires WellFormed(rows, steplen) && Shaped(node, steplen) && node.depth >= 1
    ensures var sib := Siblings(rows, steplen, node.treeId, node.path, node.depth);
      && SortedByPath(sib)
      && forall r :: r in sib <==>
           && r in rows && r.treeId == node.treeId && r.depth == node.depth
           && IsPrefix(ParentPath(node.path, steplen), r.path)
           && LexLessEq(node.path, r.path)
  {
    var f := r => SiblingsFrom(steplen, node.treeId, node.path, node.depth, r);
    var sel := Filter(rows, f);
    SortByPathSpec(sel);
    forall r | r in rows
      ensures f(r) <==>
        && r.treeId == node.treeId && r.depth == node.depth
        && IsPrefix(ParentPath(node.path, steplen), r.path)
        && LexLessEq(node.path, r.path)
    {
      SiblingsFromIff(steplen, node, r);
    }
    forall r ensures r in SortByPath(sel) <==> r in sel {
      assert r in SortByPath(sel) <==> r in multiset(SortByPath(sel));
    }
  }

  /** The selection in reverse path order (ORDER BY path DESC). */
  function Reverse(rs: seq<Row>): (out: seq<Row>)
    ensures |out| == |rs|
    ensures forall i :: 0 <= i < |rs| ==> out[i] == rs[|rs| - 1 - i]
  {
    seq(|rs|, i requires 0 <= i < |rs| => rs[|rs| - 1 - i])
  }

  /** Reversing keeps the same rows, and reversing twice gives the selection back. */
  lemma {:induction false} ReverseSpec(rs: seq<Row>)
    ensures multiset(Reverse(rs)) == multiset(rs)
    ensures Reverse(Reverse(rs)) == rs
  {
    if rs != [] {
      ReverseSpec(rs[1..]);
      assert Reverse(rs) == Reverse(rs[1..]) + [rs[0]];
      assert rs == [rs[0]] + rs[1..];
    }
  }

  /** Every node takes the path of the node before it; the first one takes first. */
  function Shift(nodes: seq<Row>, first: Path, treeId: int, depth: int): (ms: seq<Move>)
    ensures |ms| == |nodes|
    ensures forall k :: 0 <= k < |ms| ==> ms[k].oldPath == nodes[k].path
    ensures forall k :: 0 < k < |ms| ==> ms[k].newPath == nodes[k - 1].path
    ensures |ms| > 0 ==> ms[0].newPath == first
  {
    seq(|nodes|, i requires 0 <= i < |nodes| =>
      Move(treeId, if i == 0 then first else nodes[i - 1].path, depth, treeId, nodes[i].path, depth))
  }

  /**
   * The _update_subtree calls of _pull_nodes. Nothing for a root. Up: in path
   * order, the first sibling goes to fromPath. Down: see PullDown.
   */
  function PullPlan(rows: seq<Row>, steplen: nat, up: bool, treeId: int, fromPath: Path, depth: int): Result<seq<Move>>
    requires steplen > 0 && IsPath(fromPath) && WellFormed(rows, steplen)
  {
    if depth == 0 then Ok([])
    else
      var sib := Siblings(rows, steplen, treeId, fromPath, depth);
      SiblingsShaped(rows, steplen, treeId, fromPath, depth);
      if up then Ok(Shift(sib, fromPath, treeId, depth))
      else PullDown(sib, steplen, treeId, depth)
  }

  /**
   * Pulling down: in reverse path order, the last sibling goes to the
   * successor of its path, whose overflow is TooManyChildren and happens
   * before anything moves.
   */
  function PullDown(sib: seq<Row>, steplen: nat, treeId: int, depth: int): Result<seq<Move>>
    requires steplen > 0 && forall r :: r in sib ==> Shaped(r, steplen)
  {
    if sib == [] then Ok([])
    else
      var last := sib[|sib| - 1];
      assert last in sib && Shaped(last, steplen);
      match IncPath(last.path, steplen)
      case Ok(next) => Ok(Shift(Reverse(sib), next, treeId, depth))
      case Err(_) => Err(TooManyChildren)
  }

  lemma SiblingsShaped(rows: seq<Row>, steplen: nat, treeId: int, fromPath: Path, depth: int)
    requires steplen > 0 && IsPath(fromPath) && WellFormed(rows, steplen)
    ensures forall r :: r in Siblings(rows, steplen, treeId, fromPath, depth) ==>
      r in rows && Shaped(r, steplen) && r.treeId == treeId && r.depth == depth && LexLessEq(fromPath, r.path)
  {
    var sel := Filter(rows, r => SiblingsFrom(steplen, treeId, fromPath, depth, r));
    SortByPathSpec(sel);
    forall r | r in SortByPath(sel) ensures r in sel {
      assert r in multiset(SortByPath(sel));
    }
  }

  /** Moves among nodes of one level of one tree stay there and are shaped. */
  lemma ShiftShaped(nodes: seq<Row>, first: Path, treeId: int, depth: int, steplen: nat)
    requires forall r :: r in nodes ==> Shaped(r, steplen) && r.depth == depth
    requires IsPath(first) && depth >= 0 && |first| == depth * steplen
    ensures MovesShaped(Shift(nodes, first, treeId, depth), steplen)
    ensures forall k :: 0 <= k < |nodes| ==> StaysIn(Shift(nodes, first, treeId, depth)[k], treeId)
  {
    forall k | 0 <= k < |nodes| ensures MoveShaped(Shift(nodes, first, treeId, depth)[k], steplen) {
      assert nodes[k] in nodes;
      if k > 0 {
        assert nodes[k - 1] in nodes;
      }
    }
  }

  /** PullDown fails exactly on an overflow of the last sibling, and otherwise moves past it. */
  lemma PullDownSpec(sib: seq<Row>, steplen: nat, treeId: int, depth: int)
    requires steplen > 0 && depth > 0
    requires forall r :: r in sib ==> Shaped(r, steplen) && r.depth == depth
    ensures var plan := PullDown(sib, steplen, treeId, depth);
      && (plan.Err? <==> sib != [] && IncPath(sib[|sib| - 1].path, steplen).Err?)
      && (plan.Err? ==> plan.error == TooManyChildren)
      && (plan.Ok? ==> MovesShaped(plan.value, steplen) && forall k :: 0 <= k < |plan.value| ==> StaysIn(plan.value[k], treeId))
      && (plan.Ok? && sib != [] ==>
            && plan.value == Shift(Reverse(sib), IncPath(sib[|sib| - 1].path, steplen).value, treeId, depth)
            && LexLess(sib[|sib| - 1].path, IncPath(sib[|sib| - 1].path, steplen).value))
  {
    if sib != [] {
      var last := sib[|sib| - 1].path;
      assert sib[|sib| - 1] in sib;
      if IncPath(last, steplen).Ok? {
        MulMono(1, depth, steplen);
        IncPathShape(last, steplen);
        IncPathGreater(last, steplen);
        var rev := Reverse(sib);
        forall r | r in rev ensures r in sib {
          var k :| 0 <= k < |rev| && rev[k] == r;
          assert sib[|sib| - 1 - k] == r;
        }
        ShiftShaped(rev, IncPath(last, steplen).value, treeId, depth, steplen);
      }
    }
  }

  /**
   * Pulling up always succeeds, pulling down fails exactly when the last
   * sibling is the last possible child, and the planned moves stay among the
   * siblings: same tree, same depth, shaped paths.
   */
  lemma PullPlanSpec(rows: seq<Row>, steplen: nat, up: bool, treeId: int, fromPath: Path, depth: int)
    requires steplen > 0 && WellFormed(rows, steplen)
    requires IsPath(fromPath) && depth >= 0 && |fromPath| == depth * steplen
    ensures var plan, sib := PullPlan(rows, steplen, up, treeId, fromPath, depth), Siblings(rows, steplen, treeId, fromPath, depth);
      && (plan.Err? <==> !up && depth > 0 && sib != [] && IsPath(sib[|sib| - 1].path) && IncPath(sib[|sib| - 1].path, steplen).Err?)
      && (plan.Err? ==> plan.error == TooManyChildren)
      && (plan.Ok? ==> MovesShaped(plan.value, steplen) && forall k :: 0 <= k < |plan.value| ==> StaysIn(plan.value[k], treeId))
  {
    if depth > 0 {
      var sib := Siblings(rows, steplen, treeId, fromPath, depth);
      SiblingsShaped(rows, steplen, treeId, fromPath, depth);
      if up {
        ShiftShaped(sib, fromPath, treeId, depth, steplen);
      } else {
        PullDownSpec(sib, steplen, treeId, depth);
      }
    }
  }

  /**
   * The chain of moves: the k-th move takes the k-th node (in path order up,
   * in reverse path order down) to where the previous node was, the first to
   * fromPath (up) or to the successor of the last sibling (down). Up, every
   * node moves to an earlier or equal path; down, to a later or equal one and
   * the first strictly later, so no node lands on a sibling not yet moved.
   */
  lemma PullPlanChain(rows: seq<Row>, steplen: nat, up: bool, treeId: int, fromPath: Path, depth: int)
    requires steplen > 0 && WellFormed(rows, steplen)
    requires IsPath(fromPath) && depth > 0 && |fromPath| == depth * steplen
    requires PullPlan(rows, steplen, up, treeId, fromPath, depth).Ok?
    ensures var ms, sib := PullPlan(rows, steplen, up, treeId, fromPath, depth).value, Siblings(rows, steplen, treeId, fromPath, depth);
      var nodes := if up then sib else Reverse(sib);
      && |ms| == |sib|
      && (forall k :: 0 <= k < |ms| ==> ms[k].oldPath == nodes[k].path)
      && (forall k :: 0 < k < |ms| ==> ms[k].newPath == ms[k - 1].oldPath)
      && (up && ms != [] ==> ms[0].newPath == fromPath)
      && (!up && ms != [] ==> IsPath(sib[|sib| - 1].path) && Ok(ms[0].newPath) == IncPath(sib[|sib| - 1].path, steplen))
      && (up ==> forall k :: 0 <= k < |ms| ==> LexLessEq(ms[k].newPath, ms[k].oldPath))
      && (!up ==> forall k :: 0 < k < |ms| ==> LexLessEq(ms[k].oldPath, ms[k].newPath))
      && (!up && ms != [] ==> LexLess(ms[0].oldPath, ms[0].newPath))
  {
    var sib := Siblings(rows, steplen, treeId, fromPath, depth);
    SortByPathSpec(Filter(rows, r => SiblingsFrom(steplen, treeId, fromPath, depth, r)));
    SiblingsShaped(rows, steplen, treeId, fromPath, depth);
    if up {
      ShiftUp(sib, fromPath, treeId, depth);
    } else {
      PullDownSpec(sib, steplen, treeId, depth);
      if sib != [] {
        ShiftDown(sib, IncPath(sib[|sib| - 1].path, steplen).value, treeId, depth);
      }
    }
  }

  lemma ShiftUp(sib: seq<Row>, first: Path, treeId: int, depth: int)
    requires SortedByPath(sib) && forall r :: r in sib ==> LexLessEq(first, r.path)
    ensures var ms := Shift(sib, first, treeId, depth);
      forall k :: 0 <= k < |ms| ==> LexLessEq(ms[k].newPath, ms[k].oldPath)
  {
    var ms := Shift(sib, first, treeId, depth);
    forall k | 0 <= k < |ms| ensures LexLessEq(ms[k].newPath, ms[k].oldPath) {
      assert sib[k] in sib;
    }
  }

  lemma ShiftDown(sib: seq<Row>, next: Path, treeId: int, depth: int)
    requires SortedByPath(sib) && sib != [] && LexLess(sib[|sib| - 1].path, next)
    ensures var ms := Shift(Reverse(sib), next, treeId, depth);
      && (forall k :: 0 < k < |ms| ==> LexLessEq(ms[k].oldPath, ms[k].newPath))
      && LexLess(ms[0].oldPath, ms[0].newPath)
  {
    ReverseDescending(sib);
  }

  /** In reverse path order every node's path is at most the one before it. */
  lemma ReverseDescending(sib: seq<Row>)
    requires SortedByPath(sib)
    ensures var rev := Reverse(sib);
      forall k :: 0 < k < |rev| ==> LexLessEq(rev[k].path, rev[k - 1].path)
  {
    var n, rev := |sib|, Reverse(sib);
    forall k | 0 < k < n ensures LexLessEq(rev[k].path, rev[k - 1].path) {
      assert rev[k] == sib[n - 1 - k] && rev[k - 1] == sib[n - k];
    }
  }
}
