/**
 * The mutations of MPClassManager as functions from the table before to the
 * table after (or the error raised): _reparent, detach_subtree,
 * delete_subtree and the four move_subtree_* operations.
 */
module Moves {
  import opened Wrappers
  import opened PathOrder
  import opened PathCodec
  import opened Rows
  import opened Filters
  import opened Updates
  import opened Pulls
  import opened Planner

  /** UPDATE ... SET parent_id = parentId WHERE pk = nodeId. */
  function SetParent(rows: seq<Row>, nodeId: int, parentId: Option<int>): (out: seq<Row>)
    ensures |out| == |rows|
  {
    seq(|rows|, i requires 0 <= i < |rows| =>
      if rows[i].id == nodeId then rows[i].(parentId := parentId) else rows[i])
  }

  /** Only the parent reference of the row nodeId changes. */
  lemma SetParentSpec(rows: seq<Row>, steplen: nat, nodeId: int, parentId: Option<int>)
    requires WellFormed(rows, steplen)
    ensures var out := SetParent(rows, nodeId, parentId);
      && WellFormed(out, steplen)
      && forall i :: 0 <= i < |rows| ==>
           && out[i].id == rows[i].id && out[i].treeId == rows[i].treeId
           && out[i].path == rows[i].path && out[i].depth == rows[i].depth
           && out[i].parentId == (if rows[i].id == nodeId then parentId else rows[i].parentId)
  {
  }

  /**
   * _reparent: set the parent reference, move the subtree with
   * _update_subtree, then pull the old siblings that followed it up one step.
   */
  function Reparented(rows: seq<Row>, steplen: nat, nodeId: int, parentId: Option<int>, m: Move): seq<Row>
    requires WellFormed(rows, steplen) && MoveShaped(m, steplen)
  {
    SetParentSpec(rows, steplen, nodeId, parentId);
    var linked := SetParent(rows, nodeId, parentId);
    RewriteSubtreeSpec(linked, m, steplen);
    var moved := RewriteSubtree(linked, m, steplen);
    PullPlanSpec(moved, steplen, true, m.oldTreeId, m.oldPath, m.oldDepth);
    ApplyMoves(moved, PullPlan(moved, steplen, true, m.oldTreeId, m.oldPath, m.oldDepth).value, steplen)
  }

  /**
   * _reparent, for a move whose old place is where the node is: the table
   * stays well formed with the same keys in the same order; the node gets
   * its new parent; its whole subtree lands in the new tree with depths
   * shifted by the move; no other parent reference changes, and no row of
   * another tree changes at all.
   */
  lemma ReparentedSpec(rows: seq<Row>, steplen: nat, node: Row, parentId: Option<int>, m: Move)
    requires WellFormed(rows, steplen) && MoveShaped(m, steplen) && node in rows
    requires node.treeId == m.oldTreeId && node.path == m.oldPath && node.depth == m.oldDepth
    ensures var out := Reparented(rows, steplen, node.id, parentId, m);
      && WellFormed(out, steplen) && |out| == |rows|
      && (forall i :: 0 <= i < |rows| ==> out[i].id == rows[i].id)
      && (forall i :: 0 <= i < |rows| && rows[i].id != node.id ==> out[i].parentId == rows[i].parentId)
      && (forall i :: 0 <= i < |rows| && rows[i].id == node.id ==>
            out[i].parentId == parentId && out[i].treeId == m.newTreeId && out[i].depth == m.newDepth)
      && (forall i :: 0 <= i < |rows| && InSubtree(rows[i], m.oldTreeId, m.oldPath) ==>
            out[i].treeId == m.newTreeId && out[i].depth == rows[i].depth - m.oldDepth + m.newDepth)
      && (forall i :: 0 <= i < |rows| && rows[i].treeId != m.oldTreeId ==> out[i] == rows[i])
      && (m.newTreeId != m.oldTreeId ==> forall i :: 0 <= i < |rows| && InSubtree(rows[i], m.oldTreeId, m.oldPath) ==>
            out[i].path == m.newPath + rows[i].path[|m.oldPath|..])
  {
    SetParentSpec(rows, steplen, node.id, parentId);
    var linked := SetParent(rows, node.id, parentId);
    RewriteSubtreeSpec(linked, m, steplen);
    var moved := RewriteSubtree(linked, m, steplen);
    PullPlanSpec(moved, steplen, true, m.oldTreeId, m.oldPath, m.oldDepth);
    var plan := PullPlan(moved, steplen, true, m.oldTreeId, m.oldPath, m.oldDepth).value;
    ApplyMovesSpec(moved, plan, steplen, m.oldTreeId);
    var out := ApplyMoves(moved, plan, steplen);
    assert out == Reparented(rows, steplen, node.id, parentId, m);
    LinkedMoved(rows, steplen, node, parentId, m);
  }

  /** What setting the parent and moving the subtree do to each row, before the pull. */
  lemma {:induction false} LinkedMoved(rows: seq<Row>, steplen: nat, node: Row, parentId: Option<int>, m: Move)
    requires WellFormed(rows, steplen) && MoveShaped(m, steplen) && node in rows
    requires node.treeId == m.oldTreeId && node.path == m.oldPath && node.depth == m.oldDepth
    ensures var moved := RewriteSubtree(SetParent(rows, node.id, parentId), m, steplen);
      forall i :: 0 <= i < |rows| ==>
        && (rows[i].id == node.id ==> rows[i] == node && InSubtree(rows[i], m.oldTreeId, m.oldPath))
        && (rows[i].treeId != m.oldTreeId ==> rows[i].id != node.id && moved[i] == rows[i])
        && (InSubtree(rows[i], m.oldTreeId, m.oldPath) ==>
              && moved[i].treeId == m.newTreeId && moved[i].depth == rows[i].depth - m.oldDepth + m.newDepth
              && moved[i].path == m.newPath + rows[i].path[|m.oldPath|..])
  {
    SetParentSpec(rows, steplen, node.id, parentId);
    var linked := SetParent(rows, node.id, parentId);
    RewriteSubtreeSpec(linked, m, steplen);
    var moved := RewriteSubtree(linked, m, steplen);
    forall i | 0 <= i < |rows|
      ensures rows[i].id == node.id ==> rows[i] == node
      ensures rows[i].treeId != m.oldTreeId ==> rows[i].id != node.id
    {
      if rows[i].id == node.id {
        FindUnique(rows, steplen, rows[i]);
        FindUnique(rows, steplen, node);
      }
    }
    forall i | 0 <= i < |rows|
      ensures InSubtree(rows[i], m.oldTreeId, m.oldPath) ==>
        moved[i].treeId == m.newTreeId && moved[i].depth == rows[i].depth - m.oldDepth + m.newDepth
      ensures rows[i].id == node.id ==> InSubtree(rows[i], m.oldTreeId, m.oldPath)
      ensures rows[i].treeId != m.oldTreeId ==> moved[i] == rows[i]
      ensures InSubtree(rows[i], m.oldTreeId, m.oldPath) ==> moved[i].path == m.newPath + rows[i].path[|m.oldPath|..]
    {
      RewriteRowSpec(linked[i], m, steplen);
    }
  }

  /**
   * detach_subtree: the node, which must have a parent (a truthy parent_id),
   * becomes the root of tree max(tree_id) + 1 with the empty path at depth 0.
   */
  function Detached(rows: seq<Row>, steplen: nat, nodeId: int): seq<Row>
    requires WellFormed(rows, steplen) && Find(rows, nodeId).Some?
  {
    Reparented(rows, steplen, nodeId, None, DetachMove(rows, steplen, nodeId))
  }

  /** The move of detach_subtree: from the node's place to the root of tree max(tree_id) + 1. */
  function DetachMove(rows: seq<Row>, steplen: nat, nodeId: int): (m: Move)
    requires WellFormed(rows, steplen) && Find(rows, nodeId).Some?
    ensures MoveShaped(m, steplen)
  {
    var node := Find(rows, nodeId).value;
    MemberShaped(rows, steplen, node);
    Move(MaxTreeId(rows).value + 1, [], 0, node.treeId, node.path, node.depth)
  }

  /**
   * After detach_subtree the node is a root in a tree no row used before,
   * and its subtree came along, re-rooted at the empty path with depths
   * counted from the node; keys stay, no other parent changes, the other
   * trees are untouched.
   */
  lemma {:induction false} DetachedSpec(rows: seq<Row>, steplen: nat, nodeId: int)
    requires WellFormed(rows, steplen) && Find(rows, nodeId).Some?
    requires Find(rows, nodeId).value.parentId.Some? && Find(rows, nodeId).value.parentId.value != 0
    ensures var node, out := Find(rows, nodeId).value, Detached(rows, steplen, nodeId);
      var t := MaxTreeId(rows).value + 1;
      && WellFormed(out, steplen) && |out| == |rows|
      && (forall r :: r in rows ==> r.treeId < t)
      && (forall i :: 0 <= i < |rows| ==> out[i].id == rows[i].id)
      && (forall i :: 0 <= i < |rows| && rows[i].id != nodeId ==> out[i].parentId == rows[i].parentId)
      && (forall i :: 0 <= i < |rows| && rows[i].id == nodeId ==>
            out[i].parentId == None && out[i].treeId == t && out[i].path == [] && out[i].depth == 0)
      && (forall i :: 0 <= i < |rows| && InSubtree(rows[i], node.treeId, node.path) ==>
            out[i].treeId == t && out[i].path == rows[i].path[|node.path|..] && out[i].depth == rows[i].depth - node.depth)
      && (forall i :: 0 <= i < |rows| && rows[i].treeId != node.treeId ==> out[i] == rows[i])
  {
    var node := Find(rows, nodeId).value;
    MemberShaped(rows, steplen, node);
    var t := MaxTreeId(rows).value + 1;
    var m := DetachMove(rows, steplen, nodeId);
    assert m == Move(t, [], 0, node.treeId, node.path, node.depth);
    ReparentedSpec(rows, steplen, node, None, m);
    forall i | 0 <= i < |rows| && rows[i].id == nodeId ensures rows[i] == node {
      FindUnique(rows, steplen, rows[i]);
    }
    DetachedRows(rows, Detached(rows, steplen, nodeId), node, m);
  }

  /** DetachedSpec on the move of detach_subtree, given what ReparentedSpec says of it. */
  lemma DetachedRows(rows: seq<Row>, out: seq<Row>, node: Row, m: Move)
    requires m == Move(m.newTreeId, [], 0, node.treeId, node.path, node.depth) && m.newTreeId != node.treeId
    requires forall i :: 0 <= i < |rows| && rows[i].id == node.id ==> rows[i] == node
    requires |out| == |rows|
    requires forall i :: 0 <= i < |rows| && rows[i].id == node.id ==> out[i].treeId == m.newTreeId && out[i].depth == m.newDepth
    requires forall i :: 0 <= i < |rows| && InSubtree(rows[i], m.oldTreeId, m.oldPath) ==>
      out[i].treeId == m.newTreeId && out[i].depth == rows[i].depth - m.oldDepth + m.newDepth
      && out[i].path == m.newPath + rows[i].path[|m.oldPath|..]
    ensures forall i :: 0 <= i < |rows| && rows[i].id == node.id ==> out[i].path == []
    ensures forall i :: 0 <= i < |rows| && InSubtree(rows[i], node.treeId, node.path) ==>
      out[i].treeId == m.newTreeId && out[i].path == rows[i].path[|node.path|..] && out[i].depth == rows[i].depth - node.depth
  {
    forall i | 0 <= i < |rows| && rows[i].id == node.id
      ensures InSubtree(rows[i], node.treeId, node.path) && rows[i].path[|node.path|..] == []
    {
      assert node.path[..|node.path|] == node.path;
    }
    forall i | 0 <= i < |rows| && InSubtree(rows[i], node.treeId, node.path)
      ensures rows[i].path[|node.path|..] == [] + rows[i].path[|node.path|..]
    {
    }
  }

  /** The rows delete_subtree keeps: those the descendants filter (and_self) does not select. */
  function Kept(rows: seq<Row>, steplen: nat, node: Row): seq<Row>
    requires steplen > 0 && IsPath(node.path)
  {
    Filter(rows, r => !Descendants(steplen, node.treeId, node.path, true, r))
  }

  /** delete_subtree: DELETE the subtree, then pull the following siblings up. */
  function Deleted(rows: seq<Row>, steplen: nat, nodeId: int): seq<Row>
    requires WellFormed(rows, steplen) && Find(rows, nodeId).Some?
  {
    var node := Find(rows, nodeId).value;
    MemberShaped(rows, steplen, node);
    var kept := Kept(rows, steplen, node);
    FilterWellFormed(rows, r => !Descendants(steplen, node.treeId, node.path, true, r), steplen);
    PullPlanSpec(kept, steplen, true, node.treeId, node.path, node.depth);
    ApplyMoves(kept, PullPlan(kept, steplen, true, node.treeId, node.path, node.depth).value, steplen)
  }

  /** The kept rows are the rows outside the node's subtree. */
  lemma KeptIff(rows: seq<Row>, steplen: nat, node: Row)
    requires WellFormed(rows, steplen) && node in rows
    ensures forall r :: r in Kept(rows, steplen, node) <==> r in rows && !InSubtree(r, node.treeId, node.path)
  {
    MemberShaped(rows, steplen, node);
    ShapedAligned(node, steplen);
    forall r | r in rows
      ensures Descendants(steplen, node.treeId, node.path, true, r) <==> InSubtree(r, node.treeId, node.path)
    {
      MemberShaped(rows, steplen, r);
      ShapedAligned(r, steplen);
      DescendantsIffPrefix(steplen, node.treeId, node.path, true, r);
    }
  }

  /**
   * After delete_subtree exactly the rows outside the node's subtree are
   * left, each with its key, parent, tree and depth; the rows of other
   * trees are left as they were.
   */
  lemma {:induction false} DeletedSpec(rows: seq<Row>, steplen: nat, nodeId: int)
    requires WellFormed(rows, steplen) && Find(rows, nodeId).Some?
    ensures var node, out := Find(rows, nodeId).value, Deleted(rows, steplen, nodeId);
      && WellFormed(out, steplen)
      && (forall i :: 0 <= i < |out| ==> Survivor(rows, node, out[i]))
      && (forall r :: r in rows && !InSubtree(r, node.treeId, node.path) ==>
            exists i :: 0 <= i < |out| && out[i].id == r.id)
      && (forall r :: r in rows && r.treeId != node.treeId ==> r in out)
  {
    var node := Find(rows, nodeId).value;
    MemberShaped(rows, steplen, node);
    var kept := Kept(rows, steplen, node);
    KeptIff(rows, steplen, node);
    FilterWellFormed(rows, r => !Descendants(steplen, node.treeId, node.path, true, r), steplen);
    PullPlanSpec(kept, steplen, true, node.treeId, node.path, node.depth);
    var plan := PullPlan(kept, steplen, true, node.treeId, node.path, node.depth).value;
    ApplyMovesSpec(kept, plan, steplen, node.treeId);
    var out := ApplyMoves(kept, plan, steplen);
    assert out == Deleted(rows, steplen, nodeId);
    Survivors(rows, kept, out, node);
  }

  /** x is a row r outside the node's subtree, with r's key, parent, tree and depth. */
  ghost predicate Survivor(rows: seq<Row>, node: Row, x: Row) {
    exists r :: && r in rows && !InSubtree(r, node.treeId, node.path)
                && r.id == x.id && r.parentId == x.parentId
                && r.treeId == x.treeId && r.depth == x.depth
  }

  lemma Survivors(rows: seq<Row>, kept: seq<Row>, out: seq<Row>, node: Row)
    requires forall r :: r in kept <==> r in rows && !InSubtree(r, node.treeId, node.path)
    requires SameKeys(kept, out) && SameLevels(kept, out)
    requires forall i :: 0 <= i < |kept| && kept[i].treeId != node.treeId ==> out[i] == kept[i]
    ensures forall i :: 0 <= i < |out| ==> Survivor(rows, node, out[i])
    ensures forall r :: r in rows && !InSubtree(r, node.treeId, node.path) ==>
      exists i :: 0 <= i < |out| && out[i].id == r.id
    ensures forall r :: r in rows && r.treeId != node.treeId ==> r in out
  {
    forall i | 0 <= i < |out| ensures Survivor(rows, node, out[i]) {
      var r := kept[i];
      assert r in kept;
      assert r in rows && !InSubtree(r, node.treeId, node.path);
      assert r.id == out[i].id && r.parentId == out[i].parentId && r.treeId == out[i].treeId && r.depth == out[i].depth;
    }
    forall r | r in rows && !InSubtree(r, node.treeId, node.path)
      ensures exists i :: 0 <= i < |out| && out[i].id == r.id
      ensures r.treeId != node.treeId ==> r in out
    {
      assert r in kept;
      var i :| 0 <= i < |kept| && kept[i] == r;
      assert out[i].id == r.id;
    }
  }

  /** Two tables with the same keys and levels find the same node at the same level. */
  lemma {:induction false} FindAcross(a: seq<Row>, b: seq<Row>, id: int)
    requires SameKeys(a, b) && SameLevels(a, b) && Find(a, id).Some?
    ensures Find(b, id).Some?
    ensures Find(b, id).value.parentId == Find(a, id).value.parentId
    ensures Find(b, id).value.treeId == Find(a, id).value.treeId
    ensures Find(b, id).value.depth == Find(a, id).value.depth
  {
    if a[0].id != id {
      assert SameKeys(a[1..], b[1..]) && SameLevels(a[1..], b[1..]);
      FindAcross(a[1..], b[1..], id);
    }
  }

  /**
   * The landing sequence shared by move_subtree_before/after and
   * move_subtree_to_top: pull down the siblings from target on, re-read the
   * node's path (the pull may have moved it), then _reparent it to target.
   */
  function Landed(rows: seq<Row>, steplen: nat, nodeId: int, parentId: Option<int>,
                  treeId: int, target: Path, depth: int): Result<seq<Row>>
    requires WellFormed(rows, steplen) && Find(rows, nodeId).Some?
    requires IsPath(target) && depth >= 0 && |target| == depth * steplen
  {
    var node := Find(rows, nodeId).value;
    MemberShaped(rows, steplen, node);
    PullPlanSpec(rows, steplen, false, treeId, target, depth);
    match PullPlan(rows, steplen, false, treeId, target, depth)
    case Err(e) => Err(e)
    case Ok(plan) =>
      ApplyMovesSpec(rows, plan, steplen, treeId);
      var pulled := ApplyMoves(rows, plan, steplen);
      FindAcross(rows, pulled, nodeId);
      var current := Find(pulled, nodeId).value;
      MemberShaped(pulled, steplen, current);
      Ok(Reparented(pulled, steplen, nodeId, parentId, Move(treeId, target, depth, node.treeId, current.path, node.depth)))
  }

  /**
   * Landing fails exactly when the pull down overflows (TooManyChildren, the
   * table unchanged); otherwise the table stays well formed with the same
   * keys, the node has its new parent, tree and depth, and no other parent
   * reference changes.
   */
  lemma {:induction false} LandedSpec(rows: seq<Row>, steplen: nat, nodeId: int, parentId: Option<int>,
                   treeId: int, target: Path, depth: int)
    requires WellFormed(rows, steplen) && Find(rows, nodeId).Some?
    requires IsPath(target) && depth >= 0 && |target| == depth * steplen
    ensures var out := Landed(rows, steplen, nodeId, parentId, treeId, target, depth);
      && (out.Err? <==> PullPlan(rows, steplen, false, treeId, target, depth).Err?)
      && (out.Err? ==> out.error == TooManyChildren)
      && (out.Ok? ==> Placed(rows, out.value, steplen, nodeId, parentId, treeId, depth))
  {
    var node := Find(rows, nodeId).value;
    MemberShaped(rows, steplen, node);
    PullPlanSpec(rows, steplen, false, treeId, target, depth);
    if PullPlan(rows, steplen, false, treeId, target, depth).Ok? {
      var plan := PullPlan(rows, steplen, false, treeId, target, depth).value;
      ApplyMovesSpec(rows, plan, steplen, treeId);
      var pulled := ApplyMoves(rows, plan, steplen);
      FindAcross(rows, pulled, nodeId);
      var current := Find(pulled, nodeId).value;
      MemberShaped(pulled, steplen, current);
      var m := Move(treeId, target, depth, node.treeId, current.path, node.depth);
      ReparentedSpec(pulled, steplen, current, parentId, m);
      PlacedAfterPull(rows, pulled, Reparented(pulled, steplen, nodeId, parentId, m), steplen, nodeId, parentId, treeId, depth);
    }
  }

  /**
   * The outcome of a successful move of node nodeId: the table is well
   * formed with the same keys in the same order, the node has parent
   * parentId, tree treeId and depth depth, and every other row keeps its
   * parent reference.
   */
  ghost predicate Placed(rows: seq<Row>, out: seq<Row>, steplen: nat, nodeId: int, parentId: Option<int>, treeId: int, depth: int) {
    && WellFormed(out, steplen) && |out| == |rows|
    && (forall i :: 0 <= i < |rows| ==> out[i].id == rows[i].id)
    && (forall i :: 0 <= i < |rows| && rows[i].id != nodeId ==> out[i].parentId == rows[i].parentId)
    && (forall i :: 0 <= i < |rows| && rows[i].id == nodeId ==>
          out[i].parentId == parentId && out[i].treeId == treeId && out[i].depth == depth)
  }

  lemma PlacedAfterPull(rows: seq<Row>, pulled: seq<Row>, out: seq<Row>, steplen: nat,
                        nodeId: int, parentId: Option<int>, treeId: int, depth: int)
    requires SameKeys(rows, pulled)
    requires Placed(pulled, out, steplen, nodeId, parentId, treeId, depth)
    ensures Placed(rows, out, steplen, nodeId, parentId, treeId, depth)
  {
  }

  /**
   * _prepare_to_move_subtree refuses an anchor in the same tree whose path
   * starts with the node's path: the node itself or one of its descendants.
   */
  predicate IntoOwnSubtree(node: Row, anchor: Row) {
    node.treeId == anchor.treeId && IsPrefix(node.path, anchor.path)
  }

  /** The refused anchors are exactly the node's descendants-or-self by the descendants filter. */
  lemma IntoOwnSubtreeIff(steplen: nat, node: Row, anchor: Row)
    requires steplen > 0 && Shaped(node, steplen) && Shaped(anchor, steplen)
    ensures IntoOwnSubtree(node, anchor) <==> Descendants(steplen, node.treeId, node.path, true, anchor)
  {
    ShapedAligned(node, steplen);
    ShapedAligned(anchor, steplen);
    DescendantsIffPrefix(steplen, node.treeId, node.path, true, anchor);
  }

  /** Which side of its anchor _move_subtree_by_sibling puts the node on. */
  datatype Side = Before | After

  /** The path the node lands on: the anchor's own, or inc_path of it. */
  function SiblingTarget(anchor: Row, side: Side, steplen: nat): (t: Result<Path>)
    requires steplen > 0 && IsPath(anchor.path)
    ensures t.Ok? ==> IsPath(t.value)
  {
    if side == After then IncPathIsPath(anchor.path, steplen); IncPath(anchor.path, steplen) else Ok(anchor.path)
  }

  /**
   * move_subtree_before / move_subtree_after (whose anchor must have a
   * parent): refused for a descendant anchor; after the anchor, the overflow
   * of inc_path on its path escapes as PathOverflowError; then the node lands
   * on the target at the anchor's depth, under the anchor's parent.
   */
  function MovedBySibling(rows: seq<Row>, steplen: nat, side: Side, nodeId: int, anchorId: int): Result<seq<Row>>
    requires WellFormed(rows, steplen) && Find(rows, nodeId).Some? && Find(rows, anchorId).Some?
  {
    var node, anchor := Find(rows, nodeId).value, Find(rows, anchorId).value;
    MemberShaped(rows, steplen, anchor);
    if IntoOwnSubtree(node, anchor) then Err(MovingToDescendant)
    else
      SiblingTargetShape(anchor, side, steplen);
      match SiblingTarget(anchor, side, steplen)
      case Err(e) => Err(e)
      case Ok(target) => Landed(rows, steplen, nodeId, anchor.parentId, anchor.treeId, target, anchor.depth)
  }

  /** MovedBySibling case by case: the descendant check, the failing target, the landing on the target. */
  lemma MovedBySiblingCases(rows: seq<Row>, steplen: nat, side: Side, nodeId: int, anchorId: int)
    requires WellFormed(rows, steplen) && Find(rows, nodeId).Some? && Find(rows, anchorId).Some?
    ensures var node, anchor := Find(rows, nodeId).value, Find(rows, anchorId).value;
      var out := MovedBySibling(rows, steplen, side, nodeId, anchorId);
      && Shaped(anchor, steplen)
      && (IntoOwnSubtree(node, anchor) ==> out == Err(MovingToDescendant))
      && (!IntoOwnSubtree(node, anchor) ==>
            var t := SiblingTarget(anchor, side, steplen);
            && (t.Err? ==> out == Err(t.error))
            && (t.Ok? ==> IsPath(t.value) && |t.value| == anchor.depth * steplen
                          && out == Landed(rows, steplen, nodeId, anchor.parentId, anchor.treeId, t.value, anchor.depth)))
  {
    var anchor := Find(rows, anchorId).value;
    MemberShaped(rows, steplen, anchor);
    SiblingTargetShape(anchor, side, steplen);
  }

  /** The target fails only after the anchor, exactly when its last segment is all 'Z'; it is a path at the anchor's depth. */
  lemma SiblingTargetShape(anchor: Row, side: Side, steplen: nat)
    requires steplen > 0 && Shaped(anchor, steplen)
    ensures var t := SiblingTarget(anchor, side, steplen);
      && (t.Err? <==> side == After && forall i :: Cut(anchor.path, steplen) <= i < |anchor.path| ==> anchor.path[i] == 'Z')
      && (t.Err? ==> t.error == PathOverflow)
      && (t.Ok? ==> IsPath(t.value) && |t.value| == anchor.depth * steplen)
      && (t.Ok? && side == After ==> LexLess(anchor.path, t.value))
  {
    if side == After {
      AfterTargetShape(anchor, steplen);
    }
  }

  /** The path after the anchor: inc_path of its path, with the same shape. */
  lemma AfterTargetShape(anchor: Row, steplen: nat)
    requires steplen > 0 && Shaped(anchor, steplen)
    ensures var t := IncPath(anchor.path, steplen);
      && (t.Err? <==> forall i :: Cut(anchor.path, steplen) <= i < |anchor.path| ==> anchor.path[i] == 'Z')
      && (t.Err? ==> t.error == PathOverflow)
      && (t.Ok? ==> IsPath(t.value) && |t.value| == anchor.depth * steplen && LexLess(anchor.path, t.value))
  {
    IncPathOverflowIff(anchor.path, steplen);
    if IncPath(anchor.path, steplen).Ok? {
      AfterPathShape(anchor, steplen);
    } else {
      assert IncPath(anchor.path, steplen).error == PathOverflow;
    }
  }

  /** A successful inc_path of the anchor's path keeps its length and follows it. */
  lemma AfterPathShape(anchor: Row, steplen: nat)
    requires steplen > 0 && Shaped(anchor, steplen) && IncPath(anchor.path, steplen).Ok?
    ensures var r := IncPath(anchor.path, steplen).value;
      IsPath(r) && |r| == anchor.depth * steplen && LexLess(anchor.path, r)
  {
    IncPathKeepsLength(anchor.path, steplen);
    WholeSegments(anchor.depth, steplen);
    IncPathGreater(anchor.path, steplen);
  }

  /**
   * The errors of move_subtree_before/after, each exactly when the source
   * raises it, and where a successful move puts the node: under the anchor's
   * parent, in the anchor's tree, at the anchor's depth.
   */
  lemma {:induction false} MovedBySiblingSpec(rows: seq<Row>, steplen: nat, side: Side, nodeId: int, anchorId: int)
    requires WellFormed(rows, steplen) && Find(rows, nodeId).Some? && Find(rows, anchorId).Some?
    ensures var node, anchor := Find(rows, nodeId).value, Find(rows, anchorId).value;
      var out, target := MovedBySibling(rows, steplen, side, nodeId, anchorId), SiblingTarget(anchor, side, steplen);
      && (out == Err(MovingToDescendant) <==> IntoOwnSubtree(node, anchor))
      && (out == Err(PathOverflow) <==> !IntoOwnSubtree(node, anchor) && target.Err?)
      && (out == Err(TooManyChildren) <==>
            && !IntoOwnSubtree(node, anchor) && target.Ok? && IsPath(target.value)
            && PullPlan(rows, steplen, false, anchor.treeId, target.value, anchor.depth).Err?)
      && (out.Ok? ==> Placed(rows, out.value, steplen, nodeId, anchor.parentId, anchor.treeId, anchor.depth))
  {
    var node, anchor := Find(rows, nodeId).value, Find(rows, anchorId).value;
    MemberShaped(rows, steplen, anchor);
    SiblingTargetShape(anchor, side, steplen);
    var target := SiblingTarget(anchor, side, steplen);
    if IntoOwnSubtree(node, anchor) {
      assert MovedBySibling(rows, steplen, side, nodeId, anchorId) == Err(MovingToDescendant);
    } else if target.Err? {
      assert MovedBySibling(rows, steplen, side, nodeId, anchorId) == Err(PathOverflow);
    } else {
      LandedSpec(rows, steplen, nodeId, anchor.parentId, anchor.treeId, target.value, anchor.depth);
      assert MovedBySibling(rows, steplen, side, nodeId, anchorId) ==
        Landed(rows, steplen, nodeId, anchor.parentId, anchor.treeId, target.value, anchor.depth);
    }
  }

  /** A segment of '0's is the least segment: the first slot comes before every child path. */
  lemma FirstSlotLeast(parentPath: Path, w: Path, steplen: nat)
    requires IsPath(w) && |w| == steplen
    ensures LexLessEq(parentPath + Zeros(steplen), parentPath + w)
  {
    var z := Zeros(steplen);
    if w != z {
      var k := Lcp(z, w);
      assert k < steplen && z[k] != w[k];
      var a, b, n := parentPath + z, parentPath + w, |parentPath|;
      assert a[..n + k] == parentPath + z[..k] && b[..n + k] == parentPath + w[..k];
      assert a[n + k] == z[k] == '0' && b[n + k] == w[k];
      assert IsSymbol(w[k]);
      LexLessAt(a, b, n + k);
    }
  }

  /** The parent's first child slot: its path and a segment of '0's. */
  function FirstChildPath(parentPath: Path, steplen: nat): (p: Path)
    ensures |p| == |parentPath| + steplen
    ensures IsPath(parentPath) ==> IsPath(p)
  {
    parentPath + Zeros(steplen)
  }

  /** Where move_subtree_to_top puts the node: the parent's first slot, one level below it. */
  function TopSlot(parent: Row, steplen: nat): (p: Placement)
    requires steplen > 0 && Shaped(parent, steplen)
    ensures IsPath(p.path) && p.depth >= 0 && |p.path| == p.depth * steplen
  {
    Distrib(parent.depth, steplen);
    Placement(parent.treeId, FirstChildPath(parent.path, steplen), parent.depth + 1)
  }

  /**
   * The top slot is a child slot of the parent that comes before every
   * child path the parent can have.
   */
  lemma TopSlotFirst(parent: Row, steplen: nat, child: Path)
    requires steplen > 0 && Shaped(parent, steplen)
    requires IsPath(child) && IsPrefix(parent.path, child) && |child| == |parent.path| + steplen
    ensures var p := TopSlot(parent, steplen);
      && p.treeId == parent.treeId && p.depth == parent.depth + 1
      && IsPrefix(parent.path, p.path) && |p.path| == |parent.path| + steplen
      && LexLessEq(p.path, child)
  {
    var w := child[|parent.path|..];
    assert child == parent.path + w;
    assert IsPath(w) by {
      forall i | 0 <= i < |w| ensures IsSymbol(w[i]) {
        assert w[i] == child[|parent.path| + i];
      }
    }
    FirstSlotLeast(parent.path, w, steplen);
    assert (parent.path + Zeros(steplen))[..|parent.path|] == parent.path;
  }

  /**
   * move_subtree_to_top: refused for a descendant new parent; otherwise the
   * node lands on the parent's first slot.
   */
  function MovedToTop(rows: seq<Row>, steplen: nat, nodeId: int, parentId: int): Result<seq<Row>>
    requires WellFormed(rows, steplen) && Find(rows, nodeId).Some? && Find(rows, parentId).Some?
  {
    var node, parent := Find(rows, nodeId).value, Find(rows, parentId).value;
    MemberShaped(rows, steplen, parent);
    if IntoOwnSubtree(node, parent) then Err(MovingToDescendant)
    else
      var p := TopSlot(parent, steplen);
      Landed(rows, steplen, nodeId, Some(parentId), p.treeId, p.path, p.depth)
  }

  /**
   * The errors of move_subtree_to_top, each exactly when the source raises
   * it, and where a successful move puts the node: a child of the new
   * parent, in its tree, one level below it.
   */
  lemma {:induction false} MovedToTopSpec(rows: seq<Row>, steplen: nat, nodeId: int, parentId: int)
    requires WellFormed(rows, steplen) && Find(rows, nodeId).Some? && Find(rows, parentId).Some?
    ensures var node, parent := Find(rows, nodeId).value, Find(rows, parentId).value;
      var out := MovedToTop(rows, steplen, nodeId, parentId);
      && (out == Err(MovingToDescendant) <==> IntoOwnSubtree(node, parent))
      && (out == Err(TooManyChildren) <==>
            && !IntoOwnSubtree(node, parent) && Shaped(parent, steplen)
            && PullPlan(rows, steplen, false, parent.treeId, TopSlot(parent, steplen).path, parent.depth + 1).Err?)
      && (out.Err? ==> out.error == MovingToDescendant || out.error == TooManyChildren)
      && (out.Ok? ==> Placed(rows, out.value, steplen, nodeId, Some(parentId), parent.treeId, parent.depth + 1))
  {
    var node, parent := Find(rows, nodeId).value, Find(rows, parentId).value;
    MemberShaped(rows, steplen, parent);
    var p := TopSlot(parent, steplen);
    GuardedLanding(rows, steplen, nodeId, IntoOwnSubtree(node, parent), Some(parentId), p.treeId,
      p.path, p.depth, MovedToTop(rows, steplen, nodeId, parentId));
  }

  /** A landing preceded by the descendant check. */
  lemma {:induction false} GuardedLanding(rows: seq<Row>, steplen: nat, nodeId: int, refused: bool, parentId: Option<int>,
                       treeId: int, target: Path, depth: int, out: Result<seq<Row>>)
    requires WellFormed(rows, steplen) && Find(rows, nodeId).Some?
    requires IsPath(target) && depth >= 0 && |target| == depth * steplen
    requires out == if refused then Err(MovingToDescendant) else Landed(rows, steplen, nodeId, parentId, treeId, target, depth)
    ensures out == Err(MovingToDescendant) <==> refused
    ensures out == Err(TooManyChildren) <==> !refused && PullPlan(rows, steplen, false, treeId, target, depth).Err?
    ensures out.Err? ==> out.error == MovingToDescendant || out.error == TooManyChildren
    ensures out.Ok? ==> Placed(rows, out.value, steplen, nodeId, parentId, treeId, depth)
  {
    if !refused {
      LandedSpec(rows, steplen, nodeId, parentId, treeId, target, depth);
    }
  }

  /** The path column of a selection. */
  function PathsOf(rs: seq<Row>): (ps: seq<Path>)
    ensures |ps| == |rs| && forall i :: 0 <= i < |rs| ==> ps[i] == rs[i].path
  {
    seq(|rs|, i requires 0 <= i < |rs| => rs[i].path)
  }

  /** r sits one segment below parent in parent's tree. */
  predicate ChildRow(parent: Row, r: Row, steplen: nat) {
    r.treeId == parent.treeId && IsPrefix(parent.path, r.path) && |r.path| == |parent.path| + steplen
  }

  /** The path of the last row the children filter selects (ORDER BY path DESC LIMIT 1). */
  function LastChild(rows: seq<Row>, steplen: nat, parent: Row): Option<Path>
    requires steplen > 0 && IsPath(parent.path)
  {
    MaxPath(PathsOf(Filter(rows, r => Children(steplen, parent.treeId, parent.path, parent.depth, r))))
  }

  /** LastChild is None without children, else the greatest child path. */
  lemma LastChildSpec(rows: seq<Row>, steplen: nat, parent: Row)
    requires WellFormed(rows, steplen) && Shaped(parent, steplen)
    ensures var last := LastChild(rows, steplen, parent);
      && (last.None? <==> forall r :: r in rows ==> !ChildRow(parent, r, steplen))
      && (last.Some? ==> IsPath(last.value) && IsPrefix(parent.path, last.value) && |last.value| == |parent.path| + steplen)
      && (last.Some? ==> forall r :: r in rows && ChildRow(parent, r, steplen) ==> LexLessEq(r.path, last.value))
  {
    var sel := Filter(rows, r => Children(steplen, parent.treeId, parent.path, parent.depth, r));
    forall r | r in rows ensures Children(steplen, parent.treeId, parent.path, parent.depth, r) <==> ChildRow(parent, r, steplen) {
      MemberShaped(rows, steplen, r);
      ChildrenIffSegment(steplen, parent, r);
    }
    var ps := PathsOf(sel);
    MaxPathIsMax(ps);
    forall r | r in sel ensures r.path in ps {
      var i :| 0 <= i < |sel| && sel[i] == r;
      assert ps[i] == r.path;
    }
    var last := MaxPath(ps);
    if last.Some? {
      var i :| 0 <= i < |ps| && ps[i] == last.value;
      assert sel[i] in sel;
      MemberShaped(rows, steplen, sel[i]);
    }
  }

  /**
   * Where move_subtree_to_bottom puts the node: the slot after the parent's
   * last child (its first slot without children), whose overflow is
   * TooManyChildren.
   */
  function BottomSlot(rows: seq<Row>, steplen: nat, parent: Row): (p: Result<Placement>)
    requires WellFormed(rows, steplen) && Shaped(parent, steplen)
    ensures p.Ok? ==> IsPath(p.value.path) && p.value.depth >= 0 && |p.value.path| == p.value.depth * steplen
  {
    LastChildSpec(rows, steplen, parent);
    NextChildPathSpec(parent.path, LastChild(rows, steplen, parent), steplen);
    Distrib(parent.depth, steplen);
    match NextChildPath(parent.path, LastChild(rows, steplen, parent), steplen)
    case Ok(path) => Ok(Placement(parent.treeId, path, parent.depth + 1))
    case Err(_) => Err(TooManyChildren)
  }

  /**
   * The bottom slot fails exactly when the last child's segment is all 'Z';
   * otherwise it is a child slot of the parent after every child it has.
   */
  lemma BottomSlotSpec(rows: seq<Row>, steplen: nat, parent: Row)
    requires WellFormed(rows, steplen) && Shaped(parent, steplen)
    ensures var slot, last := BottomSlot(rows, steplen, parent), LastChild(rows, steplen, parent);
      && (slot.Err? <==> last.Some? && forall i :: |parent.path| <= i < |last.value| ==> last.value[i] == 'Z')
      && (slot.Err? ==> slot.error == TooManyChildren)
      && (slot.Ok? ==>
            && slot.value.treeId == parent.treeId && slot.value.depth == parent.depth + 1
            && IsPrefix(parent.path, slot.value.path) && |slot.value.path| == |parent.path| + steplen
            && forall r :: r in rows && ChildRow(parent, r, steplen) ==> LexLess(r.path, slot.value.path))
  {
    LastChildSpec(rows, steplen, parent);
    var last := LastChild(rows, steplen, parent);
    NextChildPathSpec(parent.path, last, steplen);
    var slot := BottomSlot(rows, steplen, parent);
    if slot.Ok? && last.Some? {
      forall r | r in rows && ChildRow(parent, r, steplen) ensures LexLess(r.path, slot.value.path) {
        if r.path != last.value {
          LexLessTransitive(r.path, last.value, slot.value.path);
        }
      }
    }
  }

  /**
   * move_subtree_to_bottom: refused for a descendant new parent; otherwise
   * the node goes to the bottom slot with _reparent, nothing being pulled down.
   */
  function MovedToBottom(rows: seq<Row>, steplen: nat, nodeId: int, parentId: int): Result<seq<Row>>
    requires WellFormed(rows, steplen) && Find(rows, nodeId).Some? && Find(rows, parentId).Some?
  {
    var node, parent := Find(rows, nodeId).value, Find(rows, parentId).value;
    MemberShaped(rows, steplen, node);
    MemberShaped(rows, steplen, parent);
    if IntoOwnSubtree(node, parent) then Err(MovingToDescendant)
    else match BottomSlot(rows, steplen, parent)
      case Err(e) => Err(e)
      case Ok(p) => Ok(Reparented(rows, steplen, nodeId, Some(parentId), Move(p.treeId, p.path, p.depth, node.treeId, node.path, node.depth)))
  }

  /**
   * The errors of move_subtree_to_bottom, each exactly when the source
   * raises it, and where a successful move puts the node: a child of the
   * new parent, in its tree, one level below it.
   */
  lemma {:induction false} MovedToBottomSpec(rows: seq<Row>, steplen: nat, nodeId: int, parentId: int)
    requires WellFormed(rows, steplen) && Find(rows, nodeId).Some? && Find(rows, parentId).Some?
    ensures var node, parent := Find(rows, nodeId).value, Find(rows, parentId).value;
      var out := MovedToBottom(rows, steplen, nodeId, parentId);
      && (out == Err(MovingToDescendant) <==> IntoOwnSubtree(node, parent))
      && (out == Err(TooManyChildren) <==>
            && !IntoOwnSubtree(node, parent) && Shaped(parent, steplen)
            && BottomSlot(rows, steplen, parent).Err?)
      && (out.Err? ==> out.error == MovingToDescendant || out.error == TooManyChildren)
      && (out.Ok? ==> Placed(rows, out.value, steplen, nodeId, Some(parentId), parent.treeId, parent.depth + 1))
  {
    var node, parent := Find(rows, nodeId).value, Find(rows, parentId).value;
    MemberShaped(rows, steplen, node);
    MemberShaped(rows, steplen, parent);
    BottomSlotSpec(rows, steplen, parent);
    var slot := BottomSlot(rows, steplen, parent);
    if !IntoOwnSubtree(node, parent) && slot.Ok? {
      var p := slot.value;
      var m := Move(p.treeId, p.path, p.depth, node.treeId, node.path, node.depth);
      ReparentedSpec(rows, steplen, node, Some(parentId), m);
      assert MovedToBottom(rows, steplen, nodeId, parentId) == Ok(Reparented(rows, steplen, nodeId, Some(parentId), m));
    }
  }
}
