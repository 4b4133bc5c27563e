/**
 * MPClassManager: the mutation engine over one tree table. The table is a
 * sequence of rows in primary-key order that the methods replace statement by
 * statement; each method is proved to leave the table exactly as the
 * corresponding function of Moves, Pulls or Updates describes, and the
 * properties of the moves are proved about those functions.
 */
module Engine {
  import opened Wrappers
  import opened PathOrder
  import opened PathCodec
  import opened Rows
  import opened Filters
  import opened Updates
  import opened Pulls
  import opened Planner
  import opened Moves
  import opened Rebuild
  import opened Shifts
  import opened Places

  class Table {
    const steplen: nat
    var rows: seq<Row>

    /** Every row is shaped and the primary keys increase along the table. */
    ghost predicate Valid()
      reads this
    {
      WellFormed(rows, steplen)
    }

    constructor (steplen: nat, rows: seq<Row>)
      requires WellFormed(rows, steplen)
      ensures Valid() && this.steplen == steplen && this.rows == rows
    {
      this.steplen := steplen;
      this.rows := rows;
    }

    /** _update_subtree: one UPDATE over the descendants filter of the old place. */
    method UpdateSubtree(m: Move)
      requires Valid() && MoveShaped(m, steplen)
      modifies this
      ensures Valid() && rows == RewriteSubtree(old(rows), m, steplen)
    {
      RewriteSubtreeSpec(rows, m, steplen);
      rows := RewriteSubtree(rows, m, steplen);
    }

    /**
     * _pull_nodes: select the siblings from fromPath on, then move them one
     * by one, each to the place of its neighbour. Pulling down fails with
     * TooManyChildren, before anything moves, when the last sibling is the
     * last possible one.
     */
    method PullNodes(up: bool, treeId: int, fromPath: Path, depth: int) returns (out: Outcome)
      requires Valid() && IsPath(fromPath) && depth >= 0 && |fromPath| == depth * steplen
      modifies this
      ensures Valid()
      ensures var plan := PullPlan(old(rows), steplen, up, treeId, fromPath, depth);
        && (plan.Err? ==> out == Fail(plan.error) && rows == old(rows))
        && (plan.Ok? ==> MovesShaped(plan.value, steplen) && out == Done && rows == ApplyMoves(old(rows), plan.value, steplen))
      ensures depth >= 1 && old(UniquePaths(rows)) && out == Done ==>
        var sib := Siblings(old(rows), steplen, treeId, fromPath, depth);
        Shifted(old(rows), rows, treeId, sib, if up then UpDests(sib, fromPath) else DownDests(sib, NextOf(sib, fromPath, steplen)))
    {
      if depth == 0 {
        assert PullPlan(rows, steplen, up, treeId, fromPath, depth) == Ok([]);
        return Done;
      }
      var nodes := Siblings(rows, steplen, treeId, fromPath, depth);
      ghost var plan := PullPlan(rows, steplen, up, treeId, fromPath, depth);
      PullPlanSpec(rows, steplen, up, treeId, fromPath, depth);
      if UniquePaths(rows) {
        if up {
          PulledUp(rows, steplen, treeId, fromPath, depth);
        } else if plan.Ok? {
          PulledDown(rows, steplen, treeId, fromPath, depth);
        }
      }
      SiblingsShaped(rows, steplen, treeId, fromPath, depth);
      var prev: Path;
      if up {
        prev := fromPath;
        assert plan == Ok(Shift(nodes, prev, treeId, depth));
      } else {
        assert plan == PullDown(nodes, steplen, treeId, depth);
        PullDownSpec(nodes, steplen, treeId, depth);
        if nodes == [] {
          assert plan == Ok([]);
          return Done;
        }
        var last := nodes[|nodes| - 1];
        assert last in nodes;
        var next := IncPath(last.path, steplen);
        if next.Err? {
          return Fail(TooManyChildren);
        }
        prev := next.value;
        nodes := Reverse(nodes);
      }
      assert plan.value == Shift(nodes, prev, treeId, depth);
      ghost var rows0 := rows;
      ShiftAlong(nodes, prev, treeId, depth);
      assert rows == ApplyMoves(rows0, plan.value, steplen);
      return Done;
    }

    /**
     * The loop of _pull_nodes: every node in turn goes to prev, the place of
     * the node before it (first for the first one).
     */
    method ShiftAlong(nodes: seq<Row>, first: Path, treeId: int, depth: int)
      requires Valid() && MovesShaped(Shift(nodes, first, treeId, depth), steplen)
      modifies this
      ensures Valid() && rows == ApplyMoves(old(rows), Shift(nodes, first, treeId, depth), steplen)
    {
      ghost var ms, rows0 := Shift(nodes, first, treeId, depth), rows;
      var prev := first;
      for i := 0 to |nodes|
        invariant Valid() && MovesShaped(ms[..i], steplen)
        invariant rows == ApplyMoves(rows0, ms[..i], steplen)
        invariant prev == if i == 0 then first else nodes[i - 1].path
      {
        ApplyMovesStep(rows0, ms, i, steplen);
        assert ms[i] == Move(treeId, prev, depth, treeId, nodes[i].path, depth) && MoveShaped(ms[i], steplen);
        UpdateSubtree(Move(treeId, prev, depth, treeId, nodes[i].path, depth));
        prev := nodes[i].path;
      }
      assert ms[..|nodes|] == ms;
    }

    /**
     * _reparent: point the node at its new parent, move its subtree, then
     * pull the siblings that followed its old place up into the gap.
     */
    method Reparent(nodeId: int, parentId: Option<int>, m: Move)
      requires Valid() && MoveShaped(m, steplen)
      modifies this
      ensures Valid() && rows == Reparented(old(rows), steplen, nodeId, parentId, m)
      ensures old(UniquePaths(rows) && MoveClear(rows, m) && Find(rows, nodeId).Some?) &&
              old(Find(rows, nodeId)).value.treeId == m.oldTreeId && old(Find(rows, nodeId)).value.path == m.oldPath &&
              old(Find(rows, nodeId)).value.depth == m.oldDepth ==>
        ClosesGap(RewriteSubtree(SetParent(old(rows), nodeId, parentId), m, steplen), rows, steplen, m.oldTreeId, m.oldPath, m.oldDepth)
    {
      ghost var rows0 := rows;
      SetParentSpec(rows, steplen, nodeId, parentId);
      rows := SetParent(rows, nodeId, parentId);
      UpdateSubtree(m);
      PullPlanSpec(rows, steplen, true, m.oldTreeId, m.oldPath, m.oldDepth);
      var pulled := PullNodes(true, m.oldTreeId, m.oldPath, m.oldDepth);
      if UniquePaths(rows0) && MoveClear(rows0, m) && Find(rows0, nodeId).Some? {
        var node := Find(rows0, nodeId).value;
        if node.treeId == m.oldTreeId && node.path == m.oldPath && node.depth == m.oldDepth {
          ReparentedCloses(rows0, steplen, node, parentId, m);
        }
      }
    }

    /**
     * detach_subtree: the node, which must have a parent, becomes the root of
     * a new tree numbered max(tree_id) + 1.
     */
    method DetachSubtree(nodeId: int)
      requires Valid() && Find(rows, nodeId).Some?
      requires Find(rows, nodeId).value.parentId.Some? && Find(rows, nodeId).value.parentId.value != 0
      modifies this
      ensures Valid() && rows == Detached(old(rows), steplen, nodeId)
      ensures old(UniquePaths(rows)) ==>
        var node := old(Find(rows, nodeId)).value;
        ClosesGap(RewriteSubtree(SetParent(old(rows), nodeId, None), DetachMove(old(rows), steplen, nodeId), steplen),
                  rows, steplen, node.treeId, node.path, node.depth)
    {
      var node := Find(rows, nodeId).value;
      assert node in rows;
      ghost var rows0 := rows;
      var newTreeId := MaxTreeId(rows).value + 1;
      var m := Move(newTreeId, [], 0, node.treeId, node.path, node.depth);
      assert m == DetachMove(rows, steplen, nodeId);
      Reparent(nodeId, None, m);
      if UniquePaths(rows0) {
        DetachedCloses(rows0, steplen, nodeId);
      }
    }

    /**
     * delete_subtree: DELETE the node and its descendants, then close the
     * gap; with unique (tree_id, path) the following siblings each take the
     * place of the one before them.
     */
    method DeleteSubtree(nodeId: int)
      requires Valid() && Find(rows, nodeId).Some?
      modifies this
      ensures Valid() && rows == Deleted(old(rows), steplen, nodeId)
      ensures old(UniquePaths(rows)) ==>
        var node := old(Find(rows, nodeId)).value;
        ClosesGap(Kept(old(rows), steplen, node), rows, steplen, node.treeId, node.path, node.depth)
    {
      var node := Find(rows, nodeId).value;
      MemberShaped(rows, steplen, node);
      ghost var rows0 := rows;
      FilterWellFormed(rows, r => !Descendants(steplen, node.treeId, node.path, true, r), steplen);
      rows := Kept(rows, steplen, node);
      var pulled := PullNodes(true, node.treeId, node.path, node.depth);
      if UniquePaths(rows0) {
        DeletedCloses(rows0, steplen, nodeId);
      }
    }

    /**
     * The landing shared by the moves to a sibling place and to the top: pull
     * down from target, re-read the node's path, reparent it to target.
     */
    method Land(nodeId: int, parentId: Option<int>, treeId: int, target: Path, depth: int) returns (out: Outcome)
      requires Valid() && Find(rows, nodeId).Some?
      requires IsPath(target) && depth >= 0 && |target| == depth * steplen
      modifies this
      ensures Valid()
      ensures var res := Landed(old(rows), steplen, nodeId, parentId, treeId, target, depth);
        && (res.Ok? ==> out == Done && rows == res.value)
        && (res.Err? ==> out == Fail(res.error) && rows == old(rows))
    {
      var node := Find(rows, nodeId).value;
      MemberShaped(rows, steplen, node);
      ghost var rows0 := rows;
      var pulled := PullNodes(false, treeId, target, depth);
      if pulled.Fail? {
        return pulled;
      }
      ghost var plan := PullPlan(rows0, steplen, false, treeId, target, depth);
      PullPlanSpec(rows0, steplen, false, treeId, target, depth);
      ApplyMovesSpec(rows0, plan.value, steplen, treeId);
      FindAcross(rows0, rows, nodeId);
      var current := Find(rows, nodeId).value;
      MemberShaped(rows, steplen, current);
      Reparent(nodeId, parentId, Move(treeId, target, depth, node.treeId, current.path, node.depth));
      return Done;
    }

    /**
     * move_subtree_before / move_subtree_after: the anchor must have a parent;
     * the node takes the anchor's place, or the place after it. In a closed
     * table with unique (tree_id, path) and an anchor below a root, it
     * becomes the sibling right before, or right after, the anchor.
     */
    method MoveSubtreeBySibling(side: Side, nodeId: int, anchorId: int) returns (out: Outcome)
      requires Valid() && Find(rows, nodeId).Some? && Find(rows, anchorId).Some?
      requires Find(rows, anchorId).value.parentId.Some?
      modifies this
      ensures Valid()
      ensures var res := MovedBySibling(old(rows), steplen, side, nodeId, anchorId);
        && (res.Ok? ==> out == Done && rows == res.value)
        && (res.Err? ==> out == Fail(res.error) && rows == old(rows))
      ensures old(UniquePaths(rows) && Closed(rows, steplen) && Find(rows, anchorId).value.depth >= 1) && out == Done ==>
        && UniquePaths(rows)
        && forall a, c :: 0 <= a < |old(rows)| && 0 <= c < |old(rows)| && old(rows)[a].id == anchorId && old(rows)[c].id == nodeId ==>
             Beside(rows, side, a, c, steplen)
    {
      var node, anchor := Find(rows, nodeId).value, Find(rows, anchorId).value;
      MovedBySiblingCases(rows, steplen, side, nodeId, anchorId);
      ghost var rows0 := rows;
      if IntoOwnSubtree(node, anchor) {
        return Fail(MovingToDescendant);
      }
      var target := anchor.path;
      if side == After {
        var next := IncPath(anchor.path, steplen);
        if next.Err? {
          return Fail(next.error);
        }
        target := next.value;
      }
      assert SiblingTarget(anchor, side, steplen) == Ok(target);
      out := Land(nodeId, anchor.parentId, anchor.treeId, target, anchor.depth);
      if UniquePaths(rows0) && Closed(rows0, steplen) && anchor.depth >= 1 && out == Done {
        MovedBySiblingLeaves(rows0, rows, steplen, side, nodeId, anchorId);
      }
    }

    /**
     * move_subtree_to_top: the node lands on the first child slot of
     * parentId; in a closed table with unique (tree_id, path) it becomes the
     * first child of parentId and the index stays unique.
     */
    method MoveSubtreeToTop(nodeId: int, parentId: int) returns (out: Outcome)
      requires Valid() && Find(rows, nodeId).Some? && Find(rows, parentId).Some?
      modifies this
      ensures Valid()
      ensures var res := MovedToTop(old(rows), steplen, nodeId, parentId);
        && (res.Ok? ==> out == Done && rows == res.value)
        && (res.Err? ==> out == Fail(res.error) && rows == old(rows))
      ensures old(UniquePaths(rows) && Closed(rows, steplen)) && out == Done ==>
        && UniquePaths(rows)
        && forall p, c :: 0 <= p < |old(rows)| && 0 <= c < |old(rows)| && old(rows)[p].id == parentId && old(rows)[c].id == nodeId ==>
             FirstChildOf(rows, p, c, steplen)
    {
      var node, parent := Find(rows, nodeId).value, Find(rows, parentId).value;
      MemberShaped(rows, steplen, parent);
      ghost var rows0 := rows;
      if IntoOwnSubtree(node, parent) {
        return Fail(MovingToDescendant);
      }
      var slot := TopSlot(parent, steplen);
      out := Land(nodeId, Some(parentId), slot.treeId, slot.path, slot.depth);
      if UniquePaths(rows0) && Closed(rows0, steplen) {
        MovedToTopPlaces(rows0, steplen, nodeId, parentId);
      }
    }

    /**
     * move_subtree_to_bottom: the node lands on the slot after the last
     * child of parentId; nothing is pulled down. In a closed table with
     * unique (tree_id, path) it becomes the last child of parentId and the
     * index stays unique.
     */
    method MoveSubtreeToBottom(nodeId: int, parentId: int) returns (out: Outcome)
      requires Valid() && Find(rows, nodeId).Some? && Find(rows, parentId).Some?
      modifies this
      ensures Valid()
      ensures var res := MovedToBottom(old(rows), steplen, nodeId, parentId);
        && (res.Ok? ==> out == Done && rows == res.value)
        && (res.Err? ==> out == Fail(res.error) && rows == old(rows))
      ensures old(UniquePaths(rows) && Closed(rows, steplen)) && out == Done ==>
        && UniquePaths(rows)
        && forall p, c :: 0 <= p < |old(rows)| && 0 <= c < |old(rows)| && old(rows)[p].id == parentId && old(rows)[c].id == nodeId ==>
             LastChildOf(rows, p, c, steplen)
    {
      var node, parent := Find(rows, nodeId).value, Find(rows, parentId).value;
      MemberShaped(rows, steplen, node);
      MemberShaped(rows, steplen, parent);
      ghost var rows0 := rows;
      if IntoOwnSubtree(node, parent) {
        return Fail(MovingToDescendant);
      }
      var slot := BottomSlot(rows, steplen, parent);
      if slot.Err? {
        return Fail(slot.error);
      }
      Reparent(nodeId, Some(parentId), Move(slot.value.treeId, slot.value.path, slot.value.depth, node.treeId, node.path, node.depth));
      if UniquePaths(rows0) && Closed(rows0, steplen) {
        MovedToBottomPlaces(rows0, steplen, nodeId, parentId);
      }
      return Done;
    }

    /**
     * _do_rebuild_subtree: give the children of rootId, in primary-key order,
     * the consecutive slots below rootPath, one level below rootDepth, in tree
     * treeId, and recurse into each. The path is incremented only when another
     * child follows. The ghost orig is the table the rebuild started from and
     * chain the positions of the rows the recursion is inside, ending at
     * rootId; touched is what this call changed.
     */
    method DoRebuildSubtree(rootId: int, rootPath: Path, rootDepth: int, treeId: int,
                            ghost orig: seq<Row>, ghost chain: seq<nat>)
      returns (out: Outcome, ghost touched: set<nat>)
      requires steplen > 0 && IsPath(rootPath) && Keyed(orig) && SameKeys(orig, rows)
      requires AncestorChain(orig, chain) && orig[chain[|chain| - 1]].id == rootId
      modifies this
      decreases Positions(|orig|) - Members(chain), 1
      ensures Rebuilt(orig, old(rows), rows, touched, rootId, chain)
      ensures out.Fail? ==> out.error == PathOverflow
      ensures var kids := WithParent(orig, Some(rootId));
        var run := RebuildPaths(rootPath + Zeros(steplen), |kids|, steplen);
        && (run.Err? ==> out.Fail?)
        && (out.Done? ==> Arranged(rows, kids, treeId, run, rootDepth + 1))
    {
      ghost var rows0 := rows;
      var path := rootPath + Zeros(steplen);
      var depth := rootDepth + 1;
      WithParentKeys(orig, rows, Some(rootId));
      var kids := WithParent(rows, Some(rootId));
      FirstSlot(rootPath, steplen);
      touched := {};
      for j := 0 to |kids|
        invariant j <= Pow(Radix, steplen)
        invariant j < |kids| ==> j < Pow(Radix, steplen) && path == Slot(rootPath, j, steplen)
        invariant Rebuilt(orig, rows0, rows, touched, rootId, chain)
        invariant PlacedUpTo(rows, kids, rootPath, treeId, depth, j, steplen)
      {
        SlotIsPath(rootPath, j, steplen);
        ghost var before := rows;
        var sub, below := RebuildChild(kids[j], path, depth, treeId, orig, chain);
        RebuildStep(orig, rows0, before, rows, kids, touched, below, rootId, chain, rootPath, treeId, depth, j, steplen);
        touched := touched + {kids[j]} + below;
        if sub.Fail? {
          return sub, touched;
        }
        if j + 1 < |kids| {
          var next := IncSlot(rootPath, j, path, steplen);
          if next.Err? {
            return Fail(next.error), touched;
          }
          path := next.value;
        }
      }
      RebuildDone(rows, kids, rootPath, treeId, depth, steplen);
      return Done, touched;
    }

    /**
     * One turn of the loop of _do_rebuild_subtree: the UPDATE that places the
     * child, then the recursion below it.
     */
    method RebuildChild(child: nat, path: Path, depth: int, treeId: int,
                        ghost orig: seq<Row>, ghost chain: seq<nat>)
      returns (out: Outcome, ghost below: set<nat>)
      requires steplen > 0 && IsPath(path) && Keyed(orig) && SameKeys(orig, rows)
      requires AncestorChain(orig, chain) && child < |orig|
      requires orig[child].parentId == Some(orig[chain[|chain| - 1]].id)
      modifies this
      decreases Positions(|orig|) - Members(chain), 0
      ensures SameKeys(orig, rows) && child !in chain && Below(orig, below, orig[child].id, chain + [child])
      ensures forall i :: 0 <= i < |rows| && i != child && i !in below ==> rows[i] == old(rows)[i]
      ensures Located(rows[child], treeId, path, depth)
      ensures out.Fail? ==> out.error == PathOverflow
    {
      var childId := rows[child].id;
      KeyedAcross(orig, rows);
      RelocateAt(rows, child, treeId, path, depth);
      rows := Relocate(rows, childId, treeId, path, depth);
      ChainExtend(orig, chain, child);
      ChainGrows(|orig|, chain, child);
      out, below := DoRebuildSubtree(childId, path, depth, treeId, orig, chain + [child]);
    }

    /**
     * rebuild_all_trees: number the roots 1, 2, ... in primary-key order,
     * put each at the empty path and depth 0, and rebuild its subtree.
     */
    method RebuildAllTrees() returns (out: Outcome)
      requires steplen > 0 && Keyed(rows)
      modifies this
      ensures SameKeys(old(rows), rows)
      ensures out.Fail? ==> out.error == PathOverflow
      ensures var roots := WithParent(old(rows), None);
        out.Done? ==> forall k :: 0 <= k < |roots| ==> RootRebuilt(old(rows), rows, roots[k], k + 1, steplen)
    {
      ghost var orig := rows;
      var roots := WithParent(rows, None);
      for k := 0 to |roots|
        invariant SameKeys(orig, rows)
        invariant forall l :: 0 <= l < k ==> RootRebuilt(orig, rows, roots[l], l + 1, steplen)
      {
        var node := roots[k];
        var nodeId := rows[node].id;
        RootChain(orig, rows, roots, k);
        KeyedAcross(orig, rows);
        RelocateAt(rows, node, k + 1, [], 0);
        ghost var before := rows;
        rows := Relocate(rows, nodeId, k + 1, [], 0);
        ghost var mid := rows;
        var sub, touched := DoRebuildSubtree(nodeId, [], 0, k + 1, orig, [node]);
        if sub.Fail? {
          return sub;
        }
        AllTreesStep(orig, before, mid, rows, roots, k, touched, steplen);
      }
      return Done;
    }
  }
}
