/**
 * Where the mutations leave the rows, in a table that keeps the unique index
 * on (tree_id, path): delete_subtree and _reparent close the gap their subtree
 * leaves by pulling the following siblings up, and keep the index unique.
 */
module Places {
  import opened Wrappers
  import opened PathOrder
  import opened PathCodec
  import opened Rows
  import opened Filters
  import opened Updates
  import opened Pulls
  import opened Shifts
  import opened Moves

  /** A selection of a table whose (tree_id, path) is unique keeps it unique. */
  lemma {:induction false} UniqueSubset(rows: seq<Row>, sel: seq<Row>, steplen: nat)
    requires UniquePaths(rows) && WellFormed(sel, steplen)
    requires forall r :: r in sel ==> r in rows
    ensures UniquePaths(sel)
  {
    forall a, b | 0 <= a < |sel| && 0 <= b < |sel|
      ensures sel[a].treeId == sel[b].treeId && sel[a].path == sel[b].path ==> a == b
    {
      assert sel[a] in sel && sel[b] in sel;
      var i :| 0 <= i < |rows| && rows[i] == sel[a];
      var j :| 0 <= j < |rows| && rows[j] == sel[b];
      assert sel[a].treeId == sel[b].treeId && sel[a].path == sel[b].path ==> sel[a] == sel[b];
    }
  }

  /** A table relabels to itself. */
  lemma RelabelsItself(rows: seq<Row>, steplen: nat)
    ensures Relabels(rows, rows, steplen)
  {
  }

  /**
   * The pull up that closes the gap a subtree left at fromPath: the siblings
   * after it each take the place of the one before them, the first one
   * fromPath, which is filled if any sibling followed; every link and the
   * order of siblings are kept, and so is the unique index. At the root
   * level nothing moves.
   */
  ghost predicate ClosesGap(rows: seq<Row>, out: seq<Row>, steplen: nat, treeId: int, fromPath: Path, depth: int)
    requires steplen > 0 && IsPath(fromPath)
  {
    && UniquePaths(out) && Relabels(rows, out, steplen)
    && (depth == 0 ==> out == rows)
    && (depth >= 1 ==>
          var sib := Siblings(rows, steplen, treeId, fromPath, depth);
          && Shifted(rows, out, treeId, sib, UpDests(sib, fromPath))
          && (sib != [] ==> exists i :: 0 <= i < |out| && out[i].treeId == treeId && out[i].path == fromPath))
  }

  /** A pull up from a vacant fromPath closes the gap. */
  lemma {:induction false} PullUpCloses(rows: seq<Row>, steplen: nat, treeId: int, fromPath: Path, depth: int)
    requires WellFormed(rows, steplen) && UniquePaths(rows)
    requires IsPath(fromPath) && depth >= 0 && |fromPath| == depth * steplen
    requires Vacant(rows, treeId, fromPath)
    ensures PullPlan(rows, steplen, true, treeId, fromPath, depth).Ok?
    ensures MovesShaped(PullPlan(rows, steplen, true, treeId, fromPath, depth).value, steplen)
    ensures ClosesGap(rows, ApplyMoves(rows, PullPlan(rows, steplen, true, treeId, fromPath, depth).value, steplen),
                      steplen, treeId, fromPath, depth)
  {
    PullPlanSpec(rows, steplen, true, treeId, fromPath, depth);
    if depth == 0 {
      assert ApplyMoves(rows, [], steplen) == rows;
      RelabelsItself(rows, steplen);
    } else {
      var sib := Siblings(rows, steplen, treeId, fromPath, depth);
      var out := ApplyMoves(rows, PullPlan(rows, steplen, true, treeId, fromPath, depth).value, steplen);
      UpShift(rows, steplen, treeId, fromPath, depth);
      SiblingsMembers(rows, steplen, treeId, fromPath, depth);
      ShiftCloses(rows, out, treeId, ParentPath(fromPath, steplen), steplen, sib, UpDests(sib, fromPath));
    }
  }

  /** The siblings a pull selects are rows of the table, in its tree. */
  lemma {:induction false} SiblingsMembers(rows: seq<Row>, steplen: nat, treeId: int, fromPath: Path, depth: int)
    requires steplen > 0 && IsPath(fromPath)
    ensures var sib := Siblings(rows, steplen, treeId, fromPath, depth);
      forall k :: 0 <= k < |sib| ==> sib[k] in rows && sib[k].treeId == treeId
  {
    var sel := Filter(rows, r => SiblingsFrom(steplen, treeId, fromPath, depth, r));
    var sib := Siblings(rows, steplen, treeId, fromPath, depth);
    SortByPathSpec(sel);
    SiblingsInFilter(rows, steplen, treeId, fromPath, depth);
    forall k | 0 <= k < |sib| ensures sib[k] in rows && sib[k].treeId == treeId {
      assert sib[k] in multiset(sib);
    }
  }

  /** A level shift keeps links, order and uniqueness, and fills the first destination when anything moves. */
  lemma {:induction false} ShiftCloses(rows: seq<Row>, out: seq<Row>, treeId: int, pp: Path, steplen: nat, sib: seq<Row>, dest: seq<Path>)
    requires LevelShift(rows, out, treeId, pp, steplen, sib, dest) && UniquePaths(rows)
    requires forall k :: 0 <= k < |sib| ==> sib[k] in rows && sib[k].treeId == treeId
    ensures UniquePaths(out) && Relabels(rows, out, steplen)
    ensures sib != [] ==> exists i :: 0 <= i < |out| && out[i].treeId == treeId && out[i].path == dest[0]
  {
    LevelShiftRelabels(rows, out, treeId, pp, steplen, sib, dest);
    if sib != [] {
      FirstFills(rows, out, treeId, sib, dest);
    }
  }

  /** After a shift, some row sits where the first sibling was sent. */
  lemma {:induction false} FirstFills(rows: seq<Row>, out: seq<Row>, treeId: int, sib: seq<Row>, dest: seq<Path>)
    requires Shifted(rows, out, treeId, sib, dest) && sib != []
    requires forall k :: 0 <= k < |sib| ==> sib[k] in rows && sib[k].treeId == treeId
    ensures exists i :: 0 <= i < |out| && out[i].treeId == treeId && out[i].path == dest[0]
  {
    var i :| 0 <= i < |rows| && rows[i] == sib[0];
    assert rows[i].path[..|sib[0].path|] == sib[0].path;
    assert rows[i].path[|sib[0].path|..] == [];
    assert out[i] == rows[i].(path := dest[0] + []);
  }

  /**
   * delete_subtree in a table with unique (tree_id, path): the rows left
   * close the gap at the node's path, and the index stays unique.
   */
  lemma {:induction false} DeletedCloses(rows: seq<Row>, steplen: nat, nodeId: int)
    requires WellFormed(rows, steplen) && UniquePaths(rows) && Find(rows, nodeId).Some?
    ensures var node := Find(rows, nodeId).value;
      ClosesGap(Kept(rows, steplen, node), Deleted(rows, steplen, nodeId), steplen, node.treeId, node.path, node.depth)
  {
    var node := Find(rows, nodeId).value;
    MemberShaped(rows, steplen, node);
    var kept := Kept(rows, steplen, node);
    KeptIff(rows, steplen, node);
    FilterWellFormed(rows, r => !Descendants(steplen, node.treeId, node.path, true, r), steplen);
    UniqueSubset(rows, kept, steplen);
    forall i | 0 <= i < |kept| ensures !InSubtree(kept[i], node.treeId, node.path) {
      assert kept[i] in kept;
    }
    PullUpCloses(kept, steplen, node.treeId, node.path, node.depth);
  }

  /** A path that extends b + s starts with b or is a prefix of b. */
  lemma PrefixSplit(a: Path, b: Path, s: Path)
    ensures IsPrefix(a, b + s) ==> IsPrefix(a, b) || IsPrefix(b, a)
  {
    if IsPrefix(a, b + s) {
      if |a| <= |b| {
        assert (b + s)[..|a|] == b[..|a|];
      } else {
        assert (b + s)[..|a|][..|b|] == b;
      }
    }
  }

  /**
   * The place a subtree moves to is free: nothing lies at or below the new
   * path in the new tree, and the new path is not inside the subtree itself.
   */
  ghost predicate MoveClear(rows: seq<Row>, m: Move) {
    && Vacant(rows, m.newTreeId, m.newPath)
    && !(m.newTreeId == m.oldTreeId && IsPrefix(m.oldPath, m.newPath))
  }

  /** What _update_subtree did to each row: the subtree re-rooted, everything else in place. */
  ghost predicate MovedRows(rows: seq<Row>, moved: seq<Row>, m: Move) {
    && |moved| == |rows|
    && forall i :: 0 <= i < |rows| ==>
         && (InSubtree(rows[i], m.oldTreeId, m.oldPath) ==>
               moved[i].treeId == m.newTreeId && moved[i].path == m.newPath + rows[i].path[|m.oldPath|..])
         && (!InSubtree(rows[i], m.oldTreeId, m.oldPath) ==>
               moved[i].treeId == rows[i].treeId && moved[i].path == rows[i].path)
  }

  lemma {:induction false} MovedRowsHold(rows: seq<Row>, steplen: nat, node: Row, parentId: Option<int>, m: Move)
    requires WellFormed(rows, steplen) && MoveShaped(m, steplen)
    ensures MovedRows(rows, RewriteSubtree(SetParent(rows, node.id, parentId), m, steplen), m)
    ensures WellFormed(RewriteSubtree(SetParent(rows, node.id, parentId), m, steplen), steplen)
  {
    SetParentSpec(rows, steplen, node.id, parentId);
    var linked := SetParent(rows, node.id, parentId);
    RewriteSubtreeSpec(linked, m, steplen);
    forall i | 0 <= i < |rows|
      ensures InSubtree(rows[i], m.oldTreeId, m.oldPath) ==>
        RewriteRow(linked[i], m, steplen).treeId == m.newTreeId &&
        RewriteRow(linked[i], m, steplen).path == m.newPath + rows[i].path[|m.oldPath|..]
      ensures !InSubtree(rows[i], m.oldTreeId, m.oldPath) ==> RewriteRow(linked[i], m, steplen) == linked[i]
    {
      RewriteRowSpec(linked[i], m, steplen);
    }
  }

  /** Two rows that share a place after the move shared it before. */
  lemma {:induction false} MovedPairUnique(rows: seq<Row>, moved: seq<Row>, m: Move, a: nat, b: nat)
    requires UniquePaths(rows) && MovedRows(rows, moved, m) && MoveClear(rows, m) && a < |rows| && b < |rows|
    ensures moved[a].treeId == moved[b].treeId && moved[a].path == moved[b].path ==> a == b
  {
    var ia, ib := InSubtree(rows[a], m.oldTreeId, m.oldPath), InSubtree(rows[b], m.oldTreeId, m.oldPath);
    var n := |m.newPath|;
    if ia && ib {
      var sa, sb := rows[a].path[|m.oldPath|..], rows[b].path[|m.oldPath|..];
      assert (m.newPath + sa)[n..] == sa && (m.newPath + sb)[n..] == sb;
      assert rows[a].path == m.oldPath + sa && rows[b].path == m.oldPath + sb;
    } else if ia {
      assert (m.newPath + rows[a].path[|m.oldPath|..])[..n] == m.newPath;
      assert moved[a].path == moved[b].path ==> IsPrefix(m.newPath, rows[b].path);
    } else if ib {
      assert (m.newPath + rows[b].path[|m.oldPath|..])[..n] == m.newPath;
      assert moved[a].path == moved[b].path ==> IsPrefix(m.newPath, rows[a].path);
    }
  }

  /** After the move nothing is left at or below the old path. */
  lemma {:induction false} MovedAway(rows: seq<Row>, moved: seq<Row>, m: Move, n: nat, i: nat)
    requires MovedRows(rows, moved, m) && MoveClear(rows, m) && n < |rows| && i < |rows|
    requires rows[n].treeId == m.oldTreeId && rows[n].path == m.oldPath
    ensures !InSubtree(moved[i], m.oldTreeId, m.oldPath)
  {
    if InSubtree(rows[i], m.oldTreeId, m.oldPath) {
      PrefixSplit(m.oldPath, m.newPath, rows[i].path[|m.oldPath|..]);
      assert !InSubtree(rows[n], m.newTreeId, m.newPath);
    }
  }

  /**
   * _reparent of a subtree to a clear place, in a table with unique
   * (tree_id, path): the node lands exactly on the new path in the new tree,
   * the index stays unique, and the pull up closes the gap at the old path.
   */
  lemma {:induction false} ReparentedCloses(rows: seq<Row>, steplen: nat, node: Row, parentId: Option<int>, m: Move)
    requires WellFormed(rows, steplen) && UniquePaths(rows) && MoveShaped(m, steplen) && node in rows
    requires node.treeId == m.oldTreeId && node.path == m.oldPath && node.depth == m.oldDepth
    requires MoveClear(rows, m)
    ensures var moved := RewriteSubtree(SetParent(rows, node.id, parentId), m, steplen);
      && (forall i :: 0 <= i < |rows| && rows[i].id == node.id ==> moved[i].treeId == m.newTreeId && moved[i].path == m.newPath)
      && ClosesGap(moved, Reparented(rows, steplen, node.id, parentId, m), steplen, m.oldTreeId, m.oldPath, m.oldDepth)
  {
    var moved := RewriteSubtree(SetParent(rows, node.id, parentId), m, steplen);
    MovedRowsHold(rows, steplen, node, parentId, m);
    LinkedMoved(rows, steplen, node, parentId, m);
    forall i | 0 <= i < |rows| && rows[i].id == node.id ensures moved[i].path == m.newPath {
      assert rows[i] == node && node.path[|m.oldPath|..] == [];
      assert m.newPath + [] == m.newPath;
    }
    forall a, b | 0 <= a < |moved| && 0 <= b < |moved|
      ensures moved[a].treeId == moved[b].treeId && moved[a].path == moved[b].path ==> a == b
    {
      MovedPairUnique(rows, moved, m, a, b);
    }
    var n :| 0 <= n < |rows| && rows[n] == node;
    forall i | 0 <= i < |moved| ensures !InSubtree(moved[i], m.oldTreeId, m.oldPath) {
      MovedAway(rows, moved, m, n, i);
    }
    PullUpCloses(moved, steplen, m.oldTreeId, m.oldPath, m.oldDepth);
  }

  /** Row c lies one level below row p, in p's tree and under p's path. */
  ghost predicate ChildOf(rows: seq<Row>, p: nat, c: nat, steplen: nat)
    requires p < |rows| && c < |rows|
  {
    InSubtree(rows[c], rows[p].treeId, rows[p].path) && |rows[c].path| == |rows[p].path| + steplen
  }

  /** Row c is the child of row p that comes first in path order. */
  ghost predicate FirstChildOf(rows: seq<Row>, p: nat, c: nat, steplen: nat) {
    && p < |rows| && c < |rows| && ChildOf(rows, p, c, steplen)
    && forall j :: 0 <= j < |rows| && j != c && ChildOf(rows, p, j, steplen) ==> LexLess(rows[c].path, rows[j].path)
  }

  /** Row c is the child of row p that comes last in path order. */
  ghost predicate LastChildOf(rows: seq<Row>, p: nat, c: nat, steplen: nat) {
    && p < |rows| && c < |rows| && ChildOf(rows, p, c, steplen)
    && forall j :: 0 <= j < |rows| && j != c && ChildOf(rows, p, j, steplen) ==> LexLess(rows[j].path, rows[c].path)
  }

  /** Row b is the sibling that immediately follows row a in path order. */
  ghost predicate Adjacent(rows: seq<Row>, a: nat, b: nat, steplen: nat) {
    && a < |rows| && b < |rows| && Sibs(rows[a], rows[b], steplen) && LexLess(rows[a].path, rows[b].path)
    && forall j :: 0 <= j < |rows| && Sibs(rows[a], rows[j], steplen) ==>
         !(LexLess(rows[a].path, rows[j].path) && LexLess(rows[j].path, rows[b].path))
  }

  /** Row c is the sibling right before (side Before) or right after (side After) row a. */
  ghost predicate Beside(rows: seq<Row>, side: Side, a: nat, c: nat, steplen: nat) {
    if side == Before then Adjacent(rows, c, a, steplen) else Adjacent(rows, a, c, steplen)
  }

  /** Two children of one row are siblings. */
  lemma ChildrenSibs(rows: seq<Row>, p: nat, c: nat, j: nat, steplen: nat)
    requires p < |rows| && c < |rows| && j < |rows| && ChildOf(rows, p, c, steplen) && ChildOf(rows, p, j, steplen)
    ensures Sibs(rows[c], rows[j], steplen)
  {
  }

  /** Being siblings is transitive. */
  lemma SibsTransitive(x: Row, y: Row, z: Row, steplen: nat)
    requires Sibs(x, y, steplen) && Sibs(y, z, steplen)
    ensures Sibs(x, z, steplen)
  {
  }

  /** Relabelling keeps who is a child of whom. */
  lemma {:induction false} ChildOfKept(rows: seq<Row>, out: seq<Row>, steplen: nat, p: nat, c: nat)
    requires Relabels(rows, out, steplen) && p < |rows| && c < |rows|
    ensures ChildOf(rows, p, c, steplen) <==> ChildOf(out, p, c, steplen)
  {
    assert Relabelled(rows[p], out[p]) && Relabelled(rows[c], out[c]);
  }

  /** Relabelling keeps the first child first. */
  lemma {:induction false} FirstChildKept(rows: seq<Row>, out: seq<Row>, steplen: nat, p: nat, c: nat)
    requires Relabels(rows, out, steplen) && FirstChildOf(rows, p, c, steplen)
    ensures FirstChildOf(out, p, c, steplen)
  {
    ChildOfKept(rows, out, steplen, p, c);
    forall j | 0 <= j < |out| && j != c && ChildOf(out, p, j, steplen) ensures LexLess(out[c].path, out[j].path) {
      ChildOfKept(rows, out, steplen, p, j);
      ChildrenSibs(rows, p, c, j, steplen);
    }
  }

  /** Relabelling keeps the last child last. */
  lemma {:induction false} LastChildKept(rows: seq<Row>, out: seq<Row>, steplen: nat, p: nat, c: nat)
    requires Relabels(rows, out, steplen) && LastChildOf(rows, p, c, steplen)
    ensures LastChildOf(out, p, c, steplen)
  {
    ChildOfKept(rows, out, steplen, p, c);
    forall j | 0 <= j < |out| && j != c && ChildOf(out, p, j, steplen) ensures LexLess(out[j].path, out[c].path) {
      ChildOfKept(rows, out, steplen, p, j);
      ChildrenSibs(rows, p, j, c, steplen);
    }
  }

  /** Relabelling keeps two siblings next to each other. */
  lemma {:induction false} AdjacentKept(rows: seq<Row>, out: seq<Row>, steplen: nat, a: nat, b: nat)
    requires Relabels(rows, out, steplen) && Adjacent(rows, a, b, steplen)
    ensures Adjacent(out, a, b, steplen)
  {
    forall j | 0 <= j < |out| && Sibs(out[a], out[j], steplen)
      ensures !(LexLess(out[a].path, out[j].path) && LexLess(out[j].path, out[b].path))
    {
      assert Sibs(rows[a], rows[j], steplen);
      SibsTransitive(rows[j], rows[a], rows[b], steplen);
    }
  }

  /** In a well-formed table the row at index i is the one its key finds. */
  lemma KeyedRow(rows: seq<Row>, steplen: nat, i: nat, id: int)
    requires WellFormed(rows, steplen) && i < |rows| && rows[i].id == id
    ensures Find(rows, id) == Some(rows[i])
  {
    FindUnique(rows, steplen, rows[i]);
  }

  /** A row of a moved subtree other than its root lies deeper than the new root. */
  lemma {:induction false} SubtreeDeeper(rows: seq<Row>, moved: seq<Row>, m: Move, n: nat, j: nat)
    requires UniquePaths(rows) && MovedRows(rows, moved, m) && n < |rows| && j < |rows| && j != n
    requires rows[n].treeId == m.oldTreeId && rows[n].path == m.oldPath
    ensures InSubtree(rows[j], m.oldTreeId, m.oldPath) ==> |moved[j].path| > |m.newPath|
  {
    PrefixSameLength(m.oldPath, rows[j].path);
  }

  /** A prefix as long as the path is the path. */
  lemma PrefixSameLength(a: Path, b: Path)
    ensures IsPrefix(a, b) && |a| == |b| ==> a == b
  {
    assert b[..|b|] == b;
  }

  /** A prefix of an aligned child path other than itself is a prefix of the parent path. */
  lemma {:induction false} ShortPrefix(a: Path, slot: Path, pp: Path, steplen: nat)
    requires steplen > 0 && |a| % steplen == 0 && |pp| % steplen == 0
    requires |slot| == |pp| + steplen && IsPrefix(pp, slot)
    ensures IsPrefix(a, slot) && a != slot ==> IsPrefix(a, pp)
  {
    if IsPrefix(a, slot) && a != slot {
      assert slot[..|slot|] == slot;
      assert |a| != |slot|;
      MultiplesAligned(|pp|, steplen);
      MultiplesApart(|a|, |slot|, steplen);
      assert |a| <= |pp|;
      assert pp[..|a|] == slot[..|a|];
    }
  }

  /** In a closed table nothing lies at or below the bottom slot of a parent. */
  lemma {:induction false} BottomSlotVacant(rows: seq<Row>, steplen: nat, parent: Row)
    requires WellFormed(rows, steplen) && Closed(rows, steplen) && Shaped(parent, steplen)
    requires BottomSlot(rows, steplen, parent).Ok?
    ensures Vacant(rows, parent.treeId, BottomSlot(rows, steplen, parent).value.path)
  {
    var slot := BottomSlot(rows, steplen, parent).value.path;
    BottomSlotSpec(rows, steplen, parent);
    ShapedAligned(parent, steplen);
    MultiplesAligned(|parent.path|, steplen);
    LexLessIrreflexive(slot);
    forall i | 0 <= i < |rows| ensures !InSubtree(rows[i], parent.treeId, slot) {
      var j := AncestorRow(rows, steplen, i, slot);
      assert InSubtree(rows[i], parent.treeId, slot) ==> rows[j] in rows && ChildRow(parent, rows[j], steplen);
    }
  }

  /**
   * move_subtree_to_bottom, in a closed table with unique (tree_id, path):
   * the subtree's place is clear, the index stays unique, the old gap is
   * closed, and the node ends up the last child of its new parent.
   */
  lemma {:induction false} MovedToBottomPlaces(rows: seq<Row>, steplen: nat, nodeId: int, parentId: int)
    requires WellFormed(rows, steplen) && UniquePaths(rows) && Closed(rows, steplen)
    requires Find(rows, nodeId).Some? && Find(rows, parentId).Some?
    ensures var out := MovedToBottom(rows, steplen, nodeId, parentId);
      out.Ok? ==>
        && UniquePaths(out.value)
        && forall p, c :: 0 <= p < |rows| && 0 <= c < |rows| && rows[p].id == parentId && rows[c].id == nodeId ==>
             LastChildOf(out.value, p, c, steplen)
  {
    var node, parent := Find(rows, nodeId).value, Find(rows, parentId).value;
    MemberShaped(rows, steplen, node);
    MemberShaped(rows, steplen, parent);
    var slot := BottomSlot(rows, steplen, parent);
    if !IntoOwnSubtree(node, parent) && slot.Ok? {
      var s := slot.value;
      var m := Move(s.treeId, s.path, s.depth, node.treeId, node.path, node.depth);
      var out := Reparented(rows, steplen, nodeId, Some(parentId), m);
      assert MovedToBottom(rows, steplen, nodeId, parentId) == Ok(out);
      BottomSlotSpec(rows, steplen, parent);
      BottomSlotVacant(rows, steplen, parent);
      ShapedAligned(node, steplen);
      ShapedAligned(parent, steplen);
      ShortPrefix(node.path, s.path, parent.path, steplen);
      var n :| 0 <= n < |rows| && rows[n] == node;
      assert !InSubtree(rows[n], s.treeId, s.path);
      assert MoveClear(rows, m);
      ReparentedCloses(rows, steplen, node, Some(parentId), m);
      var moved := RewriteSubtree(SetParent(rows, nodeId, Some(parentId)), m, steplen);
      MovedRowsHold(rows, steplen, node, Some(parentId), m);
      forall p, c | 0 <= p < |rows| && 0 <= c < |rows| && rows[p].id == parentId && rows[c].id == nodeId
        ensures LastChildOf(out, p, c, steplen)
      {
        KeyedRow(rows, steplen, p, parentId);
        KeyedRow(rows, steplen, c, nodeId);
        BottomLast(rows, moved, steplen, m, parent, p, c);
        LastChildKept(moved, out, steplen, p, c);
      }
    }
  }

  /** Before the pull up, the node moved to the bottom slot is its new parent's last child. */
  lemma {:induction false} BottomLast(rows: seq<Row>, moved: seq<Row>, steplen: nat, m: Move, parent: Row, p: nat, c: nat)
    requires WellFormed(rows, steplen) && UniquePaths(rows) && MovedRows(rows, moved, m) && Shaped(parent, steplen)
    requires p < |rows| && c < |rows| && rows[p] == parent
    requires rows[c].treeId == m.oldTreeId && rows[c].path == m.oldPath
    requires !InSubtree(parent, m.oldTreeId, m.oldPath)
    requires m.newTreeId == parent.treeId && IsPrefix(parent.path, m.newPath) && |m.newPath| == |parent.path| + steplen
    requires forall r :: r in rows && ChildRow(parent, r, steplen) ==> LexLess(r.path, m.newPath)
    ensures LastChildOf(moved, p, c, steplen)
  {
    assert rows[c].path[|m.oldPath|..] == [] && m.newPath + [] == m.newPath;
    forall j | 0 <= j < |moved| && j != c && ChildOf(moved, p, j, steplen) ensures LexLess(moved[j].path, moved[c].path) {
      SubtreeDeeper(rows, moved, m, c, j);
      assert rows[j] in rows;
    }
  }

  /** The table after the pull down that frees target: the first step of Landed. */
  ghost function LandPulled(rows: seq<Row>, steplen: nat, treeId: int, target: Path, depth: int): (pulled: seq<Row>)
    requires WellFormed(rows, steplen) && IsPath(target) && depth >= 0 && |target| == depth * steplen
    requires PullPlan(rows, steplen, false, treeId, target, depth).Ok?
    ensures WellFormed(pulled, steplen) && SameKeys(rows, pulled) && SameLevels(rows, pulled)
  {
    PullPlanSpec(rows, steplen, false, treeId, target, depth);
    ApplyMovesSpec(rows, PullPlan(rows, steplen, false, treeId, target, depth).value, steplen, treeId);
    ApplyMoves(rows, PullPlan(rows, steplen, false, treeId, target, depth).value, steplen)
  }

  /** The move Landed hands to _reparent: from the node's re-read path to target. */
  ghost function LandMove(rows: seq<Row>, steplen: nat, nodeId: int, treeId: int, target: Path, depth: int): (m: Move)
    requires WellFormed(rows, steplen) && IsPath(target) && depth >= 0 && |target| == depth * steplen
    requires PullPlan(rows, steplen, false, treeId, target, depth).Ok? && Find(rows, nodeId).Some?
    ensures MoveShaped(m, steplen)
  {
    var node := Find(rows, nodeId).value;
    MemberShaped(rows, steplen, node);
    var pulled := LandPulled(rows, steplen, treeId, target, depth);
    FindAcross(rows, pulled, nodeId);
    var current := Find(pulled, nodeId).value;
    MemberShaped(pulled, steplen, current);
    Move(treeId, target, depth, node.treeId, current.path, node.depth)
  }

  /** A shift leaves a row whose path ends above the level as it was. */
  lemma {:induction false} ShortUnmoved(rows: seq<Row>, out: seq<Row>, treeId: int, pp: Path, steplen: nat, sib: seq<Row>, dest: seq<Path>, i: nat)
    requires LevelShift(rows, out, treeId, pp, steplen, sib, dest) && i < |rows|
    ensures |out[i].path| < |pp| + steplen ==> out[i] == rows[i]
  {
    if |out[i].path| < |pp| + steplen {
      assert Unmoved(rows[i], treeId, sib);
    }
  }

  /**
   * After the pull down, target is not inside the node's subtree, as long
   * as the node was not above target's parent path.
   */
  lemma {:induction false} LandClear(rows: seq<Row>, pulled: seq<Row>, treeId: int, pp: Path, steplen: nat, sib: seq<Row>, dest: seq<Path>,
                                     target: Path, c: nat)
    requires LevelShift(rows, pulled, treeId, pp, steplen, sib, dest) && Relabels(rows, pulled, steplen)
    requires Vacant(pulled, treeId, target) && WellFormed(pulled, steplen)
    requires c < |rows| && |target| == |pp| + steplen && IsPrefix(pp, target)
    requires !(treeId == rows[c].treeId && IsPrefix(rows[c].path, pp))
    ensures !(treeId == pulled[c].treeId && IsPrefix(pulled[c].path, target))
  {
    assert Relabelled(rows[c], pulled[c]) && Shaped(pulled[c], steplen);
    ShapedAligned(pulled[c], steplen);
    ShortPrefix(pulled[c].path, target, pp, steplen);
    ShortUnmoved(rows, pulled, treeId, pp, steplen, sib, dest, c);
  }

  /**
   * The landing of move_subtree_before/after and move_subtree_to_top, in a
   * closed table with unique (tree_id, path), when the node is not above
   * target's parent path: the pull down shifts the level and frees target;
   * _reparent puts the node exactly on target, leaves every other row at that
   * length where the pull down put it, and its pull up closes the old gap.
   */
  lemma {:induction false} LandedCore(rows: seq<Row>, steplen: nat, nodeId: int, parentId: Option<int>,
                                      treeId: int, target: Path, depth: int)
    requires WellFormed(rows, steplen) && UniquePaths(rows) && Closed(rows, steplen) && Find(rows, nodeId).Some?
    requires IsPath(target) && depth >= 1 && |target| == depth * steplen
    requires PullPlan(rows, steplen, false, treeId, target, depth).Ok?
    requires !(treeId == Find(rows, nodeId).value.treeId && IsPrefix(Find(rows, nodeId).value.path, ParentPath(target, steplen)))
    ensures Landed(rows, steplen, nodeId, parentId, treeId, target, depth) ==
      Ok(Reparented(LandPulled(rows, steplen, treeId, target, depth), steplen, nodeId, parentId, LandMove(rows, steplen, nodeId, treeId, target, depth)))
    ensures var pulled, m := LandPulled(rows, steplen, treeId, target, depth), LandMove(rows, steplen, nodeId, treeId, target, depth);
      var moved := RewriteSubtree(SetParent(pulled, nodeId, parentId), m, steplen);
      var sib := Siblings(rows, steplen, treeId, target, depth);
      && LevelShift(rows, pulled, treeId, ParentPath(target, steplen), steplen, sib, DownDests(sib, NextOf(sib, target, steplen)))
      && Relabels(rows, pulled, steplen) && Vacant(pulled, treeId, target)
      && MovedRows(pulled, moved, m)
      && ClosesGap(moved, Reparented(pulled, steplen, nodeId, parentId, m), steplen, m.oldTreeId, m.oldPath, m.oldDepth)
      && forall c :: 0 <= c < |rows| && rows[c].id == nodeId ==>
           && pulled[c].treeId == m.oldTreeId && pulled[c].path == m.oldPath
           && moved[c].treeId == treeId && moved[c].path == target
           && forall j :: 0 <= j < |rows| && j != c && |moved[j].path| == |target| ==>
                moved[j].treeId == pulled[j].treeId && moved[j].path == pulled[j].path
  {
    LandedOk(rows, steplen, nodeId, parentId, treeId, target, depth);
    var node := Find(rows, nodeId).value;
    MemberShaped(rows, steplen, node);
    var pp := ParentPath(target, steplen);
    var sib := Siblings(rows, steplen, treeId, target, depth);
    DownShift(rows, steplen, treeId, target, depth);
    var pulled := LandPulled(rows, steplen, treeId, target, depth);
    var dest := DownDests(sib, NextOf(sib, target, steplen));
    LevelShiftRelabels(rows, pulled, treeId, pp, steplen, sib, dest);
    ParentAligned(target, steplen, depth);
    assert IsPrefix(pp, target);
    var m := LandMove(rows, steplen, nodeId, treeId, target, depth);
    FindAcross(rows, pulled, nodeId);
    var current := Find(pulled, nodeId).value;
    var c :| 0 <= c < |rows| && rows[c] == node;
    KeyedRow(pulled, steplen, c, nodeId);
    assert current == pulled[c];
    LandClear(rows, pulled, treeId, pp, steplen, sib, dest, target, c);
    assert MoveClear(pulled, m);
    ReparentedCloses(pulled, steplen, current, parentId, m);
    MovedRowsHold(pulled, steplen, current, parentId, m);
    var moved := RewriteSubtree(SetParent(pulled, nodeId, parentId), m, steplen);
    assert forall i :: 0 <= i < |rows| ==> pulled[i].id == rows[i].id;
    LandedRows(rows, pulled, moved, steplen, m, nodeId, treeId, target);
  }

  /** A landing whose pull down succeeds is _reparent applied after the pull, with the move LandMove. */
  lemma LandedOk(rows: seq<Row>, steplen: nat, nodeId: int, parentId: Option<int>, treeId: int, target: Path, depth: int)
    requires WellFormed(rows, steplen) && Find(rows, nodeId).Some?
    requires IsPath(target) && depth >= 0 && |target| == depth * steplen
    requires PullPlan(rows, steplen, false, treeId, target, depth).Ok?
    ensures Landed(rows, steplen, nodeId, parentId, treeId, target, depth) ==
      Ok(Reparented(LandPulled(rows, steplen, treeId, target, depth), steplen, nodeId, parentId, LandMove(rows, steplen, nodeId, treeId, target, depth)))
  {
  }

  /** The node's row moves from where the pull down left it onto target; every other row of target's length stays put. */
  lemma {:induction false} LandedRows(rows: seq<Row>, pulled: seq<Row>, moved: seq<Row>, steplen: nat, m: Move,
                                      nodeId: int, treeId: int, target: Path)
    requires WellFormed(pulled, steplen) && UniquePaths(pulled) && MovedRows(pulled, moved, m)
    requires |rows| == |pulled| && forall i :: 0 <= i < |rows| ==> pulled[i].id == rows[i].id
    requires Find(pulled, nodeId).Some? && Find(pulled, nodeId).value.treeId == m.oldTreeId && Find(pulled, nodeId).value.path == m.oldPath
    requires m.newTreeId == treeId && m.newPath == target
    ensures forall c :: 0 <= c < |rows| && rows[c].id == nodeId ==>
      && pulled[c].treeId == m.oldTreeId && pulled[c].path == m.oldPath
      && moved[c].treeId == treeId && moved[c].path == target
      && forall j :: 0 <= j < |rows| && j != c && |moved[j].path| == |target| ==>
           moved[j].treeId == pulled[j].treeId && moved[j].path == pulled[j].path
  {
    forall c | 0 <= c < |rows| && rows[c].id == nodeId
      ensures pulled[c].treeId == m.oldTreeId && pulled[c].path == m.oldPath
      ensures moved[c].treeId == treeId && moved[c].path == target
      ensures forall j :: 0 <= j < |rows| && j != c && |moved[j].path| == |target| ==>
                moved[j].treeId == pulled[j].treeId && moved[j].path == pulled[j].path
    {
      KeyedRow(pulled, steplen, c, nodeId);
      assert pulled[c].path[|m.oldPath|..] == [];
      assert target + [] == target;
      forall j | 0 <= j < |rows| && j != c && |moved[j].path| == |target|
        ensures moved[j].treeId == pulled[j].treeId && moved[j].path == pulled[j].path
      {
        SubtreeDeeper(pulled, moved, m, c, j);
      }
    }
  }

  /**
   * move_subtree_to_top, in a closed table with unique (tree_id, path): the
   * index stays unique and the node ends up the first child of its new
   * parent.
   */
  lemma {:induction false} MovedToTopPlaces(rows: seq<Row>, steplen: nat, nodeId: int, parentId: int)
    requires WellFormed(rows, steplen) && UniquePaths(rows) && Closed(rows, steplen)
    requires Find(rows, nodeId).Some? && Find(rows, parentId).Some?
    ensures var out := MovedToTop(rows, steplen, nodeId, parentId);
      out.Ok? ==>
        && UniquePaths(out.value)
        && forall p, c :: 0 <= p < |rows| && 0 <= c < |rows| && rows[p].id == parentId && rows[c].id == nodeId ==>
             FirstChildOf(out.value, p, c, steplen)
  {
    var node, parent := Find(rows, nodeId).value, Find(rows, parentId).value;
    MemberShaped(rows, steplen, parent);
    var s := TopSlot(parent, steplen);
    TopSlotFirst(parent, steplen, s.path);
    assert ParentPath(s.path, steplen) == parent.path;
    if !IntoOwnSubtree(node, parent) && PullPlan(rows, steplen, false, s.treeId, s.path, s.depth).Ok? {
      LandedCore(rows, steplen, nodeId, Some(parentId), s.treeId, s.path, s.depth);
      var pulled, m := LandPulled(rows, steplen, s.treeId, s.path, s.depth), LandMove(rows, steplen, nodeId, s.treeId, s.path, s.depth);
      var moved := RewriteSubtree(SetParent(pulled, nodeId, Some(parentId)), m, steplen);
      var out := Reparented(pulled, steplen, nodeId, Some(parentId), m);
      var sib := Siblings(rows, steplen, s.treeId, s.path, s.depth);
      var dest := DownDests(sib, NextOf(sib, s.path, steplen));
      forall p, c | 0 <= p < |rows| && 0 <= c < |rows| && rows[p].id == parentId && rows[c].id == nodeId
        ensures FirstChildOf(out, p, c, steplen)
      {
        KeyedRow(rows, steplen, p, parentId);
        KeyedRow(rows, steplen, c, nodeId);
        TopFirst(rows, pulled, moved, steplen, m, parent, sib, dest, p, c);
        FirstChildKept(moved, out, steplen, p, c);
      }
    }
  }

  /** Before the pull up, the node landed on the top slot is its new parent's first child. */
  lemma {:induction false} TopFirst(rows: seq<Row>, pulled: seq<Row>, moved: seq<Row>, steplen: nat, m: Move, parent: Row,
                                    sib: seq<Row>, dest: seq<Path>, p: nat, c: nat)
    requires steplen > 0 && Shaped(parent, steplen) && WellFormed(pulled, steplen)
    requires LevelShift(rows, pulled, parent.treeId, parent.path, steplen, sib, dest) && Relabels(rows, pulled, steplen)
    requires Vacant(pulled, parent.treeId, TopSlot(parent, steplen).path) && MovedRows(pulled, moved, m)
    requires p < |rows| && c < |rows| && rows[p] == parent && !IntoOwnSubtree(rows[c], parent)
    requires pulled[c].treeId == m.oldTreeId && pulled[c].path == m.oldPath
    requires moved[c].treeId == parent.treeId && moved[c].path == TopSlot(parent, steplen).path
    requires forall j :: 0 <= j < |rows| && j != c && |moved[j].path| == |moved[c].path| ==>
               moved[j].treeId == pulled[j].treeId && moved[j].path == pulled[j].path
    ensures FirstChildOf(moved, p, c, steplen)
  {
    var s := TopSlot(parent, steplen);
    TopSlotFirst(parent, steplen, s.path);
    ShortUnmoved(rows, pulled, parent.treeId, parent.path, steplen, sib, dest, p);
    assert !InSubtree(rows[p], rows[c].treeId, rows[c].path);
    assert !InSubtree(pulled[p], m.oldTreeId, m.oldPath);
    assert s.path[..|s.path|] == s.path;
    forall j | 0 <= j < |moved| && j != c && ChildOf(moved, p, j, steplen) ensures LexLess(moved[c].path, moved[j].path) {
      assert pulled[j] in pulled;
      TopSlotFirst(parent, steplen, pulled[j].path);
      assert !InSubtree(pulled[j], parent.treeId, s.path);
    }
  }

  /** A prefix of a prefix is a prefix. */
  lemma PrefixTransitive(a: Path, b: Path, c: Path)
    ensures IsPrefix(a, b) && IsPrefix(b, c) ==> IsPrefix(a, c)
  {
    if IsPrefix(a, b) && IsPrefix(b, c) {
      assert c[..|a|] == c[..|b|][..|a|];
    }
  }

  /** A selection in ascending order from fromPath on that holds fromPath holds it first. */
  lemma {:induction false} FirstIsFrom(sib: seq<Row>, fromPath: Path, r: Row)
    requires Ascending(sib) && FromOn(fromPath, sib) && r in sib && r.path == fromPath
    ensures |sib| >= 1 && sib[0].path == fromPath
  {
    LessNotAtLeast(sib[0].path, fromPath);
  }

  /** inc_path of the last sibling comes after it, or NextOf falls back to fromPath. */
  lemma {:induction false} NextOfAfter(sib: seq<Row>, fromPath: Path, steplen: nat)
    requires steplen > 0 && sib != [] && IsPath(sib[|sib| - 1].path)
    ensures var next := NextOf(sib, fromPath, steplen);
      next == fromPath || LexLess(sib[|sib| - 1].path, next)
  {
    var last := sib[|sib| - 1].path;
    if IncPath(last, steplen).Ok? {
      IncPathGreater(last, steplen);
    }
  }

  /** A pull down sends each sibling to a later path, or at worst back to fromPath. */
  lemma {:induction false} DownDestsAfter(sib: seq<Row>, fromPath: Path, steplen: nat, k: nat)
    requires steplen > 0 && k < |sib| && Ascending(sib) && IsPath(sib[|sib| - 1].path)
    ensures var dest := DownDests(sib, NextOf(sib, fromPath, steplen));
      dest[k] == fromPath || LexLess(sib[k].path, dest[k])
  {
    NextOfAfter(sib, fromPath, steplen);
    DestAfter(sib, NextOf(sib, fromPath, steplen), fromPath, k);
  }

  lemma {:induction false} DestAfter(sib: seq<Row>, next: Path, fromPath: Path, k: nat)
    requires k < |sib| && Ascending(sib) && (next == fromPath || LexLess(sib[|sib| - 1].path, next))
    ensures DownDests(sib, next)[k] == fromPath || LexLess(sib[k].path, DownDests(sib, next)[k])
  {
    if k < |sib| - 1 {
      assert DownDests(sib, next)[k] == sib[k + 1].path;
    }
  }

  /**
   * After a shift, a row at the level of the siblings is either one that
   * stayed, before every sibling root, or a sibling root now at its
   * destination.
   */
  lemma {:induction false} LevelPlace(rows: seq<Row>, out: seq<Row>, treeId: int, pp: Path, steplen: nat, sib: seq<Row>, dest: seq<Path>, j: nat)
    requires LevelShift(rows, out, treeId, pp, steplen, sib, dest) && j < |rows|
    requires out[j].treeId == treeId && IsPrefix(pp, out[j].path) && |out[j].path| == |pp| + steplen
    ensures Unmoved(rows[j], treeId, sib) ==> out[j] == rows[j] && forall k :: 0 <= k < |sib| ==> LexLess(out[j].path, sib[k].path)
    ensures !Unmoved(rows[j], treeId, sib) ==> exists k :: 0 <= k < |sib| && out[j].path == dest[k]
  {
    if !Unmoved(rows[j], treeId, sib) {
      var k :| 0 <= k < |sib| && InSubtree(rows[j], treeId, sib[k].path);
      assert out[j] == rows[j].(path := dest[k] + rows[j].path[|sib[k].path|..]);
      assert rows[j].path[|sib[k].path|..] == [];
      assert out[j].path == dest[k] + [];
    }
  }

  /** The sibling target keeps the anchor's length and parent path. */
  lemma SiblingTargetParent(anchor: Row, side: Side, steplen: nat)
    requires steplen > 0 && Shaped(anchor, steplen) && anchor.depth >= 1 && SiblingTarget(anchor, side, steplen).Ok?
    ensures var target := SiblingTarget(anchor, side, steplen).value;
      |target| == |anchor.path| && ParentPath(target, steplen) == ParentPath(anchor.path, steplen)
  {
    MulMono(1, anchor.depth, steplen);
    if side == After {
      IncPathShape(anchor.path, steplen);
      var r, i, c := IncPath(anchor.path, steplen).value, IncPos(anchor.path, steplen), Cut(anchor.path, steplen);
      assert r[..c] == r[..i][..c];
      assert anchor.path[..c] == anchor.path[..i][..c];
    }
  }

  /**
   * move_subtree_before / move_subtree_after, for an anchor below a root (the
   * source asserts the anchor has a parent), in a closed table with unique
   * (tree_id, path): the index stays unique and the node becomes the sibling
   * right before, or right after, the anchor.
   */
  lemma {:induction false} MovedBySiblingPlaces(rows: seq<Row>, steplen: nat, side: Side, nodeId: int, anchorId: int)
    requires WellFormed(rows, steplen) && UniquePaths(rows) && Closed(rows, steplen)
    requires Find(rows, nodeId).Some? && Find(rows, anchorId).Some? && Find(rows, anchorId).value.depth >= 1
    ensures var out := MovedBySibling(rows, steplen, side, nodeId, anchorId);
      out.Ok? ==>
        && UniquePaths(out.value)
        && forall a, c :: 0 <= a < |rows| && 0 <= c < |rows| && rows[a].id == anchorId && rows[c].id == nodeId ==>
             && (side == Before ==> Adjacent(out.value, c, a, steplen))
             && (side == After ==> Adjacent(out.value, a, c, steplen))
  {
    var node, anchor := Find(rows, nodeId).value, Find(rows, anchorId).value;
    MemberShaped(rows, steplen, anchor);
    SiblingTargetShape(anchor, side, steplen);
    var t := SiblingTarget(anchor, side, steplen);
    if !IntoOwnSubtree(node, anchor) && t.Ok? && PullPlan(rows, steplen, false, anchor.treeId, t.value, anchor.depth).Ok? {
      var target, treeId := t.value, anchor.treeId;
      SiblingTargetParent(anchor, side, steplen);
      var pp := ParentPath(target, steplen);
      PrefixTransitive(node.path, pp, anchor.path);
      LandedCore(rows, steplen, nodeId, anchor.parentId, treeId, target, anchor.depth);
      var pulled, m := LandPulled(rows, steplen, treeId, target, anchor.depth), LandMove(rows, steplen, nodeId, treeId, target, anchor.depth);
      var out := Reparented(pulled, steplen, nodeId, anchor.parentId, m);
      assert MovedBySibling(rows, steplen, side, nodeId, anchorId) == Ok(out);
      forall a, c | 0 <= a < |rows| && 0 <= c < |rows| && rows[a].id == anchorId && rows[c].id == nodeId
        ensures side == Before ==> Adjacent(out, c, a, steplen)
        ensures side == After ==> Adjacent(out, a, c, steplen)
      {
        KeyedRow(rows, steplen, a, anchorId);
        KeyedRow(rows, steplen, c, nodeId);
        LandedBeside(rows, steplen, side, nodeId, anchorId, a, c);
      }
    }
  }

  /** MovedBySiblingPlaces, stated of the rows a successful move leaves. */
  lemma MovedBySiblingLeaves(rows: seq<Row>, out: seq<Row>, steplen: nat, side: Side, nodeId: int, anchorId: int)
    requires WellFormed(rows, steplen) && UniquePaths(rows) && Closed(rows, steplen)
    requires Find(rows, nodeId).Some? && Find(rows, anchorId).Some? && Find(rows, anchorId).value.depth >= 1
    requires MovedBySibling(rows, steplen, side, nodeId, anchorId) == Ok(out)
    ensures UniquePaths(out)
    ensures forall a, c :: 0 <= a < |rows| && 0 <= c < |rows| && rows[a].id == anchorId && rows[c].id == nodeId ==>
      Beside(out, side, a, c, steplen)
  {
    MovedBySiblingPlaces(rows, steplen, side, nodeId, anchorId);
  }

  /** MovedBySiblingPlaces for the anchor at index a and the node at index c. */
  lemma {:induction false} LandedBeside(rows: seq<Row>, steplen: nat, side: Side, nodeId: int, anchorId: int, a: nat, c: nat)
    requires WellFormed(rows, steplen) && UniquePaths(rows) && Closed(rows, steplen)
    requires a < |rows| && c < |rows| && rows[a].id == anchorId && rows[c].id == nodeId
    requires rows[a].depth >= 1 && IsPath(rows[a].path) && !IntoOwnSubtree(rows[c], rows[a])
    requires SiblingTarget(rows[a], side, steplen).Ok?
    requires PullPlan(rows, steplen, false, rows[a].treeId, SiblingTarget(rows[a], side, steplen).value, rows[a].depth).Ok?
    ensures var out := MovedBySibling(rows, steplen, side, nodeId, anchorId);
      && out.Ok?
      && (side == Before ==> Adjacent(out.value, c, a, steplen))
      && (side == After ==> Adjacent(out.value, a, c, steplen))
  {
    if side == Before {
      LandedBefore(rows, steplen, nodeId, anchorId, a, c);
    } else {
      LandedAfter(rows, steplen, nodeId, anchorId, a, c);
    }
  }

  /** LandedBeside before the anchor: the node takes the anchor's place and the anchor moves down one. */
  lemma {:induction false} LandedBefore(rows: seq<Row>, steplen: nat, nodeId: int, anchorId: int, a: nat, c: nat)
    requires WellFormed(rows, steplen) && UniquePaths(rows) && Closed(rows, steplen)
    requires a < |rows| && c < |rows| && rows[a].id == anchorId && rows[c].id == nodeId
    requires rows[a].depth >= 1 && IsPath(rows[a].path) && !IntoOwnSubtree(rows[c], rows[a])
    requires SiblingTarget(rows[a], Before, steplen).Ok?
    requires PullPlan(rows, steplen, false, rows[a].treeId, SiblingTarget(rows[a], Before, steplen).value, rows[a].depth).Ok?
    ensures var out := MovedBySibling(rows, steplen, Before, nodeId, anchorId);
      && out.Ok?
      && Adjacent(out.value, c, a, steplen)
  {
    KeyedRow(rows, steplen, a, anchorId);
    KeyedRow(rows, steplen, c, nodeId);
    var anchor, treeId := rows[a], rows[a].treeId;
    MemberShaped(rows, steplen, anchor);
    SiblingTargetShape(anchor, Before, steplen);
    var target := SiblingTarget(anchor, Before, steplen).value;
    SiblingTargetParent(anchor, Before, steplen);
    var pp := ParentPath(target, steplen);
    PrefixTransitive(rows[c].path, pp, anchor.path);
    LandedCore(rows, steplen, nodeId, anchor.parentId, treeId, target, anchor.depth);
    var pulled, m := LandPulled(rows, steplen, treeId, target, anchor.depth), LandMove(rows, steplen, nodeId, treeId, target, anchor.depth);
    var moved := RewriteSubtree(SetParent(pulled, nodeId, anchor.parentId), m, steplen);
    var out := Reparented(pulled, steplen, nodeId, anchor.parentId, m);
    assert MovedBySibling(rows, steplen, Before, nodeId, anchorId) == Ok(out);
    var sib := Siblings(rows, steplen, treeId, target, anchor.depth);
    SiblingsFacts(rows, steplen, treeId, target, anchor.depth);
    SiblingsMembers(rows, steplen, treeId, target, anchor.depth);
    ParentAligned(target, steplen, anchor.depth);
    FromSelected(rows, steplen, treeId, target, anchor.depth, anchor);
    BeforeAdjacent(rows, pulled, moved, steplen, m, treeId, pp, sib, target, a, c);
    AdjacentKept(moved, out, steplen, c, a);
  }

  /** LandedBeside after the anchor: the node takes the slot after the anchor. */
  lemma {:induction false} LandedAfter(rows: seq<Row>, steplen: nat, nodeId: int, anchorId: int, a: nat, c: nat)
    requires WellFormed(rows, steplen) && UniquePaths(rows) && Closed(rows, steplen)
    requires a < |rows| && c < |rows| && rows[a].id == anchorId && rows[c].id == nodeId
    requires rows[a].depth >= 1 && IsPath(rows[a].path) && !IntoOwnSubtree(rows[c], rows[a])
    requires SiblingTarget(rows[a], After, steplen).Ok?
    requires PullPlan(rows, steplen, false, rows[a].treeId, SiblingTarget(rows[a], After, steplen).value, rows[a].depth).Ok?
    ensures var out := MovedBySibling(rows, steplen, After, nodeId, anchorId);
      && out.Ok?
      && Adjacent(out.value, a, c, steplen)
  {
    KeyedRow(rows, steplen, a, anchorId);
    KeyedRow(rows, steplen, c, nodeId);
    var anchor, treeId := rows[a], rows[a].treeId;
    MemberShaped(rows, steplen, anchor);
    SiblingTargetShape(anchor, After, steplen);
    var target := SiblingTarget(anchor, After, steplen).value;
    SiblingTargetParent(anchor, After, steplen);
    var pp := ParentPath(target, steplen);
    PrefixTransitive(rows[c].path, pp, anchor.path);
    LandedCore(rows, steplen, nodeId, anchor.parentId, treeId, target, anchor.depth);
    var pulled, m := LandPulled(rows, steplen, treeId, target, anchor.depth), LandMove(rows, steplen, nodeId, treeId, target, anchor.depth);
    var moved := RewriteSubtree(SetParent(pulled, nodeId, anchor.parentId), m, steplen);
    var out := Reparented(pulled, steplen, nodeId, anchor.parentId, m);
    assert MovedBySibling(rows, steplen, After, nodeId, anchorId) == Ok(out);
    var sib := Siblings(rows, steplen, treeId, target, anchor.depth);
    SiblingsFacts(rows, steplen, treeId, target, anchor.depth);
    SiblingsMembers(rows, steplen, treeId, target, anchor.depth);
    ParentAligned(target, steplen, anchor.depth);
    AfterAdjacent(rows, pulled, moved, steplen, m, treeId, pp, sib, target, a, c);
    AdjacentKept(moved, out, steplen, a, c);
  }

  /** Before the pull up, the node landed on the anchor's old path sits right before the anchor. */
  lemma {:induction false} BeforeAdjacent(rows: seq<Row>, pulled: seq<Row>, moved: seq<Row>, steplen: nat, m: Move,
                                          treeId: int, pp: Path, sib: seq<Row>, target: Path, a: nat, c: nat)
    requires WellFormed(pulled, steplen) && Relabels(rows, pulled, steplen) && MovedRows(pulled, moved, m)
    requires LevelShift(rows, pulled, treeId, pp, steplen, sib, DownDests(sib, NextOf(sib, target, steplen)))
    requires Vacant(pulled, treeId, target) && Ascending(sib) && FromOn(target, sib) && forall k :: 0 <= k < |sib| ==> sib[k] in rows
    requires |target| == |pp| + steplen && IsPrefix(pp, target)
    requires a < |rows| && c < |rows| && rows[a] in sib && rows[a].treeId == treeId && rows[a].path == target
    requires !IntoOwnSubtree(rows[c], rows[a])
    requires pulled[c].treeId == m.oldTreeId && pulled[c].path == m.oldPath
    requires moved[c].treeId == treeId && moved[c].path == target
    requires forall j :: 0 <= j < |rows| && j != c && |moved[j].path| == |target| ==>
               moved[j].treeId == pulled[j].treeId && moved[j].path == pulled[j].path
    ensures Adjacent(moved, c, a, steplen)
  {
    var dest := DownDests(sib, NextOf(sib, target, steplen));
    FirstIsFrom(sib, target, rows[a]);
    assert target[..|target|] == target;
    assert rows[a].path[|sib[0].path|..] == [];
    assert pulled[a].path == dest[0] + [];
    assert sib[|sib| - 1] in rows;
    DownDestsAfter(sib, target, steplen, 0);
    assert !InSubtree(rows[a], rows[c].treeId, rows[c].path);
    assert !InSubtree(pulled[a], m.oldTreeId, m.oldPath);
    BeforeNone(rows, pulled, moved, steplen, treeId, pp, sib, dest, target, a, c);
  }

  /** No sibling of the landed node lies strictly between it and the anchor's destination. */
  lemma {:induction false} BeforeNone(rows: seq<Row>, pulled: seq<Row>, moved: seq<Row>, steplen: nat,
                                      treeId: int, pp: Path, sib: seq<Row>, dest: seq<Path>, target: Path, a: nat, c: nat)
    requires LevelShift(rows, pulled, treeId, pp, steplen, sib, dest) && |sib| >= 1 && sib[0].path == target
    requires |moved| == |rows| && |target| == |pp| + steplen && IsPrefix(pp, target)
    requires a < |rows| && c < |rows| && moved[c].treeId == treeId && moved[c].path == target && moved[a].path == dest[0]
    requires forall j :: 0 <= j < |rows| && j != c && |moved[j].path| == |target| ==>
               moved[j].treeId == pulled[j].treeId && moved[j].path == pulled[j].path
    ensures forall j :: 0 <= j < |moved| && Sibs(moved[c], moved[j], steplen) ==>
              !(LexLess(moved[c].path, moved[j].path) && LexLess(moved[j].path, moved[a].path))
  {
    forall j | 0 <= j < |moved| && Sibs(moved[c], moved[j], steplen)
      ensures !(LexLess(moved[c].path, moved[j].path) && LexLess(moved[j].path, moved[a].path))
    {
      if j == c {
        LexLessIrreflexive(target);
      } else {
        assert pulled[j].path[..|pp|] == pp;
        BeforeLevel(rows, pulled, treeId, pp, steplen, sib, dest, target, j);
      }
    }
  }

  /** After the pull down, no row at the level lies strictly between fromPath and the first sibling's destination. */
  lemma {:induction false} BeforeLevel(rows: seq<Row>, pulled: seq<Row>, treeId: int, pp: Path, steplen: nat,
                                       sib: seq<Row>, dest: seq<Path>, target: Path, j: nat)
    requires LevelShift(rows, pulled, treeId, pp, steplen, sib, dest) && |sib| >= 1 && sib[0].path == target && j < |rows|
    requires pulled[j].treeId == treeId && IsPrefix(pp, pulled[j].path) && |pulled[j].path| == |pp| + steplen
    ensures !(LexLess(target, pulled[j].path) && LexLess(pulled[j].path, dest[0]))
  {
    LevelPlace(rows, pulled, treeId, pp, steplen, sib, dest, j);
    if Unmoved(rows[j], treeId, sib) {
      LexLessAsymmetric(pulled[j].path, target);
    } else {
      var k :| 0 <= k < |sib| && pulled[j].path == dest[k];
      if k == 0 {
        LexLessIrreflexive(dest[0]);
      } else {
        LexLessAsymmetric(dest[0], dest[k]);
      }
    }
  }

  /** Before the pull up, the node landed on inc_path of the anchor's path sits right after the anchor. */
  lemma {:induction false} AfterAdjacent(rows: seq<Row>, pulled: seq<Row>, moved: seq<Row>, steplen: nat, m: Move,
                                         treeId: int, pp: Path, sib: seq<Row>, target: Path, a: nat, c: nat)
    requires WellFormed(rows, steplen) && WellFormed(pulled, steplen) && Relabels(rows, pulled, steplen) && MovedRows(pulled, moved, m)
    requires LevelShift(rows, pulled, treeId, pp, steplen, sib, DownDests(sib, NextOf(sib, target, steplen)))
    requires Ascending(sib) && FromOn(target, sib) && forall k :: 0 <= k < |sib| ==> sib[k] in rows
    requires |target| == |pp| + steplen && IsPrefix(pp, target)
    requires a < |rows| && c < |rows| && rows[a].treeId == treeId && IsPrefix(pp, rows[a].path) && |rows[a].path| == |target|
    requires IncPath(rows[a].path, steplen) == Ok(target) && LexLess(rows[a].path, target)
    requires !IntoOwnSubtree(rows[c], rows[a])
    requires pulled[c].treeId == m.oldTreeId && pulled[c].path == m.oldPath
    requires moved[c].treeId == treeId && moved[c].path == target
    requires forall j :: 0 <= j < |rows| && j != c && |moved[j].path| == |target| ==>
               moved[j].treeId == pulled[j].treeId && moved[j].path == pulled[j].path
    ensures Adjacent(moved, a, c, steplen)
  {
    var dest := DownDests(sib, NextOf(sib, target, steplen));
    var anchor := rows[a].path;
    LessNotAtLeast(anchor, target);
    forall k | 0 <= k < |sib| ensures !InSubtree(rows[a], treeId, sib[k].path) {
      PrefixSameLength(sib[k].path, anchor);
    }
    assert Unmoved(rows[a], treeId, sib);
    assert !InSubtree(rows[a], rows[c].treeId, rows[c].path);
    assert !InSubtree(pulled[a], m.oldTreeId, m.oldPath);
    if sib != [] {
      assert sib[|sib| - 1] in rows;
    }
    forall k | 0 <= k < |sib| ensures dest[k] == target || LexLess(sib[k].path, dest[k]) {
      DownDestsAfter(sib, target, steplen, k);
    }
    forall j | 0 <= j < |moved| && Sibs(moved[a], moved[j], steplen)
      ensures !(LexLess(moved[a].path, moved[j].path) && LexLess(moved[j].path, moved[c].path))
    {
      if j == c {
        LexLessIrreflexive(target);
      } else {
        assert pulled[j].path[..|pp|] == pp;
        AfterLevel(rows, pulled, treeId, pp, steplen, sib, dest, anchor, target, j);
      }
    }
  }

  /**
   * After the pull down, no row at the level lies strictly between the anchor
   * and inc_path of it: the rows that stayed come at or after inc_path once
   * after the anchor, and every destination is target or later.
   */
  lemma {:induction false} AfterLevel(rows: seq<Row>, pulled: seq<Row>, treeId: int, pp: Path, steplen: nat,
                                      sib: seq<Row>, dest: seq<Path>, anchor: Path, target: Path, j: nat)
    requires LevelShift(rows, pulled, treeId, pp, steplen, sib, dest) && FromOn(target, sib) && j < |rows|
    requires forall k :: 0 <= k < |sib| ==> dest[k] == target || LexLess(sib[k].path, dest[k])
    requires IsPath(anchor) && |anchor| == |pp| + steplen && IncPath(anchor, steplen) == Ok(target)
    requires pulled[j].treeId == treeId && IsPrefix(pp, pulled[j].path) && |pulled[j].path| == |pp| + steplen
    ensures !(LexLess(anchor, pulled[j].path) && LexLess(pulled[j].path, target))
  {
    var x := pulled[j].path;
    LevelPlace(rows, pulled, treeId, pp, steplen, sib, dest, j);
    LessNotAtLeast(x, target);
    assert rows[j] in rows;
    if Unmoved(rows[j], treeId, sib) {
      IncPathNext(anchor, x, steplen);
    } else {
      var k :| 0 <= k < |sib| && x == dest[k];
      LessEqLess(target, sib[k].path, dest[k]);
    }
  }

  /**
   * detach_subtree, in a table with unique (tree_id, path): the new tree is
   * clear, the node lands at its root, the index stays unique and the gap
   * left in the old tree is closed.
   */
  lemma {:induction false} DetachedCloses(rows: seq<Row>, steplen: nat, nodeId: int)
    requires WellFormed(rows, steplen) && UniquePaths(rows) && Find(rows, nodeId).Some?
    ensures var node, m := Find(rows, nodeId).value, DetachMove(rows, steplen, nodeId);
      var moved := RewriteSubtree(SetParent(rows, nodeId, None), m, steplen);
      && MoveClear(rows, m)
      && (forall i :: 0 <= i < |rows| && rows[i].id == nodeId ==> moved[i].treeId == m.newTreeId && moved[i].path == [])
      && ClosesGap(moved, Detached(rows, steplen, nodeId), steplen, node.treeId, node.path, node.depth)
  {
    var node := Find(rows, nodeId).value;
    MemberShaped(rows, steplen, node);
    var m := DetachMove(rows, steplen, nodeId);
    DetachMoveClear(rows, steplen, nodeId);
    ReparentedCloses(rows, steplen, node, None, m);
  }

  /** The move of detach_subtree starts at the node and ends at the root of a tree that holds no row. */
  lemma {:induction false} DetachMoveClear(rows: seq<Row>, steplen: nat, nodeId: int)
    requires WellFormed(rows, steplen) && Find(rows, nodeId).Some?
    ensures var node, m := Find(rows, nodeId).value, DetachMove(rows, steplen, nodeId);
      && node.treeId == m.oldTreeId && node.path == m.oldPath && node.depth == m.oldDepth && m.newPath == []
      && MoveClear(rows, m)
  {
    var node := Find(rows, nodeId).value;
    assert node in rows;
    var t := MaxTreeId(rows).value + 1;
    assert node.treeId < t;
    var m := DetachMove(rows, steplen, nodeId);
    assert m == Move(t, [], 0, node.treeId, node.path, node.depth);
    NewTreeVacant(rows);
  }

  /** Tree max(tree_id) + 1 holds no row. */
  lemma {:induction false} NewTreeVacant(rows: seq<Row>)
    requires rows != []
    ensures Vacant(rows, MaxTreeId(rows).value + 1, [])
  {
    forall i | 0 <= i < |rows| ensures !InSubtree(rows[i], MaxTreeId(rows).value + 1, []) {
      assert rows[i] in rows;
    }
  }
}
