/**
 * What the runs of _update_subtree calls of _pull_nodes do to the table as a
 * whole: which rows move and where they land, and that such a shift among
 * the siblings of one level keeps every ancestor link, every sibling link and
 * the order of siblings, and keeps (tree_id, path) unique.
 */
module Shifts {
  import opened Wrappers
  import opened PathOrder
  import opened PathCodec
  import opened Rows
  import opened Filters
  import opened Updates
  import opened Pulls

  /** The unique index on (tree_id, path): no two rows share a tree and a path. */
  ghost predicate UniquePaths(rows: seq<Row>) {
    forall i, j :: 0 <= i < |rows| && 0 <= j < |rows| && rows[i].treeId == rows[j].treeId && rows[i].path == rows[j].path ==> i == j
  }

  /** No row of the table lies at path or below it in tree treeId. */
  ghost predicate Vacant(rows: seq<Row>, treeId: int, path: Path) {
    forall i :: 0 <= i < |rows| ==> !InSubtree(rows[i], treeId, path)
  }

  /**
   * Moves among the roots of one level of tree treeId: each stays in the
   * tree at that depth, no two take the same root, and none lands on the
   * root of a later one.
   */
  ghost predicate LevelMoves(ms: seq<Move>, treeId: int, depth: int, steplen: nat) {
    && MovesShaped(ms, steplen)
    && (forall k :: 0 <= k < |ms| ==> StaysIn(ms[k], treeId) && ms[k].oldDepth == depth)
    && (forall k, l :: 0 <= k < l < |ms| ==> ms[k].oldPath != ms[l].oldPath && ms[k].newPath != ms[l].oldPath)
  }

  /**
   * Row r became r' under the first n moves: if it lies below the old root of
   * move k, it is re-rooted at that move's new root; if below none, unchanged.
   */
  ghost predicate Tracked(r: Row, r': Row, ms: seq<Move>, n: nat, treeId: int)
    requires n <= |ms|
  {
    && (forall k :: 0 <= k < n && InSubtree(r, treeId, ms[k].oldPath) ==>
          r' == r.(path := ms[k].newPath + r.path[|ms[k].oldPath|..]))
    && ((forall k :: 0 <= k < n ==> !InSubtree(r, treeId, ms[k].oldPath)) ==> r' == r)
  }

  /**
   * Running the first n moves of such a run: a row below the old root of
   * move k is re-rooted at its new root, once; a row below none of them
   * stays as it was.
   */
  lemma {:induction false} LevelRun(rows: seq<Row>, ms: seq<Move>, n: nat, treeId: int, depth: int, steplen: nat)
    requires WellFormed(rows, steplen) && LevelMoves(ms, treeId, depth, steplen) && n <= |ms|
    ensures MovesShaped(ms[..n], steplen)
    ensures forall i :: 0 <= i < |rows| ==> Tracked(rows[i], ApplyMoves(rows, ms[..n], steplen)[i], ms, n, treeId)
  {
    if n == 0 {
      assert ms[..0] == [];
    } else {
      LevelRun(rows, ms, n - 1, treeId, depth, steplen);
      ApplyMovesStep(rows, ms, n - 1, steplen);
      ApplyMovesSpec(rows, ms[..n - 1], steplen, treeId);
      var mid := ApplyMoves(rows, ms[..n - 1], steplen);
      var m := ms[n - 1];
      var out := ApplyMoves(rows, ms[..n], steplen);
      assert out == RewriteSubtree(mid, m, steplen);
      forall i | 0 <= i < |rows| ensures Tracked(rows[i], out[i], ms, n, treeId) {
        assert Shaped(mid[i], steplen) && out[i] == RewriteRow(mid[i], m, steplen);
        LevelRewrite(rows[i], mid[i], ms, n, treeId, depth, steplen);
      }
    }
  }

  /** The UPDATE of move n - 1 on one row keeps it tracked. */
  lemma LevelRewrite(r: Row, cur: Row, ms: seq<Move>, n: nat, treeId: int, depth: int, steplen: nat)
    requires steplen > 0 && LevelMoves(ms, treeId, depth, steplen) && 0 < n <= |ms|
    requires Shaped(cur, steplen) && Tracked(r, cur, ms, n - 1, treeId)
    ensures MoveShaped(ms[n - 1], steplen) && Tracked(r, RewriteRow(cur, ms[n - 1], steplen), ms, n, treeId)
  {
    var m := ms[n - 1];
    assert MoveShaped(m, steplen) && StaysIn(m, treeId) && m.oldDepth == depth;
    RewriteRowSpec(cur, m, steplen);
    LevelRow(r, cur, ms, n, treeId, depth, steplen);
  }

  /** The step of LevelRun for one row: move n - 1 re-roots it exactly when no earlier move did. */
  lemma LevelRow(r: Row, cur: Row, ms: seq<Move>, n: nat, treeId: int, depth: int, steplen: nat)
    requires steplen > 0 && LevelMoves(ms, treeId, depth, steplen) && 0 < n <= |ms|
    requires Tracked(r, cur, ms, n - 1, treeId)
    ensures var m := ms[n - 1];
      Tracked(r, if InSubtree(cur, m.oldTreeId, m.oldPath) then cur.(path := m.newPath + cur.path[|m.oldPath|..]) else cur, ms, n, treeId)
  {
    var m := ms[n - 1];
    assert MoveShaped(m, steplen) && StaysIn(m, treeId) && m.oldDepth == depth;
    forall k | 0 <= k < n - 1 && InSubtree(r, treeId, ms[k].oldPath)
      ensures !InSubtree(cur, treeId, m.oldPath) && !InSubtree(r, treeId, m.oldPath)
    {
      assert MoveShaped(ms[k], steplen) && StaysIn(ms[k], treeId) && ms[k].oldDepth == depth;
      assert ms[k].newPath != m.oldPath && ms[k].oldPath != m.oldPath;
    }
  }

  /** The paths along a selection are pairwise distinct. */
  ghost predicate DistinctPaths(nodes: seq<Row>) {
    forall k, l :: 0 <= k < l < |nodes| ==> nodes[k].path != nodes[l].path
  }

  /** A shift of distinct siblings whose first target is none of the later siblings is a run of level moves. */
  lemma ShiftLevel(nodes: seq<Row>, first: Path, treeId: int, depth: int, steplen: nat)
    requires forall r :: r in nodes ==> Shaped(r, steplen) && r.depth == depth
    requires IsPath(first) && depth >= 0 && |first| == depth * steplen
    requires DistinctPaths(nodes) && forall l :: 0 < l < |nodes| ==> nodes[l].path != first
    ensures LevelMoves(Shift(nodes, first, treeId, depth), treeId, depth, steplen)
  {
    ShiftShaped(nodes, first, treeId, depth, steplen);
  }

  /** Keys increase along a selection of a well-formed table, so no row occurs in it twice. */
  lemma {:induction false} KeyedOnce(rs: seq<Row>, x: Row)
    requires Keyed(rs)
    ensures multiset(rs)[x] <= 1
  {
    if rs != [] {
      assert rs == [rs[0]] + rs[1..];
      assert Keyed(rs[1..]) by {
        forall i, j | 0 <= i < j < |rs[1..]| ensures rs[1..][i].id < rs[1..][j].id {
          assert rs[1..][i] == rs[i + 1] && rs[1..][j] == rs[j + 1];
        }
      }
      KeyedOnce(rs[1..], x);
      if x == rs[0] {
        assert x !in rs[1..] by {
          forall j | 0 <= j < |rs[1..]| ensures rs[1..][j] != x {
            assert rs[1..][j] == rs[j + 1];
          }
        }
      }
    }
  }

  /** A row at two places of a sequence occurs in it twice. */
  lemma TwiceCounted(rs: seq<Row>, k: nat, l: nat)
    requires k < l < |rs| && rs[k] == rs[l]
    ensures multiset(rs)[rs[k]] >= 2
  {
    assert rs == rs[..k] + [rs[k]] + rs[k + 1..l] + [rs[l]] + rs[l + 1..];
  }

  /**
   * In a table where (tree_id, path) is unique, the siblings _pull_nodes
   * selects have strictly increasing paths, all at fromPath or later.
   */
  lemma SiblingsStrict(rows: seq<Row>, steplen: nat, treeId: int, fromPath: Path, depth: int)
    requires WellFormed(rows, steplen) && UniquePaths(rows) && IsPath(fromPath)
    ensures var sib := Siblings(rows, steplen, treeId, fromPath, depth);
      && DistinctPaths(sib)
      && (forall k, l :: 0 <= k < l < |sib| ==> LexLess(sib[k].path, sib[l].path))
      && (forall r :: r in sib ==> r in rows && Shaped(r, steplen) && r.treeId == treeId && r.depth == depth && LexLessEq(fromPath, r.path))
  {
    var f := r => SiblingsFrom(steplen, treeId, fromPath, depth, r);
    var sel := Filter(rows, f);
    var sib := Siblings(rows, steplen, treeId, fromPath, depth);
    FilterWellFormed(rows, f, steplen);
    SortByPathSpec(sel);
    SiblingsShaped(rows, steplen, treeId, fromPath, depth);
    forall k, l | 0 <= k < l < |sib| ensures sib[k].path != sib[l].path && LexLess(sib[k].path, sib[l].path) {
      KeyedOnce(sel, sib[k]);
      if sib[k] == sib[l] {
        TwiceCounted(sib, k, l);
      }
      assert sib[k] in sib && sib[l] in sib;
      var i :| 0 <= i < |rows| && rows[i] == sib[k];
      var j :| 0 <= j < |rows| && rows[j] == sib[l];
    }
  }

  /** Where _pull_nodes sends sibling k up: to the path of the sibling before it, the first to fromPath. */
  function UpDests(sib: seq<Row>, fromPath: Path): (ns: seq<Path>)
    ensures |ns| == |sib|
  {
    seq(|sib|, k requires 0 <= k < |sib| => if k == 0 then fromPath else sib[k - 1].path)
  }

  /** inc_path of the last sibling's path, where it exists (fromPath stands in otherwise). */
  function NextOf(sib: seq<Row>, fromPath: Path, steplen: nat): Path
    requires steplen > 0
  {
    if sib == [] || !IsPath(sib[|sib| - 1].path) then fromPath
    else match IncPath(sib[|sib| - 1].path, steplen)
      case Ok(next) => next
      case Err(_) => fromPath
  }

  /** Where _pull_nodes sends sibling k down: to the path of the sibling after it, the last to next. */
  function DownDests(sib: seq<Row>, next: Path): (ns: seq<Path>)
    ensures |ns| == |sib|
  {
    seq(|sib|, k requires 0 <= k < |sib| => if k == |sib| - 1 then next else sib[k + 1].path)
  }

  /**
   * Row r became r' under a pull of the siblings sib: below sibling k, it was
   * re-rooted at dest[k]; below none of them, it stayed as it was.
   */
  ghost predicate Pulled(r: Row, r': Row, treeId: int, sib: seq<Row>, dest: seq<Path>)
    requires |dest| == |sib|
  {
    && (forall k :: 0 <= k < |sib| && InSubtree(r, treeId, sib[k].path) ==>
          r' == r.(path := dest[k] + r.path[|sib[k].path|..]))
    && (Unmoved(r, treeId, sib) ==> r' == r)
  }

  /** Row r lies below none of the siblings being pulled. */
  ghost predicate Unmoved(r: Row, treeId: int, sib: seq<Row>) {
    forall k :: 0 <= k < |sib| ==> !InSubtree(r, treeId, sib[k].path)
  }

  /** Every row of the table went through the pull as Pulled says. */
  ghost predicate Shifted(rows: seq<Row>, out: seq<Row>, treeId: int, sib: seq<Row>, dest: seq<Path>) {
    && |out| == |rows| && |dest| == |sib|
    && forall i :: 0 <= i < |rows| ==> Pulled(rows[i], out[i], treeId, sib, dest)
  }

  /**
   * A pull up, in a table where (tree_id, path) is unique: the siblings from
   * fromPath on, in path order, each take the path of the sibling before
   * them, the first one fromPath, and their subtrees come along; every other
   * row stays as it was.
   */
  lemma PulledUp(rows: seq<Row>, steplen: nat, treeId: int, fromPath: Path, depth: int)
    requires WellFormed(rows, steplen) && UniquePaths(rows)
    requires IsPath(fromPath) && depth >= 1 && |fromPath| == depth * steplen
    ensures PullPlan(rows, steplen, true, treeId, fromPath, depth).Ok?
    ensures MovesShaped(PullPlan(rows, steplen, true, treeId, fromPath, depth).value, steplen)
    ensures var sib := Siblings(rows, steplen, treeId, fromPath, depth);
      Shifted(rows, ApplyMoves(rows, PullPlan(rows, steplen, true, treeId, fromPath, depth).value, steplen), treeId, sib, UpDests(sib, fromPath))
  {
    var sib := Siblings(rows, steplen, treeId, fromPath, depth);
    var ms := Shift(sib, fromPath, treeId, depth);
    assert PullPlan(rows, steplen, true, treeId, fromPath, depth) == Ok(ms);
    UpLevel(rows, steplen, treeId, fromPath, depth);
    FullRun(rows, ms, treeId, depth, steplen);
    ShiftUpDests(sib, fromPath, treeId, depth);
    RunShifted(rows, ApplyMoves(rows, ms, steplen), ms, treeId, sib, UpDests(sib, fromPath), false);
  }

  /** A whole run of level moves: LevelRun for all of them. */
  lemma FullRun(rows: seq<Row>, ms: seq<Move>, treeId: int, depth: int, steplen: nat)
    requires WellFormed(rows, steplen) && LevelMoves(ms, treeId, depth, steplen)
    ensures forall i :: 0 <= i < |rows| ==> Tracked(rows[i], ApplyMoves(rows, ms, steplen)[i], ms, |ms|, treeId)
  {
    LevelRun(rows, ms, |ms|, treeId, depth, steplen);
    assert ms[..|ms|] == ms;
  }

  /** The shift up, read along the siblings, sends sibling k to UpDests[k]. */
  lemma ShiftUpDests(sib: seq<Row>, fromPath: Path, treeId: int, depth: int)
    ensures var ms, dest := Shift(sib, fromPath, treeId, depth), UpDests(sib, fromPath);
      forall k :: 0 <= k < |sib| ==> ms[k].oldPath == sib[k].path && ms[k].newPath == dest[k]
  {
  }

  /** The siblings a pull up selects, shifted towards fromPath: a run of level moves. */
  lemma UpLevel(rows: seq<Row>, steplen: nat, treeId: int, fromPath: Path, depth: int)
    requires WellFormed(rows, steplen) && UniquePaths(rows)
    requires IsPath(fromPath) && depth >= 1 && |fromPath| == depth * steplen
    ensures LevelMoves(Shift(Siblings(rows, steplen, treeId, fromPath, depth), fromPath, treeId, depth), treeId, depth, steplen)
  {
    var sib := Siblings(rows, steplen, treeId, fromPath, depth);
    SiblingsStrict(rows, steplen, treeId, fromPath, depth);
    forall l | 0 < l < |sib| ensures sib[l].path != fromPath {
      assert sib[0] in sib;
      LexLessAsymmetric(sib[0].path, sib[l].path);
      if LexLess(fromPath, sib[0].path) {
        LexLessTransitive(fromPath, sib[0].path, sib[l].path);
      }
    }
    ShiftLevel(sib, fromPath, treeId, depth, steplen);
  }

  /** The last sibling's successor: a later path of the same length under the same parent. */
  lemma NextSlot(last: Row, next: Path, steplen: nat, treeId: int, fromPath: Path, depth: int)
    requires steplen > 0 && depth >= 1 && IsPath(fromPath) && |fromPath| == depth * steplen
    requires Shaped(last, steplen) && last.treeId == treeId && last.depth == depth
    requires SiblingsFrom(steplen, treeId, fromPath, depth, last)
    requires IncPath(last.path, steplen) == Ok(next)
    ensures IsPath(next) && LexLess(last.path, next) && |next| == |fromPath|
    ensures next[..|next| - steplen] == fromPath[..|fromPath| - steplen]
  {
    MulMono(1, depth, steplen);
    assert |last.path| == |fromPath| >= steplen;
    IncPathShape(last.path, steplen);
    IncPathGreater(last.path, steplen);
    assert last.path[..|last.path| - steplen] == fromPath[..|fromPath| - steplen] by {
      SiblingsFromIff(steplen, Row(0, None, treeId, fromPath, depth), last);
    }
  }

  /**
   * A successful pull down, in a table where (tree_id, path) is unique: the
   * siblings from fromPath on, in path order, each take the path of the
   * sibling after them, the last one inc_path of its path, and their
   * subtrees come along; every other row stays as it was.
   */
  lemma PulledDown(rows: seq<Row>, steplen: nat, treeId: int, fromPath: Path, depth: int)
    requires WellFormed(rows, steplen) && UniquePaths(rows)
    requires IsPath(fromPath) && depth >= 1 && |fromPath| == depth * steplen
    requires PullPlan(rows, steplen, false, treeId, fromPath, depth).Ok?
    ensures MovesShaped(PullPlan(rows, steplen, false, treeId, fromPath, depth).value, steplen)
    ensures var sib, next := Siblings(rows, steplen, treeId, fromPath, depth), NextOf(Siblings(rows, steplen, treeId, fromPath, depth), fromPath, steplen);
      && (sib != [] ==>
            (&& IsPath(sib[|sib| - 1].path) && IsPath(next) && Ok(next) == IncPath(sib[|sib| - 1].path, steplen)
             && LexLess(sib[|sib| - 1].path, next) && |next| == |fromPath|
             && next[..|next| - steplen] == fromPath[..|fromPath| - steplen]))
      && Shifted(rows, ApplyMoves(rows, PullPlan(rows, steplen, false, treeId, fromPath, depth).value, steplen), treeId, sib, DownDests(sib, next))
  {
    var sib := Siblings(rows, steplen, treeId, fromPath, depth);
    var next := NextOf(sib, fromPath, steplen);
    DownLevel(rows, steplen, treeId, fromPath, depth);
    if sib == [] {
      assert PullPlan(rows, steplen, false, treeId, fromPath, depth) == Ok([]);
      assert ApplyMoves(rows, [], steplen) == rows;
    } else {
      var ms := Shift(Reverse(sib), next, treeId, depth);
      assert PullPlan(rows, steplen, false, treeId, fromPath, depth) == Ok(ms);
      LevelRun(rows, ms, |ms|, treeId, depth, steplen);
      assert ms[..|ms|] == ms;
      ShiftDownDests(sib, next, treeId, depth);
      RunShifted(rows, ApplyMoves(rows, ms, steplen), ms, treeId, sib, DownDests(sib, next), true);
    }
  }

  /**
   * The siblings a successful pull down selects, shifted in reverse towards
   * the successor of the last one: a run of level moves, and the successor
   * is a later path of the same parent.
   */
  lemma DownLevel(rows: seq<Row>, steplen: nat, treeId: int, fromPath: Path, depth: int)
    requires WellFormed(rows, steplen) && UniquePaths(rows)
    requires IsPath(fromPath) && depth >= 1 && |fromPath| == depth * steplen
    requires PullPlan(rows, steplen, false, treeId, fromPath, depth).Ok?
    ensures MovesShaped(PullPlan(rows, steplen, false, treeId, fromPath, depth).value, steplen)
    ensures var sib, next := Siblings(rows, steplen, treeId, fromPath, depth), NextOf(Siblings(rows, steplen, treeId, fromPath, depth), fromPath, steplen);
      && (sib != [] ==>
            (&& IsPath(sib[|sib| - 1].path) && IsPath(next) && Ok(next) == IncPath(sib[|sib| - 1].path, steplen)
             && LexLess(sib[|sib| - 1].path, next) && |next| == |fromPath|
             && next[..|next| - steplen] == fromPath[..|fromPath| - steplen]
             && PullPlan(rows, steplen, false, treeId, fromPath, depth).value == Shift(Reverse(sib), next, treeId, depth)
             && LevelMoves(Shift(Reverse(sib), next, treeId, depth), treeId, depth, steplen)))
  {
    var sib := Siblings(rows, steplen, treeId, fromPath, depth);
    assert MovesShaped(PullPlan(rows, steplen, false, treeId, fromPath, depth).value, steplen) by {
      PullPlanSpec(rows, steplen, false, treeId, fromPath, depth);
    }
    if sib != [] {
      DownNext(rows, steplen, treeId, fromPath, depth);
      DownPlanShift(rows, steplen, treeId, fromPath, depth);
      ReversedLevel(sib, NextOf(sib, fromPath, steplen), treeId, depth, steplen);
    }
  }

  /** A successful pull down of a non-empty selection is the reverse shift towards the successor of the last sibling. */
  lemma DownPlanShift(rows: seq<Row>, steplen: nat, treeId: int, fromPath: Path, depth: int)
    requires WellFormed(rows, steplen) && UniquePaths(rows)
    requires IsPath(fromPath) && depth >= 1 && |fromPath| == depth * steplen
    requires PullPlan(rows, steplen, false, treeId, fromPath, depth).Ok?
    requires Siblings(rows, steplen, treeId, fromPath, depth) != []
    ensures var sib := Siblings(rows, steplen, treeId, fromPath, depth);
      var next := NextOf(sib, fromPath, steplen);
      && IsPath(next) && |next| == depth * steplen
      && (forall r :: r in sib ==> Shaped(r, steplen) && r.depth == depth)
      && (forall k, l :: 0 <= k < l < |sib| ==> LexLess(sib[k].path, sib[l].path))
      && LexLess(sib[|sib| - 1].path, next)
      && PullPlan(rows, steplen, false, treeId, fromPath, depth).value == Shift(Reverse(sib), next, treeId, depth)
  {
    var sib := Siblings(rows, steplen, treeId, fromPath, depth);
    DownNext(rows, steplen, treeId, fromPath, depth);
    SiblingsStrict(rows, steplen, treeId, fromPath, depth);
    assert PullPlan(rows, steplen, false, treeId, fromPath, depth) == PullDown(sib, steplen, treeId, depth);
  }

  /** The successor of the last sibling a successful pull down selects. */
  lemma DownNext(rows: seq<Row>, steplen: nat, treeId: int, fromPath: Path, depth: int)
    requires WellFormed(rows, steplen)
    requires IsPath(fromPath) && depth >= 1 && |fromPath| == depth * steplen
    requires PullPlan(rows, steplen, false, treeId, fromPath, depth).Ok?
    requires Siblings(rows, steplen, treeId, fromPath, depth) != []
    ensures var sib, next := Siblings(rows, steplen, treeId, fromPath, depth), NextOf(Siblings(rows, steplen, treeId, fromPath, depth), fromPath, steplen);
      && IsPath(sib[|sib| - 1].path) && IsPath(next) && Ok(next) == IncPath(sib[|sib| - 1].path, steplen)
      && LexLess(sib[|sib| - 1].path, next) && |next| == |fromPath|
      && next[..|next| - steplen] == fromPath[..|fromPath| - steplen]
  {
    var sib := Siblings(rows, steplen, treeId, fromPath, depth);
    PullPlanSpec(rows, steplen, false, treeId, fromPath, depth);
    SiblingsShaped(rows, steplen, treeId, fromPath, depth);
    SiblingsInFilter(rows, steplen, treeId, fromPath, depth);
    var last := sib[|sib| - 1];
    assert last in sib;
    NextSlot(last, IncPath(last.path, steplen).value, steplen, treeId, fromPath, depth);
  }

  /**
   * Reading a run of moves as a pull: move k (move n - 1 - k when the run
   * goes down the siblings in reverse) takes sibling k to dest[k].
   */
  lemma TrackedPulled(r: Row, r': Row, ms: seq<Move>, treeId: int, sib: seq<Row>, dest: seq<Path>, reversed: bool)
    requires |ms| == |sib| == |dest| && Tracked(r, r', ms, |ms|, treeId)
    requires forall k :: 0 <= k < |sib| ==>
      var q := if reversed then |sib| - 1 - k else k;
      ms[q].oldPath == sib[k].path && ms[q].newPath == dest[k]
    ensures Pulled(r, r', treeId, sib, dest)
  {
    var n := |sib|;
    forall k | 0 <= k < n && InSubtree(r, treeId, sib[k].path)
      ensures r' == r.(path := dest[k] + r.path[|sib[k].path|..])
    {
      var q := if reversed then n - 1 - k else k;
      assert ms[q].oldPath == sib[k].path && ms[q].newPath == dest[k];
    }
    if Unmoved(r, treeId, sib) {
      forall q | 0 <= q < n ensures !InSubtree(r, treeId, ms[q].oldPath) {
        var k := if reversed then n - 1 - q else q;
        assert ms[q].oldPath == sib[k].path;
      }
    }
  }

  /** A whole table through a run of moves, read as a pull. */
  lemma RunShifted(rows: seq<Row>, out: seq<Row>, ms: seq<Move>, treeId: int, sib: seq<Row>, dest: seq<Path>, reversed: bool)
    requires |out| == |rows| && |ms| == |sib| == |dest|
    requires forall i :: 0 <= i < |rows| ==> Tracked(rows[i], out[i], ms, |ms|, treeId)
    requires forall k :: 0 <= k < |sib| ==>
      var q := if reversed then |sib| - 1 - k else k;
      ms[q].oldPath == sib[k].path && ms[q].newPath == dest[k]
    ensures Shifted(rows, out, treeId, sib, dest)
  {
    forall i | 0 <= i < |rows| ensures Pulled(rows[i], out[i], treeId, sib, dest) {
      TrackedPulled(rows[i], out[i], ms, treeId, sib, dest, reversed);
    }
  }

  /** The reversed shift, read along the siblings in path order, sends sibling k to DownDests[k]. */
  lemma ShiftDownDests(sib: seq<Row>, next: Path, treeId: int, depth: int)
    ensures var n, ms, dest := |sib|, Shift(Reverse(sib), next, treeId, depth), DownDests(sib, next);
      forall k :: 0 <= k < n ==> ms[n - 1 - k].oldPath == sib[k].path && ms[n - 1 - k].newPath == dest[k]
  {
    var n, rev := |sib|, Reverse(sib);
    forall j | 1 <= j < n ensures rev[n - 1 - j] == sib[j] {
    }
  }

  /** Everything the pull selects passes its filter. */
  lemma SiblingsInFilter(rows: seq<Row>, steplen: nat, treeId: int, fromPath: Path, depth: int)
    requires steplen > 0 && IsPath(fromPath)
    ensures forall r :: r in Siblings(rows, steplen, treeId, fromPath, depth) ==> SiblingsFrom(steplen, treeId, fromPath, depth, r)
  {
    var f := r => SiblingsFrom(steplen, treeId, fromPath, depth, r);
    var sel := Filter(rows, f);
    SortByPathSpec(sel);
    forall r | r in SortByPath(sel) ensures f(r) {
      assert r in multiset(SortByPath(sel));
    }
  }

  /** The reversed siblings, strictly decreasing, shifted towards next past the last: a run of level moves. */
  lemma ReversedLevel(sib: seq<Row>, next: Path, treeId: int, depth: int, steplen: nat)
    requires sib != [] && depth >= 0 && IsPath(next) && |next| == depth * steplen
    requires forall r :: r in sib ==> Shaped(r, steplen) && r.depth == depth
    requires forall k, l :: 0 <= k < l < |sib| ==> LexLess(sib[k].path, sib[l].path)
    requires LexLess(sib[|sib| - 1].path, next)
    ensures LevelMoves(Shift(Reverse(sib), next, treeId, depth), treeId, depth, steplen)
  {
    var rev := Reverse(sib);
    ReversedMembers(sib, depth, steplen);
    ReversedDistinct(sib);
    ReversedMissNext(sib, next);
    ShiftLevel(rev, next, treeId, depth, steplen);
  }

  /** The reversed siblings are the same shaped rows at the same depth. */
  lemma ReversedMembers(sib: seq<Row>, depth: int, steplen: nat)
    requires forall r :: r in sib ==> Shaped(r, steplen) && r.depth == depth
    ensures forall r :: r in Reverse(sib) ==> Shaped(r, steplen) && r.depth == depth
  {
    var n, rev := |sib|, Reverse(sib);
    forall r | r in rev ensures Shaped(r, steplen) && r.depth == depth {
      var k :| 0 <= k < |rev| && rev[k] == r;
      assert sib[n - 1 - k] in sib;
    }
  }

  /** Strictly increasing paths stay pairwise distinct once reversed. */
  lemma ReversedDistinct(sib: seq<Row>)
    requires forall k, l :: 0 <= k < l < |sib| ==> LexLess(sib[k].path, sib[l].path)
    ensures DistinctPaths(Reverse(sib))
  {
    var n, rev := |sib|, Reverse(sib);
    forall k, l | 0 <= k < l < n ensures rev[k].path != rev[l].path {
      assert rev[k] == sib[n - 1 - k] && rev[l] == sib[n - 1 - l];
      assert LexLess(sib[n - 1 - l].path, sib[n - 1 - k].path);
      LexLessIrreflexive(rev[l].path);
    }
  }

  /** None of the reversed siblings but the first, the last one, sits at next, which comes after the last. */
  lemma ReversedMissNext(sib: seq<Row>, next: Path)
    requires sib != [] && forall k, l :: 0 <= k < l < |sib| ==> LexLess(sib[k].path, sib[l].path)
    requires LexLess(sib[|sib| - 1].path, next)
    ensures forall l :: 0 < l < |sib| ==> Reverse(sib)[l].path != next
  {
    var n, rev := |sib|, Reverse(sib);
    forall l | 0 < l < n ensures rev[l].path != next {
      assert rev[l] == sib[n - 1 - l];
      LexLessTransitive(sib[n - 1 - l].path, sib[n - 1].path, next);
      LexLessIrreflexive(next);
    }
  }

  /** Two rows of the same tree at the same depth under the same parent path. */
  ghost predicate Sibs(x: Row, y: Row, steplen: nat) {
    && x.treeId == y.treeId && |x.path| == |y.path| && |x.path| >= steplen
    && x.path[..|x.path| - steplen] == y.path[..|y.path| - steplen]
  }

  /** The sibling roots, and their destinations, in strictly increasing path order. */
  ghost predicate InOrder(sib: seq<Row>, dest: seq<Path>) {
    && |dest| == |sib|
    && forall k, l :: 0 <= k < l < |sib| ==> LexLess(sib[k].path, sib[l].path) && LexLess(dest[k], dest[l])
  }

  /**
   * A shift at one level under the parent path pp, as a pull makes it: each
   * sibling subtree moves to its destination at that level, roots and
   * destinations lie in the same increasing order, a destination holds
   * nothing but rows that move away, and the siblings that stay all come
   * before the roots and the destinations.
   */
  ghost predicate LevelShift(rows: seq<Row>, out: seq<Row>, treeId: int, pp: Path, steplen: nat, sib: seq<Row>, dest: seq<Path>) {
    && WellFormed(rows, steplen) && |pp| % steplen == 0
    && Shifted(rows, out, treeId, sib, dest) && InOrder(sib, dest)
    && (forall k :: 0 <= k < |sib| ==>
          && |sib[k].path| == |pp| + steplen && IsPrefix(pp, sib[k].path)
          && |dest[k]| == |pp| + steplen && IsPrefix(pp, dest[k]))
    && (forall i, k :: 0 <= i < |rows| && 0 <= k < |sib| && InSubtree(rows[i], treeId, dest[k]) ==> !Unmoved(rows[i], treeId, sib))
    && (forall i, k ::
          0 <= i < |rows| && 0 <= k < |sib| && Unmoved(rows[i], treeId, sib) && InSubtree(rows[i], treeId, pp) && |rows[i].path| == |pp| + steplen ==>
          LexLess(rows[i].path, sib[k].path) && LexLess(rows[i].path, dest[k]))
  }

  /** r' is r with at most its path rewritten, to one of the same length. */
  ghost predicate Relabelled(r: Row, r': Row) {
    r'.id == r.id && r'.parentId == r.parentId && r'.treeId == r.treeId && r'.depth == r.depth && |r'.path| == |r.path|
  }

  /**
   * out is rows with paths rewritten so that, for every pair of rows, it is
   * kept whether one lies in the subtree of the other, whether they are
   * siblings and, for siblings, which one comes first.
   */
  ghost predicate Relabels(rows: seq<Row>, out: seq<Row>, steplen: nat) {
    && |out| == |rows|
    && (forall i :: 0 <= i < |rows| ==> Relabelled(rows[i], out[i]))
    && (forall a, b :: 0 <= a < |rows| && 0 <= b < |rows| ==>
          (InSubtree(rows[b], rows[a].treeId, rows[a].path) <==> InSubtree(out[b], out[a].treeId, out[a].path)))
    && (forall a, b :: 0 <= a < |rows| && 0 <= b < |rows| ==>
          (Sibs(rows[a], rows[b], steplen) <==> Sibs(out[a], out[b], steplen)))
    && (forall a, b :: 0 <= a < |rows| && 0 <= b < |rows| && Sibs(rows[a], rows[b], steplen) ==>
          (LexLess(rows[a].path, rows[b].path) <==> LexLess(out[a].path, out[b].path)))
  }

  /** Strict order makes roots, and destinations, determine their position. */
  lemma RootOrder(sib: seq<Row>, dest: seq<Path>, k: nat, l: nat)
    requires InOrder(sib, dest) && k < |sib| && l < |sib|
    ensures (sib[k].path == sib[l].path <==> k == l) && (dest[k] == dest[l] <==> k == l)
    ensures (LexLess(sib[k].path, sib[l].path) <==> k < l) && (LexLess(dest[k], dest[l]) <==> k < l)
  {
    if k < l {
      LexLessAsymmetric(sib[k].path, sib[l].path);
      LexLessAsymmetric(dest[k], dest[l]);
    } else if l < k {
      LexLessAsymmetric(sib[l].path, sib[k].path);
      LexLessAsymmetric(dest[l], dest[k]);
    } else {
      LexLessIrreflexive(sib[k].path);
      LexLessIrreflexive(dest[k]);
    }
  }

  /** Which way row a went through the shift: below sibling k to dest[k], or nowhere. */
  lemma Classify(rows: seq<Row>, out: seq<Row>, treeId: int, pp: Path, steplen: nat, sib: seq<Row>, dest: seq<Path>, a: nat)
      returns (moved: bool, k: nat)
    requires LevelShift(rows, out, treeId, pp, steplen, sib, dest) && a < |rows|
    ensures Shaped(rows[a], steplen) && |rows[a].path| % steplen == 0 && Relabelled(rows[a], out[a])
    ensures moved <==> !Unmoved(rows[a], treeId, sib)
    ensures !moved ==> out[a] == rows[a]
    ensures moved ==>
      var L := |pp| + steplen;
      && k < |sib| && InSubtree(rows[a], treeId, sib[k].path)
      && |rows[a].path| >= L && rows[a].path[..L] == sib[k].path
      && out[a] == rows[a].(path := dest[k] + rows[a].path[L..])
      && |out[a].path| == |rows[a].path| && out[a].path[..L] == dest[k] && out[a].path[L..] == rows[a].path[L..]
  {
    assert Shaped(rows[a], steplen);
    ShapedAligned(rows[a], steplen);
    assert Pulled(rows[a], out[a], treeId, sib, dest);
    moved, k := !Unmoved(rows[a], treeId, sib), 0;
    if moved {
      k :| 0 <= k < |sib| && InSubtree(rows[a], treeId, sib[k].path);
    }
  }

  /** Row a, below sibling k, went to dest[k]. */
  lemma MovedRow(rows: seq<Row>, out: seq<Row>, treeId: int, pp: Path, steplen: nat, sib: seq<Row>, dest: seq<Path>, a: nat, k: nat)
    requires LevelShift(rows, out, treeId, pp, steplen, sib, dest) && a < |rows| && k < |sib|
    requires InSubtree(rows[a], treeId, sib[k].path)
    ensures var L := |pp| + steplen;
      && |rows[a].path| % steplen == 0 && Relabelled(rows[a], out[a])
      && |rows[a].path| >= L && rows[a].path[..L] == sib[k].path
      && out[a].path == dest[k] + rows[a].path[L..]
  {
    assert Shaped(rows[a], steplen);
    ShapedAligned(rows[a], steplen);
    assert Pulled(rows[a], out[a], treeId, sib, dest);
  }

  /** A shift keeps whether one row lies in the subtree of another. */
  lemma AbovePair(rows: seq<Row>, out: seq<Row>, treeId: int, pp: Path, steplen: nat, sib: seq<Row>, dest: seq<Path>, a: nat, b: nat)
    requires LevelShift(rows, out, treeId, pp, steplen, sib, dest) && a < |rows| && b < |rows|
    ensures InSubtree(rows[b], rows[a].treeId, rows[a].path) <==> InSubtree(out[b], out[a].treeId, out[a].path)
  {
    if !Unmoved(rows[a], treeId, sib) {
      var kx :| 0 <= kx < |sib| && InSubtree(rows[a], treeId, sib[kx].path);
      if !Unmoved(rows[b], treeId, sib) {
        var ky :| 0 <= ky < |sib| && InSubtree(rows[b], treeId, sib[ky].path);
        AboveBoth(rows, out, treeId, pp, steplen, sib, dest, a, b, kx, ky);
      } else {
        AboveFromMover(rows, out, treeId, pp, steplen, sib, dest, a, b, kx);
      }
    } else if !Unmoved(rows[b], treeId, sib) {
      var ky :| 0 <= ky < |sib| && InSubtree(rows[b], treeId, sib[ky].path);
      AboveToMover(rows, out, treeId, pp, steplen, sib, dest, a, b, ky);
    } else {
      var mx, kx := Classify(rows, out, treeId, pp, steplen, sib, dest, a);
      var my, ky := Classify(rows, out, treeId, pp, steplen, sib, dest, b);
    }
  }

  /** AbovePair when both rows move: siblings k and l keep their order and distinctness. */
  lemma AboveBoth(rows: seq<Row>, out: seq<Row>, treeId: int, pp: Path, steplen: nat, sib: seq<Row>, dest: seq<Path>, a: nat, b: nat, k: nat, l: nat)
    requires LevelShift(rows, out, treeId, pp, steplen, sib, dest) && a < |rows| && b < |rows| && k < |sib| && l < |sib|
    requires InSubtree(rows[a], treeId, sib[k].path) && InSubtree(rows[b], treeId, sib[l].path)
    ensures InSubtree(rows[b], rows[a].treeId, rows[a].path) <==> InSubtree(out[b], out[a].treeId, out[a].path)
  {
    MovedRow(rows, out, treeId, pp, steplen, sib, dest, a, k);
    MovedRow(rows, out, treeId, pp, steplen, sib, dest, b, l);
    RootOrder(sib, dest, k, l);
    AboveBothMoved(rows[a].path, rows[b].path, out[a].path, out[b].path, |pp| + steplen, sib[k].path, sib[l].path, dest[k], dest[l]);
  }

  /** AbovePair when only row a moves, from sibling k: it is above row b neither before nor after. */
  lemma AboveFromMover(rows: seq<Row>, out: seq<Row>, treeId: int, pp: Path, steplen: nat, sib: seq<Row>, dest: seq<Path>, a: nat, b: nat, k: nat)
    requires LevelShift(rows, out, treeId, pp, steplen, sib, dest) && a < |rows| && b < |rows| && k < |sib|
    requires InSubtree(rows[a], treeId, sib[k].path) && Unmoved(rows[b], treeId, sib)
    ensures InSubtree(rows[b], rows[a].treeId, rows[a].path) <==> InSubtree(out[b], out[a].treeId, out[a].path)
  {
    MovedRow(rows, out, treeId, pp, steplen, sib, dest, a, k);
    var my, ky := Classify(rows, out, treeId, pp, steplen, sib, dest, b);
    if rows[b].treeId == treeId {
      assert !InSubtree(rows[b], treeId, sib[k].path) && !InSubtree(rows[b], treeId, dest[k]);
      AboveStayer(rows[a].path, rows[b].path, out[a].path, |pp| + steplen, sib[k].path, dest[k]);
    }
  }

  /** AbovePair when only row b moves, from sibling k: row a is above it after exactly when before. */
  lemma AboveToMover(rows: seq<Row>, out: seq<Row>, treeId: int, pp: Path, steplen: nat, sib: seq<Row>, dest: seq<Path>, a: nat, b: nat, k: nat)
    requires LevelShift(rows, out, treeId, pp, steplen, sib, dest) && a < |rows| && b < |rows| && k < |sib|
    requires Unmoved(rows[a], treeId, sib) && InSubtree(rows[b], treeId, sib[k].path)
    ensures InSubtree(rows[b], rows[a].treeId, rows[a].path) <==> InSubtree(out[b], out[a].treeId, out[a].path)
  {
    var mx, kx := Classify(rows, out, treeId, pp, steplen, sib, dest, a);
    MovedRow(rows, out, treeId, pp, steplen, sib, dest, b, k);
    if rows[a].treeId == treeId {
      var L := |pp| + steplen;
      assert !InSubtree(rows[a], treeId, sib[k].path) && !InSubtree(rows[a], treeId, dest[k]);
      NextMultiple(|pp|, steplen);
      AboveMover(rows[a].path, rows[b].path, out[b].path, L, pp, sib[k].path, dest[k], steplen);
      AboveMover(rows[a].path, out[b].path, rows[b].path, L, pp, dest[k], sib[k].path, steplen);
    }
  }

  /** A moving row is above no row that stays, before the shift or after. */
  lemma AboveStayer(x: Path, y: Path, x': Path, L: nat, sx: Path, dx: Path)
    requires |x| >= L && x[..L] == sx && x' == dx + x[L..] && |sx| == |dx| == L
    requires !IsPrefix(sx, y) && !IsPrefix(dx, y)
    ensures !IsPrefix(x, y) && !IsPrefix(x', y)
  {
  }

  lemma NextMultiple(a: nat, s: nat)
    requires s > 0 && a % s == 0
    ensures (a + s) % s == 0
  {
    Distrib(a / s, s);
    QuotientUnique((a + s) / s, (a + s) % s, a / s + 1, 0, s);
  }

  /** Two rows moved by the shift: their old roots agree exactly when their new roots do. */
  lemma AboveBothMoved(x: Path, y: Path, x': Path, y': Path, L: nat, sx: Path, sy: Path, dx: Path, dy: Path)
    requires |x| >= L && |y| >= L && x[..L] == sx && y[..L] == sy && |sx| == |sy| == |dx| == |dy| == L
    requires x' == dx + x[L..] && y' == dy + y[L..]
    requires sx == sy <==> dx == dy
    ensures IsPrefix(x, y) <==> IsPrefix(x', y')
  {
    if IsPrefix(x, y) {
      assert y[..L] == x[..L];
      assert y'[..|x'|] == dy + y[L..][..|x| - L];
      assert y[L..][..|x| - L] == x[L..];
    }
    if IsPrefix(x', y') {
      assert y'[..L] == x'[..L];
      assert y[..|x|] == sy + y'[L..][..|x| - L];
      assert y'[L..][..|x| - L] == x'[L..];
    }
  }

  /**
   * A row x that stays, and a row y whose root moves from sy to dy under
   * the parent path pp: x lies below neither root, so it is above y exactly
   * when it is above pp, wherever y moves.
   */
  lemma AboveMover(x: Path, y: Path, y': Path, L: nat, pp: Path, sy: Path, dy: Path, steplen: nat)
    requires steplen > 0 && |x| % steplen == 0 && L % steplen == 0 && L == |pp| + steplen
    requires |y| >= L && y[..L] == sy && y' == dy + y[L..] && |sy| == |dy| == L
    requires IsPrefix(pp, sy) && IsPrefix(pp, dy) && !IsPrefix(sy, x) && !IsPrefix(dy, x)
    ensures IsPrefix(x, y) ==> IsPrefix(x, y')
  {
    if IsPrefix(x, y) {
      MultiplesApart(|x|, L, steplen);
      assert x == pp[..|x|];
      assert y'[..|x|] == dy[..|x|];
    }
  }

  /** A shift keeps whether two rows are siblings. */
  lemma SibsPair(rows: seq<Row>, out: seq<Row>, treeId: int, pp: Path, steplen: nat, sib: seq<Row>, dest: seq<Path>, a: nat, b: nat)
    requires LevelShift(rows, out, treeId, pp, steplen, sib, dest) && a < |rows| && b < |rows|
    ensures Sibs(rows[a], rows[b], steplen) <==> Sibs(out[a], out[b], steplen)
  {
    var L := |pp| + steplen;
    var mx, kx := Classify(rows, out, treeId, pp, steplen, sib, dest, a);
    var my, ky := Classify(rows, out, treeId, pp, steplen, sib, dest, b);
    if mx && my {
      RootOrder(sib, dest, kx, ky);
      SibsRowsMoved(rows[a], rows[b], out[a], out[b], L, pp, sib[kx].path, sib[ky].path, dest[kx], dest[ky], steplen);
    } else if mx {
      assert !InSubtree(rows[b], treeId, sib[kx].path) && !InSubtree(rows[b], treeId, dest[kx]);
      SibsRowsMover(rows[a], rows[b], out[a], treeId, L, pp, sib[kx].path, dest[kx], steplen);
    } else if my {
      assert !InSubtree(rows[a], treeId, sib[ky].path) && !InSubtree(rows[a], treeId, dest[ky]);
      SibsRowsMover(rows[b], rows[a], out[b], treeId, L, pp, sib[ky].path, dest[ky], steplen);
    }
  }

  /** SibsBothMoved for two moving rows. */
  lemma SibsRowsMoved(x: Row, y: Row, x': Row, y': Row, L: nat, pp: Path, sx: Path, sy: Path, dx: Path, dy: Path, steplen: nat)
    requires steplen > 0 && |x.path| % steplen == 0 && |pp| % steplen == 0 && L == |pp| + steplen
    requires Relabelled(x, x') && Relabelled(y, y')
    requires |x.path| >= L && |y.path| >= L && x.path[..L] == sx && y.path[..L] == sy && |sx| == |sy| == |dx| == |dy| == L
    requires x'.path == dx + x.path[L..] && y'.path == dy + y.path[L..]
    requires IsPrefix(pp, sx) && IsPrefix(pp, sy) && IsPrefix(pp, dx) && IsPrefix(pp, dy)
    requires sx == sy <==> dx == dy
    ensures Sibs(x, y, steplen) <==> Sibs(x', y', steplen)
  {
    if |x.path| == |y.path| {
      SibsBothMoved(x.path, y.path, x'.path, y'.path, L, pp, sx, sy, dx, dy, steplen);
    }
  }

  /** SibsMoverStayer for a moving row x of tree treeId and a row y below neither of its roots. */
  lemma SibsRowsMover(x: Row, y: Row, x': Row, treeId: int, L: nat, pp: Path, sx: Path, dx: Path, steplen: nat)
    requires steplen > 0 && |x.path| % steplen == 0 && |pp| % steplen == 0 && L == |pp| + steplen
    requires Relabelled(x, x') && x.treeId == treeId
    requires |x.path| >= L && x.path[..L] == sx && |sx| == |dx| == L && x'.path == dx + x.path[L..]
    requires IsPrefix(pp, sx) && IsPrefix(pp, dx) && !InSubtree(y, treeId, sx) && !InSubtree(y, treeId, dx)
    ensures Sibs(x, y, steplen) <==> Sibs(x', y, steplen)
    ensures Sibs(y, x, steplen) <==> Sibs(y, x', steplen)
    ensures Sibs(x, y, steplen) ==> |x.path| == L && x.path == sx && x'.path == dx && InSubtree(y, treeId, pp) && |y.path| == L
  {
    if y.treeId == treeId && |x.path| == |y.path| {
      SibsMoverStayer(x.path, y.path, x'.path, L, pp, sx, dx, steplen);
    }
  }

  /** Two moving rows of one length share a parent path before the shift exactly when after it. */
  lemma SibsBothMoved(x: Path, y: Path, x': Path, y': Path, L: nat, pp: Path, sx: Path, sy: Path, dx: Path, dy: Path, steplen: nat)
    requires steplen > 0 && |x| % steplen == 0 && |pp| % steplen == 0 && L == |pp| + steplen
    requires |x| == |y| >= L && x[..L] == sx && y[..L] == sy && |sx| == |sy| == |dx| == |dy| == L
    requires x' == dx + x[L..] && y' == dy + y[L..]
    requires IsPrefix(pp, sx) && IsPrefix(pp, sy) && IsPrefix(pp, dx) && IsPrefix(pp, dy)
    requires sx == sy <==> dx == dy
    ensures var m := |x| - steplen; x[..m] == y[..m] <==> x'[..m] == y'[..m]
  {
    var m := |x| - steplen;
    if m == |pp| {
      assert x[..m] == pp && y[..m] == pp && x'[..m] == pp && y'[..m] == pp;
    } else {
      ModStep(|x|, steplen);
      MultiplesApart(|pp|, m, steplen);
      assert x[..m] == sx + x[L..m] && y[..m] == sy + y[L..m];
      assert x'[..m] == dx + x[L..m] && y'[..m] == dy + y[L..m];
      if x[..m] == y[..m] {
        assert x[..m][..L] == sx && y[..m][..L] == sy;
        assert x[..m][L..] == x[L..m] && y[..m][L..] == y[L..m];
      }
      if x'[..m] == y'[..m] {
        assert x'[..m][..L] == dx && y'[..m][..L] == dy;
        assert x'[..m][L..] == x[L..m] && y'[..m][L..] == y[L..m];
      }
    }
  }

  /**
   * A moving row x and a row y of the same length below neither of x's
   * roots: they share a parent path before the shift exactly when after it
   * (x is then a sibling root itself).
   */
  lemma SibsMoverStayer(x: Path, y: Path, x': Path, L: nat, pp: Path, sx: Path, dx: Path, steplen: nat)
    requires steplen > 0 && |x| % steplen == 0 && |pp| % steplen == 0 && L == |pp| + steplen
    requires |x| == |y| >= L && x[..L] == sx && |sx| == |dx| == L && x' == dx + x[L..]
    requires IsPrefix(pp, sx) && IsPrefix(pp, dx) && !IsPrefix(sx, y) && !IsPrefix(dx, y)
    ensures var m := |x| - steplen; x[..m] == y[..m] <==> x'[..m] == y[..m]
    ensures x[..|x| - steplen] == y[..|x| - steplen] ==> |x| == L && x == sx && x' == dx && IsPrefix(pp, y)
  {
    var m := |x| - steplen;
    if m == |pp| {
      assert x[..m] == pp && x'[..m] == pp;
      assert x == x[..L];
    } else {
      ModStep(|x|, steplen);
      MultiplesApart(|pp|, m, steplen);
    }
  }

  /** A shift keeps the order of two siblings. */
  lemma OrderPair(rows: seq<Row>, out: seq<Row>, treeId: int, pp: Path, steplen: nat, sib: seq<Row>, dest: seq<Path>, a: nat, b: nat)
    requires LevelShift(rows, out, treeId, pp, steplen, sib, dest) && a < |rows| && b < |rows|
    requires Sibs(rows[a], rows[b], steplen)
    ensures LexLess(rows[a].path, rows[b].path) <==> LexLess(out[a].path, out[b].path)
  {
    var mx, kx := Classify(rows, out, treeId, pp, steplen, sib, dest, a);
    var my, ky := Classify(rows, out, treeId, pp, steplen, sib, dest, b);
    if mx && my {
      OrderPairMoved(rows, out, treeId, pp, steplen, sib, dest, a, b, kx, ky);
    } else if mx {
      OrderPairMover(rows, out, treeId, pp, steplen, sib, dest, a, b, kx);
    } else if my {
      OrderPairMover(rows, out, treeId, pp, steplen, sib, dest, b, a, ky);
    }
  }

  /** Two moving siblings keep their order. */
  lemma OrderPairMoved(rows: seq<Row>, out: seq<Row>, treeId: int, pp: Path, steplen: nat, sib: seq<Row>, dest: seq<Path>, a: nat, b: nat, ka: nat, kb: nat)
    requires LevelShift(rows, out, treeId, pp, steplen, sib, dest) && a < |rows| && b < |rows| && ka < |sib| && kb < |sib|
    requires Sibs(rows[a], rows[b], steplen)
    requires InSubtree(rows[a], treeId, sib[ka].path) && InSubtree(rows[b], treeId, sib[kb].path)
    ensures LexLess(rows[a].path, rows[b].path) <==> LexLess(out[a].path, out[b].path)
  {
    var L := |pp| + steplen;
    MovedRow(rows, out, treeId, pp, steplen, sib, dest, a, ka);
    MovedRow(rows, out, treeId, pp, steplen, sib, dest, b, kb);
    RootOrder(sib, dest, ka, kb);
    OrderRowsMoved(rows[a], rows[b], out[a], out[b], L, pp, sib[ka].path, sib[kb].path, dest[ka], dest[kb], steplen);
  }

  /** OrderBothMoved for two moving sibling rows. */
  lemma OrderRowsMoved(x: Row, y: Row, x': Row, y': Row, L: nat, pp: Path, sx: Path, sy: Path, dx: Path, dy: Path, steplen: nat)
    requires steplen > 0 && |x.path| % steplen == 0 && |pp| % steplen == 0 && L == |pp| + steplen
    requires Sibs(x, y, steplen)
    requires |x.path| >= L && x.path[..L] == sx && y.path[..L] == sy && |sx| == |sy| == |dx| == |dy| == L
    requires x'.path == dx + x.path[L..] && y'.path == dy + y.path[L..]
    requires sx == sy <==> dx == dy
    requires LexLess(sx, sy) <==> LexLess(dx, dy)
    ensures LexLess(x.path, y.path) <==> LexLess(x'.path, y'.path)
  {
    NextMultiple(|pp|, steplen);
    OrderBothMoved(x.path, y.path, x'.path, y'.path, L, pp, sx, sy, dx, dy, steplen);
  }

  /** A moving row a and a staying sibling b: b comes first, before the shift and after it. */
  lemma OrderPairMover(rows: seq<Row>, out: seq<Row>, treeId: int, pp: Path, steplen: nat, sib: seq<Row>, dest: seq<Path>, a: nat, b: nat, k: nat)
    requires LevelShift(rows, out, treeId, pp, steplen, sib, dest) && a < |rows| && b < |rows| && k < |sib|
    requires Sibs(rows[a], rows[b], steplen) && Unmoved(rows[b], treeId, sib)
    requires InSubtree(rows[a], treeId, sib[k].path)
    ensures !LexLess(rows[a].path, rows[b].path) && !LexLess(out[a].path, out[b].path)
    ensures LexLess(rows[b].path, rows[a].path) && LexLess(out[b].path, out[a].path)
  {
    var L := |pp| + steplen;
    var _, _ := Classify(rows, out, treeId, pp, steplen, sib, dest, a);
    var _, _ := Classify(rows, out, treeId, pp, steplen, sib, dest, b);
    assert out[a] == rows[a].(path := dest[k] + rows[a].path[L..]);
    assert !InSubtree(rows[b], treeId, sib[k].path) && !InSubtree(rows[b], treeId, dest[k]);
    SibsRowsMover(rows[a], rows[b], out[a], treeId, L, pp, sib[k].path, dest[k], steplen);
    assert LexLess(rows[b].path, sib[k].path) && LexLess(rows[b].path, dest[k]);
    OrderMover(rows[a].path, rows[b].path, out[a].path, sib[k].path, dest[k]);
  }

  /** A sibling root moving from sx to dx, and a staying sibling below both: it comes first either way. */
  lemma OrderMover(x: Path, y: Path, x': Path, sx: Path, dx: Path)
    requires x == sx && x' == dx && LexLess(y, sx) && LexLess(y, dx)
    ensures !LexLess(x, y) && !LexLess(x', y)
  {
    LexLessAsymmetric(y, sx);
    LexLessAsymmetric(y, dx);
  }

  /** Two moving siblings keep their order: roots and destinations are ordered alike, deeper rows share one root. */
  lemma OrderBothMoved(x: Path, y: Path, x': Path, y': Path, L: nat, pp: Path, sx: Path, sy: Path, dx: Path, dy: Path, steplen: nat)
    requires steplen > 0 && |x| % steplen == 0 && |pp| % steplen == 0 && L == |pp| + steplen && L % steplen == 0
    requires |x| == |y| >= L && x[..L] == sx && y[..L] == sy && |sx| == |sy| == |dx| == |dy| == L
    requires x' == dx + x[L..] && y' == dy + y[L..]
    requires sx == sy <==> dx == dy
    requires LexLess(sx, sy) <==> LexLess(dx, dy)
    requires x[..|x| - steplen] == y[..|y| - steplen]
    ensures LexLess(x, y) <==> LexLess(x', y')
  {
    var m := |x| - steplen;
    if |x| == L {
      assert x == sx && y == sy && x' == dx && y' == dy;
    } else {
      MultiplesApart(L, |x|, steplen);
      assert sx == x[..m][..L] && sy == y[..m][..L];
      assert x == sx + x[L..] && y == sx + y[L..];
      LexLessCommonPrefix(sx, x[L..], y[L..]);
      LexLessCommonPrefix(dx, x[L..], y[L..]);
    }
  }

  /** A shift keeps (tree_id, path) unique. */
  lemma UniquePair(rows: seq<Row>, out: seq<Row>, treeId: int, pp: Path, steplen: nat, sib: seq<Row>, dest: seq<Path>, a: nat, b: nat)
    requires LevelShift(rows, out, treeId, pp, steplen, sib, dest) && a < |rows| && b < |rows|
    requires UniquePaths(rows) && out[a].treeId == out[b].treeId && out[a].path == out[b].path
    ensures a == b
  {
    var L := |pp| + steplen;
    var mx, kx := Classify(rows, out, treeId, pp, steplen, sib, dest, a);
    var my, ky := Classify(rows, out, treeId, pp, steplen, sib, dest, b);
    if mx && my {
      RootOrder(sib, dest, kx, ky);
      assert dest[kx] == dest[ky];
      assert rows[a].path == sib[kx].path + rows[a].path[L..];
      assert rows[b].path == sib[ky].path + rows[b].path[L..];
    } else if mx {
      assert InSubtree(rows[b], treeId, dest[kx]);
    } else if my {
      assert InSubtree(rows[a], treeId, dest[ky]);
    }
  }

  /**
   * A level shift relabels the table: every row keeps its key, parent, tree
   * and depth, and ancestry, sibling links and the order of siblings are
   * kept for every pair of rows; if (tree_id, path) was unique, it still is.
   */
  lemma LevelShiftRelabels(rows: seq<Row>, out: seq<Row>, treeId: int, pp: Path, steplen: nat, sib: seq<Row>, dest: seq<Path>)
    requires LevelShift(rows, out, treeId, pp, steplen, sib, dest)
    ensures Relabels(rows, out, steplen)
    ensures UniquePaths(rows) ==> UniquePaths(out)
  {
    forall i | 0 <= i < |rows| ensures Relabelled(rows[i], out[i]) {
      var _, _ := Classify(rows, out, treeId, pp, steplen, sib, dest, i);
    }
    forall a, b | 0 <= a < |rows| && 0 <= b < |rows|
      ensures InSubtree(rows[b], rows[a].treeId, rows[a].path) <==> InSubtree(out[b], out[a].treeId, out[a].path)
      ensures Sibs(rows[a], rows[b], steplen) <==> Sibs(out[a], out[b], steplen)
      ensures Sibs(rows[a], rows[b], steplen) ==> (LexLess(rows[a].path, rows[b].path) <==> LexLess(out[a].path, out[b].path))
    {
      AbovePair(rows, out, treeId, pp, steplen, sib, dest, a, b);
      SibsPair(rows, out, treeId, pp, steplen, sib, dest, a, b);
      if Sibs(rows[a], rows[b], steplen) {
        OrderPair(rows, out, treeId, pp, steplen, sib, dest, a, b);
      }
    }
    if UniquePaths(rows) {
      forall a, b | 0 <= a < |out| && 0 <= b < |out| && out[a].treeId == out[b].treeId && out[a].path == out[b].path
        ensures a == b
      {
        UniquePair(rows, out, treeId, pp, steplen, sib, dest, a, b);
      }
    }
  }

  /** from_path[:-steplen] of a path below the root: one segment shorter, and aligned. */
  lemma {:induction false} ParentAligned(fromPath: Path, steplen: nat, depth: int)
    requires steplen > 0 && depth >= 1 && |fromPath| == depth * steplen
    ensures |ParentPath(fromPath, steplen)| + steplen == |fromPath|
    ensures |ParentPath(fromPath, steplen)| % steplen == 0
  {
    MulMono(1, depth, steplen);
    QuotientUnique(|fromPath| / steplen, |fromPath| % steplen, depth, 0, steplen);
    ModStep(|fromPath|, steplen);
  }

  /** A path that agrees with fromPath on all but its last step lies under fromPath's parent. */
  lemma SameParent(fromPath: Path, next: Path, steplen: nat)
    requires steplen > 0 && |next| == |fromPath| >= steplen
    requires next[..|next| - steplen] == fromPath[..|fromPath| - steplen]
    ensures IsPrefix(ParentPath(fromPath, steplen), next)
  {
  }

  /** The row at fromPath's level, under its parent path, that the pull does not select lies before fromPath. */
  lemma {:induction false} BeforeFrom(rows: seq<Row>, steplen: nat, treeId: int, fromPath: Path, depth: int, r: Row)
    requires WellFormed(rows, steplen) && IsPath(fromPath) && depth >= 1 && |fromPath| == depth * steplen
    requires r in rows && r.treeId == treeId && IsPrefix(ParentPath(fromPath, steplen), r.path) && |r.path| == |fromPath|
    requires r !in Siblings(rows, steplen, treeId, fromPath, depth)
    ensures LexLess(r.path, fromPath)
  {
    var node := Row(0, None, treeId, fromPath, depth);
    SiblingsSpec(rows, steplen, node);
    MemberShaped(rows, steplen, r);
    DepthFromLength(node, r, steplen, 0);
    if r.path != fromPath {
      LexLessTotal(r.path, fromPath);
    }
  }

  /** The selected siblings lie one segment below the parent path of fromPath. */
  lemma {:induction false} SiblingsAtLevel(rows: seq<Row>, steplen: nat, treeId: int, fromPath: Path, depth: int)
    requires WellFormed(rows, steplen) && IsPath(fromPath) && depth >= 1 && |fromPath| == depth * steplen
    ensures var sib, pp := Siblings(rows, steplen, treeId, fromPath, depth), ParentPath(fromPath, steplen);
      forall k :: 0 <= k < |sib| ==> |sib[k].path| == |pp| + steplen && IsPrefix(pp, sib[k].path)
  {
    var sib, pp := Siblings(rows, steplen, treeId, fromPath, depth), ParentPath(fromPath, steplen);
    SiblingsSpec(rows, steplen, Row(0, None, treeId, fromPath, depth));
    SiblingsShaped(rows, steplen, treeId, fromPath, depth);
    ParentAligned(fromPath, steplen, depth);
    forall k | 0 <= k < |sib| ensures |sib[k].path| == |pp| + steplen && IsPrefix(pp, sib[k].path) {
      assert sib[k] in sib;
    }
  }

  /** A selected sibling lies below itself, so it is not a row the pull leaves alone. */
  lemma {:induction false} SiblingMoves(r: Row, treeId: int, sib: seq<Row>)
    requires r.treeId == treeId
    ensures r in sib ==> !Unmoved(r, treeId, sib)
  {
    if r in sib {
      var k :| 0 <= k < |sib| && sib[k] == r;
      assert r.path[..|r.path|] == r.path;
      assert InSubtree(r, treeId, sib[k].path);
    }
  }

  /** Row r lies at the level of the siblings under pp, below none of them. */
  ghost predicate Stays(r: Row, treeId: int, pp: Path, steplen: nat, sib: seq<Row>) {
    Unmoved(r, treeId, sib) && InSubtree(r, treeId, pp) && |r.path| == |pp| + steplen
  }

  /** The rows a pull from fromPath leaves at its level come before fromPath. */
  lemma {:induction false} StayersFirst(rows: seq<Row>, steplen: nat, treeId: int, fromPath: Path, depth: int)
    requires WellFormed(rows, steplen) && IsPath(fromPath) && depth >= 1 && |fromPath| == depth * steplen
    ensures var sib, pp := Siblings(rows, steplen, treeId, fromPath, depth), ParentPath(fromPath, steplen);
      forall i :: 0 <= i < |rows| && Stays(rows[i], treeId, pp, steplen, sib) ==> LexLess(rows[i].path, fromPath)
  {
    var sib, pp := Siblings(rows, steplen, treeId, fromPath, depth), ParentPath(fromPath, steplen);
    ParentAligned(fromPath, steplen, depth);
    forall i | 0 <= i < |rows| && Stays(rows[i], treeId, pp, steplen, sib) ensures LexLess(rows[i].path, fromPath) {
      SiblingMoves(rows[i], treeId, sib);
      BeforeFrom(rows, steplen, treeId, fromPath, depth, rows[i]);
    }
  }

  /** Rows before fromPath come before every root and destination from fromPath on. */
  lemma {:induction false} StayersOrdered(rows: seq<Row>, treeId: int, pp: Path, steplen: nat, fromPath: Path, sib: seq<Row>, dest: seq<Path>)
    requires |dest| == |sib|
    requires forall i :: 0 <= i < |rows| && Stays(rows[i], treeId, pp, steplen, sib) ==> LexLess(rows[i].path, fromPath)
    requires forall k :: 0 <= k < |sib| ==> LexLessEq(fromPath, sib[k].path) && LexLessEq(fromPath, dest[k])
    ensures forall i, k ::
      0 <= i < |rows| && 0 <= k < |sib| && Unmoved(rows[i], treeId, sib) && InSubtree(rows[i], treeId, pp) && |rows[i].path| == |pp| + steplen ==>
      LexLess(rows[i].path, sib[k].path) && LexLess(rows[i].path, dest[k])
  {
    forall i, k | 0 <= i < |rows| && 0 <= k < |sib| && Unmoved(rows[i], treeId, sib) && InSubtree(rows[i], treeId, pp) && |rows[i].path| == |pp| + steplen
      ensures LexLess(rows[i].path, sib[k].path) && LexLess(rows[i].path, dest[k])
    {
      assert Stays(rows[i], treeId, pp, steplen, sib);
      if fromPath != sib[k].path {
        LexLessTransitive(rows[i].path, fromPath, sib[k].path);
      }
      if fromPath != dest[k] {
        LexLessTransitive(rows[i].path, fromPath, dest[k]);
      }
    }
  }

  /**
   * With nothing left at fromPath, every selected sibling lies strictly after
   * it, and the destinations of a pull up are in the siblings' order.
   */
  lemma {:induction false} UpOrder(rows: seq<Row>, steplen: nat, treeId: int, fromPath: Path, depth: int)
    requires WellFormed(rows, steplen) && UniquePaths(rows) && IsPath(fromPath) && Vacant(rows, treeId, fromPath)
    ensures var sib := Siblings(rows, steplen, treeId, fromPath, depth);
      && (forall k :: 0 <= k < |sib| ==> LexLess(fromPath, sib[k].path))
      && InOrder(sib, UpDests(sib, fromPath))
  {
    var sib := Siblings(rows, steplen, treeId, fromPath, depth);
    var dest := UpDests(sib, fromPath);
    SiblingsStrict(rows, steplen, treeId, fromPath, depth);
    forall k | 0 <= k < |sib| ensures LexLess(fromPath, sib[k].path) {
      assert sib[k] in sib;
      var i :| 0 <= i < |rows| && rows[i] == sib[k];
      assert fromPath[..|fromPath|] == fromPath;
      assert !InSubtree(rows[i], treeId, fromPath);
    }
    forall k, l | 0 <= k < l < |sib| ensures LexLess(dest[k], dest[l]) {
      if k > 0 {
        assert LexLess(sib[k - 1].path, sib[l - 1].path);
      }
    }
  }

  /**
   * A pull up from a vacated fromPath, in a table where (tree_id, path) is
   * unique, is a level shift under the parent path of fromPath: a relabelling
   * (LevelShiftRelabels) that closes the gap at fromPath.
   */
  lemma {:induction false} UpShift(rows: seq<Row>, steplen: nat, treeId: int, fromPath: Path, depth: int)
    requires WellFormed(rows, steplen) && UniquePaths(rows)
    requires IsPath(fromPath) && depth >= 1 && |fromPath| == depth * steplen
    requires Vacant(rows, treeId, fromPath)
    ensures PullPlan(rows, steplen, true, treeId, fromPath, depth).Ok?
    ensures MovesShaped(PullPlan(rows, steplen, true, treeId, fromPath, depth).value, steplen)
    ensures var sib := Siblings(rows, steplen, treeId, fromPath, depth);
      LevelShift(rows, ApplyMoves(rows, PullPlan(rows, steplen, true, treeId, fromPath, depth).value, steplen),
                 treeId, ParentPath(fromPath, steplen), steplen, sib, UpDests(sib, fromPath))
  {
    var sib, pp := Siblings(rows, steplen, treeId, fromPath, depth), ParentPath(fromPath, steplen);
    var dest := UpDests(sib, fromPath);
    PulledUp(rows, steplen, treeId, fromPath, depth);
    ParentAligned(fromPath, steplen, depth);
    UpOrder(rows, steplen, treeId, fromPath, depth);
    SiblingsAtLevel(rows, steplen, treeId, fromPath, depth);
    forall k | 0 <= k < |sib| ensures |dest[k]| == |pp| + steplen && IsPrefix(pp, dest[k]) && LexLessEq(fromPath, dest[k]) {
      if k > 0 {
        assert LexLess(fromPath, sib[k - 1].path);
      }
    }
    StayersFirst(rows, steplen, treeId, fromPath, depth);
    StayersOrdered(rows, treeId, pp, steplen, fromPath, sib, dest);
    forall i, k | 0 <= i < |rows| && 0 <= k < |sib|
      ensures InSubtree(rows[i], treeId, dest[k]) ==> !Unmoved(rows[i], treeId, sib)
    {
      if k > 0 && InSubtree(rows[i], treeId, dest[k]) {
        assert InSubtree(rows[i], treeId, sib[k - 1].path);
      }
    }
  }

  /**
   * Every row below a root has a row at its parent path, in its tree: the
   * table holds whole trees, as inserting under an existing parent does.
   */
  ghost predicate Closed(rows: seq<Row>, steplen: nat)
    requires steplen > 0
  {
    forall i :: 0 <= i < |rows| && |rows[i].path| >= steplen ==>
      exists j :: 0 <= j < |rows| && rows[j].treeId == rows[i].treeId && rows[j].path == ParentPath(rows[i].path, steplen)
  }

  /** In a closed table, a row below an aligned path q has an ancestor row at q. */
  lemma {:induction false} AncestorRow(rows: seq<Row>, steplen: nat, i: nat, q: Path) returns (j: nat)
    requires WellFormed(rows, steplen) && Closed(rows, steplen) && i < |rows| && |q| % steplen == 0
    ensures IsPrefix(q, rows[i].path) ==> j < |rows| && rows[j].treeId == rows[i].treeId && rows[j].path == q
    decreases |rows[i].path| - |q|
  {
    j := i;
    var p := rows[i].path;
    if IsPrefix(q, p) && |q| < |p| {
      ShapedAligned(rows[i], steplen);
      MultiplesApart(|q|, |p|, steplen);
      var u :| 0 <= u < |rows| && rows[u].treeId == rows[i].treeId && rows[u].path == ParentPath(p, steplen);
      assert rows[u].path[..|q|] == p[..|q|];
      j := AncestorRow(rows, steplen, u, q);
    }
  }

  /** Paths strictly increasing along the selection. */
  ghost predicate Ascending(sib: seq<Row>) {
    forall k, l :: 0 <= k < l < |sib| ==> LexLess(sib[k].path, sib[l].path)
  }

  /** Every selected path is fromPath or later. */
  ghost predicate FromOn(fromPath: Path, sib: seq<Row>) {
    forall k :: 0 <= k < |sib| ==> LexLessEq(fromPath, sib[k].path)
  }

  /** Every row of the tree at the level of fromPath under pp is selected or lies before fromPath. */
  ghost predicate LevelSplit(rows: seq<Row>, treeId: int, pp: Path, fromPath: Path, sib: seq<Row>) {
    forall j :: 0 <= j < |rows| && rows[j].treeId == treeId && IsPrefix(pp, rows[j].path) && |rows[j].path| == |fromPath| ==>
      rows[j] in sib || LexLess(rows[j].path, fromPath)
  }

  /** What the sibling selection of a pull from fromPath is, in the terms above. */
  lemma {:induction false} SiblingsFacts(rows: seq<Row>, steplen: nat, treeId: int, fromPath: Path, depth: int)
    requires WellFormed(rows, steplen) && UniquePaths(rows) && IsPath(fromPath) && depth >= 1 && |fromPath| == depth * steplen
    ensures var sib, pp := Siblings(rows, steplen, treeId, fromPath, depth), ParentPath(fromPath, steplen);
      && Ascending(sib) && FromOn(fromPath, sib) && LevelSplit(rows, treeId, pp, fromPath, sib)
      && forall k :: 0 <= k < |sib| ==> |sib[k].path| == |pp| + steplen && IsPrefix(pp, sib[k].path)
  {
    var sib, pp := Siblings(rows, steplen, treeId, fromPath, depth), ParentPath(fromPath, steplen);
    SiblingsStrict(rows, steplen, treeId, fromPath, depth);
    SiblingsAtLevel(rows, steplen, treeId, fromPath, depth);
    forall k | 0 <= k < |sib| ensures LexLessEq(fromPath, sib[k].path) {
      assert sib[k] in sib;
    }
    forall j | 0 <= j < |rows| && rows[j].treeId == treeId && IsPrefix(pp, rows[j].path) && |rows[j].path| == |fromPath|
      ensures rows[j] in sib || LexLess(rows[j].path, fromPath)
    {
      if rows[j] !in sib {
        BeforeFrom(rows, steplen, treeId, fromPath, depth, rows[j]);
      }
    }
  }

  /** Nothing sits at a path after the last selected sibling when the level splits there. */
  lemma {:induction false} NextFreeAt(rows: seq<Row>, treeId: int, pp: Path, fromPath: Path, sib: seq<Row>, next: Path)
    requires sib != [] && Ascending(sib) && FromOn(fromPath, sib) && LevelSplit(rows, treeId, pp, fromPath, sib)
    requires LexLess(sib[|sib| - 1].path, next) && IsPrefix(pp, next) && |next| == |fromPath|
    ensures LexLess(fromPath, next)
    ensures forall j :: 0 <= j < |rows| && rows[j].treeId == treeId ==> rows[j].path != next
  {
    var last := sib[|sib| - 1].path;
    if fromPath != last {
      LexLessTransitive(fromPath, last, next);
    }
    forall j | 0 <= j < |rows| && rows[j].treeId == treeId ensures rows[j].path != next {
      var r := rows[j];
      if IsPrefix(pp, r.path) && |r.path| == |fromPath| {
        if r in sib {
          var m :| 0 <= m < |sib| && sib[m] == r;
          if m < |sib| - 1 {
            LexLessTransitive(r.path, last, next);
          }
        } else {
          LexLessTransitive(r.path, fromPath, next);
        }
        LexLessAsymmetric(r.path, next);
      }
    }
  }

  /**
   * No row of the tree is at next, the successor of the last sibling a pull
   * down selects: every row at that level is a sibling at or before the
   * last one, or lies before fromPath.
   */
  lemma {:induction false} NextFree(rows: seq<Row>, steplen: nat, treeId: int, fromPath: Path, depth: int)
    requires WellFormed(rows, steplen) && UniquePaths(rows)
    requires IsPath(fromPath) && depth >= 1 && |fromPath| == depth * steplen
    requires PullPlan(rows, steplen, false, treeId, fromPath, depth).Ok?
    requires Siblings(rows, steplen, treeId, fromPath, depth) != []
    ensures var next := NextOf(Siblings(rows, steplen, treeId, fromPath, depth), fromPath, steplen);
      && IsPrefix(ParentPath(fromPath, steplen), next) && |next| == |fromPath| && LexLess(fromPath, next)
      && forall j :: 0 <= j < |rows| && rows[j].treeId == treeId ==> rows[j].path != next
  {
    var sib, pp := Siblings(rows, steplen, treeId, fromPath, depth), ParentPath(fromPath, steplen);
    var next := NextOf(sib, fromPath, steplen);
    NextUnderParent(rows, steplen, treeId, fromPath, depth);
    assert Ascending(sib) && FromOn(fromPath, sib) && LevelSplit(rows, treeId, pp, fromPath, sib) by {
      SiblingsFacts(rows, steplen, treeId, fromPath, depth);
    }
    NextFreeAt(rows, treeId, pp, fromPath, sib, next);
  }

  /** The path after the last sibling is a later path at the same level under the same parent. */
  lemma {:induction false} NextUnderParent(rows: seq<Row>, steplen: nat, treeId: int, fromPath: Path, depth: int)
    requires WellFormed(rows, steplen)
    requires IsPath(fromPath) && depth >= 1 && |fromPath| == depth * steplen
    requires PullPlan(rows, steplen, false, treeId, fromPath, depth).Ok?
    requires Siblings(rows, steplen, treeId, fromPath, depth) != []
    ensures var sib := Siblings(rows, steplen, treeId, fromPath, depth);
      var next := NextOf(sib, fromPath, steplen);
      IsPrefix(ParentPath(fromPath, steplen), next) && |next| == |fromPath| && LexLess(sib[|sib| - 1].path, next)
  {
    var sib := Siblings(rows, steplen, treeId, fromPath, depth);
    DownNext(rows, steplen, treeId, fromPath, depth);
    MulMono(1, depth, steplen);
    SameParent(fromPath, NextOf(sib, fromPath, steplen), steplen);
  }

  /** The row at fromPath itself is among the siblings a pull from fromPath selects. */
  lemma {:induction false} FromSelected(rows: seq<Row>, steplen: nat, treeId: int, fromPath: Path, depth: int, r: Row)
    requires WellFormed(rows, steplen) && r in rows && r.treeId == treeId && r.path == fromPath
    requires IsPath(fromPath) && depth >= 1 && |fromPath| == depth * steplen
    ensures r in Siblings(rows, steplen, treeId, fromPath, depth)
  {
    var node := Row(0, None, treeId, fromPath, depth);
    MulMono(1, depth, steplen);
    ShapedAligned(node, steplen);
    SiblingsSpec(rows, steplen, node);
    MemberShaped(rows, steplen, r);
    DepthFromLength(node, r, steplen, 0);
  }

  /** In a closed table, a row below an aligned path q lies below the row at q, so below any selection holding that row. */
  lemma {:induction false} BelowSelected(rows: seq<Row>, steplen: nat, treeId: int, q: Path, sib: seq<Row>, i: nat)
    requires WellFormed(rows, steplen) && Closed(rows, steplen) && i < |rows| && |q| % steplen == 0
    requires forall j :: 0 <= j < |rows| && rows[j].treeId == treeId && rows[j].path == q ==> rows[j] in sib
    ensures InSubtree(rows[i], treeId, q) ==> !Unmoved(rows[i], treeId, sib)
  {
    var j := AncestorRow(rows, steplen, i, q);
    if InSubtree(rows[i], treeId, q) {
      var m :| 0 <= m < |sib| && sib[m] == rows[j];
      assert InSubtree(rows[i], treeId, sib[m].path);
    }
  }

  /** In a closed table, a row below fromPath lies below the sibling at fromPath, which the pull selects. */
  lemma {:induction false} BelowFromMoves(rows: seq<Row>, steplen: nat, treeId: int, fromPath: Path, depth: int, i: nat)
    requires WellFormed(rows, steplen) && Closed(rows, steplen) && i < |rows|
    requires IsPath(fromPath) && depth >= 1 && |fromPath| == depth * steplen
    ensures InSubtree(rows[i], treeId, fromPath) ==> !Unmoved(rows[i], treeId, Siblings(rows, steplen, treeId, fromPath, depth))
  {
    var sib := Siblings(rows, steplen, treeId, fromPath, depth);
    ParentAligned(fromPath, steplen, depth);
    MultiplesAligned(|ParentPath(fromPath, steplen)|, steplen);
    forall j | 0 <= j < |rows| && rows[j].treeId == treeId && rows[j].path == fromPath ensures rows[j] in sib {
      FromSelected(rows, steplen, treeId, fromPath, depth, rows[j]);
    }
    BelowSelected(rows, steplen, treeId, fromPath, sib, i);
  }

  /**
   * Destinations one sibling further out, the last one at next, keep the
   * siblings' order and lie after fromPath at the siblings' level.
   */
  lemma {:induction false} DownOrderAt(sib: seq<Row>, next: Path, fromPath: Path, pp: Path, steplen: nat)
    requires Ascending(sib) && FromOn(fromPath, sib)
    requires forall k :: 0 <= k < |sib| ==> |sib[k].path| == |pp| + steplen && IsPrefix(pp, sib[k].path)
    requires sib != [] ==> LexLess(sib[|sib| - 1].path, next) && |next| == |pp| + steplen && IsPrefix(pp, next)
    ensures var dest := DownDests(sib, next);
      && InOrder(sib, dest)
      && forall k :: 0 <= k < |sib| ==> LexLess(fromPath, dest[k]) && |dest[k]| == |pp| + steplen && IsPrefix(pp, dest[k])
  {
    if sib != [] {
      DownDestsOrdered(sib, next);
      DownDestsFrom(sib, next, fromPath);
    }
  }

  /** Destinations one sibling further out, the last at next, keep the siblings' order. */
  lemma {:induction false} DownDestsOrdered(sib: seq<Row>, next: Path)
    requires Ascending(sib) && sib != [] && LexLess(sib[|sib| - 1].path, next)
    ensures InOrder(sib, DownDests(sib, next))
  {
    var dest, n, last := DownDests(sib, next), |sib|, sib[|sib| - 1].path;
    forall k, l | 0 <= k < l < n ensures LexLess(dest[k], dest[l]) {
      if l < n - 1 {
        assert LexLess(sib[k + 1].path, sib[l + 1].path);
      } else if k + 1 < n - 1 {
        LexLessTransitive(sib[k + 1].path, last, next);
      }
    }
  }

  /** Destinations one sibling further out lie after fromPath. */
  lemma {:induction false} DownDestsFrom(sib: seq<Row>, next: Path, fromPath: Path)
    requires Ascending(sib) && FromOn(fromPath, sib) && sib != [] && LexLess(sib[|sib| - 1].path, next)
    ensures forall k :: 0 <= k < |sib| ==> LexLess(fromPath, DownDests(sib, next)[k])
  {
    forall k | 0 <= k < |sib| ensures LexLess(fromPath, DownDests(sib, next)[k]) {
      DownDestFrom(sib, next, fromPath, k);
    }
  }

  /** DownDestsFrom for one sibling. */
  lemma {:induction false} DownDestFrom(sib: seq<Row>, next: Path, fromPath: Path, k: nat)
    requires Ascending(sib) && FromOn(fromPath, sib) && k < |sib| && LexLess(sib[|sib| - 1].path, next)
    ensures LexLess(fromPath, DownDests(sib, next)[k])
  {
    var a, d := sib[k].path, DownDests(sib, next)[k];
    assert LexLessEq(fromPath, a);
    if k < |sib| - 1 {
      assert d == sib[k + 1].path;
    }
    LessEqLess(fromPath, a, d);
  }

  /**
   * The destinations of a pull down keep the siblings' order, lie after
   * fromPath, at the level of fromPath under its parent path.
   */
  lemma {:induction false} DownOrder(rows: seq<Row>, steplen: nat, treeId: int, fromPath: Path, depth: int)
    requires WellFormed(rows, steplen) && UniquePaths(rows)
    requires IsPath(fromPath) && depth >= 1 && |fromPath| == depth * steplen
    requires PullPlan(rows, steplen, false, treeId, fromPath, depth).Ok?
    ensures var sib, pp := Siblings(rows, steplen, treeId, fromPath, depth), ParentPath(fromPath, steplen);
      var dest := DownDests(sib, NextOf(sib, fromPath, steplen));
      && InOrder(sib, dest)
      && forall k :: 0 <= k < |sib| ==>
           && LexLessEq(fromPath, sib[k].path) && LexLess(fromPath, dest[k])
           && |dest[k]| == |pp| + steplen && IsPrefix(pp, dest[k])
  {
    var sib, pp := Siblings(rows, steplen, treeId, fromPath, depth), ParentPath(fromPath, steplen);
    var next := NextOf(sib, fromPath, steplen);
    DownFacts(rows, steplen, treeId, fromPath, depth);
    DownOrderAt(sib, next, fromPath, pp, steplen);
  }

  /** The facts about the selected siblings and the next free path that DownOrderAt needs. */
  lemma {:induction false} DownFacts(rows: seq<Row>, steplen: nat, treeId: int, fromPath: Path, depth: int)
    requires WellFormed(rows, steplen) && UniquePaths(rows)
    requires IsPath(fromPath) && depth >= 1 && |fromPath| == depth * steplen
    requires PullPlan(rows, steplen, false, treeId, fromPath, depth).Ok?
    ensures var sib, pp := Siblings(rows, steplen, treeId, fromPath, depth), ParentPath(fromPath, steplen);
      var next := NextOf(sib, fromPath, steplen);
      && Ascending(sib) && FromOn(fromPath, sib)
      && (forall k :: 0 <= k < |sib| ==> |sib[k].path| == |pp| + steplen && IsPrefix(pp, sib[k].path))
      && (sib != [] ==> LexLess(sib[|sib| - 1].path, next) && |next| == |pp| + steplen && IsPrefix(pp, next))
  {
    SiblingsFacts(rows, steplen, treeId, fromPath, depth);
    ParentAligned(fromPath, steplen, depth);
    if Siblings(rows, steplen, treeId, fromPath, depth) != [] {
      NextUnderParent(rows, steplen, treeId, fromPath, depth);
    }
  }

  /**
   * A successful pull down from fromPath, in a closed table where
   * (tree_id, path) is unique, is a level shift under the parent path of
   * fromPath (a relabelling, by LevelShiftRelabels) that leaves nothing at
   * or below fromPath.
   */
  lemma {:induction false} DownShift(rows: seq<Row>, steplen: nat, treeId: int, fromPath: Path, depth: int)
    requires WellFormed(rows, steplen) && UniquePaths(rows) && Closed(rows, steplen)
    requires IsPath(fromPath) && depth >= 1 && |fromPath| == depth * steplen
    requires PullPlan(rows, steplen, false, treeId, fromPath, depth).Ok?
    ensures MovesShaped(PullPlan(rows, steplen, false, treeId, fromPath, depth).value, steplen)
    ensures var sib := Siblings(rows, steplen, treeId, fromPath, depth);
      var out := ApplyMoves(rows, PullPlan(rows, steplen, false, treeId, fromPath, depth).value, steplen);
      && LevelShift(rows, out, treeId, ParentPath(fromPath, steplen), steplen, sib, DownDests(sib, NextOf(sib, fromPath, steplen)))
      && Vacant(out, treeId, fromPath)
  {
    var sib, pp := Siblings(rows, steplen, treeId, fromPath, depth), ParentPath(fromPath, steplen);
    var next := NextOf(sib, fromPath, steplen);
    var dest := DownDests(sib, next);
    PulledDown(rows, steplen, treeId, fromPath, depth);
    var out := ApplyMoves(rows, PullPlan(rows, steplen, false, treeId, fromPath, depth).value, steplen);
    ParentAligned(fromPath, steplen, depth);
    SiblingsAtLevel(rows, steplen, treeId, fromPath, depth);
    DownOrder(rows, steplen, treeId, fromPath, depth);
    StayersFirst(rows, steplen, treeId, fromPath, depth);
    StayersOrdered(rows, treeId, pp, steplen, fromPath, sib, dest);
    DownVacancy(rows, steplen, treeId, fromPath, depth);
    DownVacated(rows, out, steplen, treeId, fromPath, depth);
  }

  /**
   * In a closed table with no row of the tree at next, the destinations one
   * sibling further out hold only rows that move away.
   */
  lemma {:induction false} DownVacancyAt(rows: seq<Row>, steplen: nat, treeId: int, sib: seq<Row>, next: Path, pp: Path)
    requires WellFormed(rows, steplen) && Closed(rows, steplen) && |pp| % steplen == 0 && |next| == |pp| + steplen
    requires forall j :: 0 <= j < |rows| && rows[j].treeId == treeId ==> rows[j].path != next
    ensures var dest := DownDests(sib, next);
      forall i, k :: 0 <= i < |rows| && 0 <= k < |sib| && InSubtree(rows[i], treeId, dest[k]) ==> !Unmoved(rows[i], treeId, sib)
  {
    var dest := DownDests(sib, next);
    MultiplesAligned(|pp|, steplen);
    forall i, k | 0 <= i < |rows| && 0 <= k < |sib|
      ensures InSubtree(rows[i], treeId, dest[k]) ==> !Unmoved(rows[i], treeId, sib)
    {
      var j := AncestorRow(rows, steplen, i, next);
      if k < |sib| - 1 && InSubtree(rows[i], treeId, dest[k]) {
        assert InSubtree(rows[i], treeId, sib[k + 1].path);
      }
    }
  }

  /** The destinations of a pull down hold only rows that move away. */
  lemma {:induction false} DownVacancy(rows: seq<Row>, steplen: nat, treeId: int, fromPath: Path, depth: int)
    requires WellFormed(rows, steplen) && UniquePaths(rows) && Closed(rows, steplen)
    requires IsPath(fromPath) && depth >= 1 && |fromPath| == depth * steplen
    requires PullPlan(rows, steplen, false, treeId, fromPath, depth).Ok?
    ensures var sib := Siblings(rows, steplen, treeId, fromPath, depth);
      var dest := DownDests(sib, NextOf(sib, fromPath, steplen));
      forall i, k :: 0 <= i < |rows| && 0 <= k < |sib| && InSubtree(rows[i], treeId, dest[k]) ==> !Unmoved(rows[i], treeId, sib)
  {
    var sib := Siblings(rows, steplen, treeId, fromPath, depth);
    if sib != [] {
      var next := NextOf(sib, fromPath, steplen);
      NextFree(rows, steplen, treeId, fromPath, depth);
      ParentAligned(fromPath, steplen, depth);
      DownVacancyAt(rows, steplen, treeId, sib, next, ParentPath(fromPath, steplen));
    }
  }

  /** One segment added to an aligned length keeps it aligned. */
  lemma MultiplesAligned(a: nat, s: nat)
    requires s > 0 && a % s == 0
    ensures (a + s) % s == 0
  {
    NextMultiple(a, s);
  }

  /** After a pull down, nothing is left at or below fromPath. */
  lemma {:induction false} DownVacated(rows: seq<Row>, out: seq<Row>, steplen: nat, treeId: int, fromPath: Path, depth: int)
    requires WellFormed(rows, steplen) && Closed(rows, steplen)
    requires IsPath(fromPath) && depth >= 1 && |fromPath| == depth * steplen
    requires var sib := Siblings(rows, steplen, treeId, fromPath, depth);
      var dest := DownDests(sib, NextOf(sib, fromPath, steplen));
      && Shifted(rows, out, treeId, sib, dest)
      && forall k :: 0 <= k < |sib| ==> LexLess(fromPath, dest[k]) && |dest[k]| == |fromPath|
    ensures Vacant(out, treeId, fromPath)
  {
    var sib := Siblings(rows, steplen, treeId, fromPath, depth);
    var dest := DownDests(sib, NextOf(sib, fromPath, steplen));
    forall i | 0 <= i < |out| ensures !InSubtree(out[i], treeId, fromPath) {
      BelowFromMoves(rows, steplen, treeId, fromPath, depth, i);
      assert Pulled(rows[i], out[i], treeId, sib, dest);
      if !Unmoved(rows[i], treeId, sib) {
        var k :| 0 <= k < |sib| && InSubtree(rows[i], treeId, sib[k].path);
        assert out[i].path[..|fromPath|] == dest[k];
        LexLessAsymmetric(fromPath, dest[k]);
      }
    }
  }
}
