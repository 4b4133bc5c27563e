/**
 * The table as a sequence of rows in primary-key order, and the statements
 * the engine runs against it: filtered selects, ORDER BY path, and the
 * UPDATE of _update_subtree.
 */
module Updates {
  import opened Wrappers
  import opened PathOrder
  import opened PathCodec
  import opened Rows
  import opened Filters

  /**
   * Every row is shaped and the primary keys increase along the table, so the
   * table order is ORDER BY pk and no key occurs twice.
   */
  ghost predicate WellFormed(rows: seq<Row>, steplen: nat) {
    && steplen > 0
    && (forall i :: 0 <= i < |rows| ==> Shaped(rows[i], steplen))
    && Keyed(rows)
  }

  /** Primary keys increase along the table (the order ORDER BY pk returns). */
  ghost predicate Keyed(rows: seq<Row>) {
    forall i, j :: 0 <= i < j < |rows| ==> rows[i].id < rows[j].id
  }

  /** In a well-formed table a key names at most one row, the one Find returns. */
  lemma {:induction false} FindUnique(rows: seq<Row>, steplen: nat, r: Row)
    requires WellFormed(rows, steplen) && r in rows
    ensures Find(rows, r.id) == Some(r)
  {
    if rows[0] != r {
      assert r in rows[1..];
      FindUnique(rows[1..], steplen, r);
    }
  }

  /**
   * filter_parent selects, in a well-formed table, exactly the row the parent
   * key names, and nothing at all for a root (no parent key).
   */
  lemma {:induction false} ParentSelects(rows: seq<Row>, steplen: nat, parentId: Option<int>, r: Row)
    requires WellFormed(rows, steplen) && r in rows
    ensures Parent(parentId, r) <==> parentId.Some? && Find(rows, parentId.value) == Some(r)
  {
    FindUnique(rows, steplen, r);
  }

  lemma MemberShaped(rows: seq<Row>, steplen: nat, r: Row)
    requires WellFormed(rows, steplen) && r in rows
    ensures Shaped(r, steplen)
  {
    var i :| 0 <= i < |rows| && rows[i] == r;
  }

  /** SELECT ... WHERE f, in table order. */
  function Filter(rows: seq<Row>, f: Row -> bool): (sel: seq<Row>)
    ensures forall r :: r in sel <==> r in rows && f(r)
    ensures |sel| <= |rows|
  {
    if rows == [] then []
    else
      var rest := Filter(rows[1..], f);
      assert forall r :: r in rows ==> r == rows[0] || r in rows[1..];
      if f(rows[0]) then [rows[0]] + rest else rest
  }

  /** A selection keeps the table well formed (DELETE keeps the rows it does not match). */
  lemma {:induction false} FilterWellFormed(rows: seq<Row>, f: Row -> bool, steplen: nat)
    requires WellFormed(rows, steplen)
    ensures WellFormed(Filter(rows, f), steplen)
  {
    if rows != [] {
      var rest := rows[1..];
      assert WellFormed(rest, steplen) by {
        forall i | 0 <= i < |rest| ensures Shaped(rest[i], steplen) {
          assert rest[i] == rows[i + 1];
        }
        forall i, j | 0 <= i < j < |rest| ensures rest[i].id < rest[j].id {
          assert rest[i] == rows[i + 1] && rest[j] == rows[j + 1];
        }
      }
      FilterWellFormed(rest, f, steplen);
      var sel := Filter(rest, f);
      if f(rows[0]) {
        forall r | r in sel ensures rows[0].id < r.id {
          var j :| 0 <= j < |rest| && rest[j] == r;
          assert rows[j + 1] == r;
        }
        ConsWellFormed(rows[0], sel, steplen);
      }
    }
  }

  lemma ConsWellFormed(r: Row, sel: seq<Row>, steplen: nat)
    requires WellFormed(sel, steplen) && Shaped(r, steplen)
    requires forall x :: x in sel ==> r.id < x.id
    ensures WellFormed([r] + sel, steplen)
  {
    var out := [r] + sel;
    forall i, j | 0 <= i < j < |out| ensures out[i].id < out[j].id {
      if i == 0 {
        assert out[j] in sel;
      } else {
        assert out[i] == sel[i - 1] && out[j] == sel[j - 1];
      }
    }
    forall i | 0 <= i < |out| ensures Shaped(out[i], steplen) {
      if i > 0 {
        assert out[i] == sel[i - 1];
      }
    }
  }

  /** The selection sorted by path, as ORDER BY path returns it. */
  ghost predicate SortedByPath(rs: seq<Row>) {
    forall i, j :: 0 <= i < j < |rs| ==> LexLessEq(rs[i].path, rs[j].path)
  }

  function InsertByPath(r: Row, rs: seq<Row>): seq<Row> {
    if rs == [] then [r]
    else if LexLessEq(r.path, rs[0].path) then [r] + rs
    else [rs[0]] + InsertByPath(r, rs[1..])
  }

  function SortByPath(rs: seq<Row>): seq<Row> {
    if rs == [] then [] else InsertByPath(rs[0], SortByPath(rs[1..]))
  }

  lemma {:induction false} InsertByPathSpec(r: Row, rs: seq<Row>)
    requires SortedByPath(rs)
    ensures SortedByPath(InsertByPath(r, rs))
    ensures multiset(InsertByPath(r, rs)) == multiset(rs) + multiset{r}
  {
    if rs == [] {
    } else if LexLessEq(r.path, rs[0].path) {
      InsertFront(r, rs);
    } else {
      InsertByPathSpec(r, rs[1..]);
      assert rs == [rs[0]] + rs[1..];
      LexLessTotal(r.path, rs[0].path);
      InsertBehind(r, rs, InsertByPath(r, rs[1..]));
    }
  }

  lemma InsertFront(r: Row, rs: seq<Row>)
    requires SortedByPath(rs) && rs != [] && LexLessEq(r.path, rs[0].path)
    ensures SortedByPath([r] + rs)
  {
    var out := [r] + rs;
    forall i, j | 0 <= i < j < |out| ensures LexLessEq(out[i].path, out[j].path) {
      if i == 0 {
        assert out[j] == rs[j - 1];
        assert LexLessEq(rs[0].path, rs[j - 1].path);
        if LexLess(r.path, rs[0].path) && LexLess(rs[0].path, rs[j - 1].path) {
          LexLessTransitive(r.path, rs[0].path, rs[j - 1].path);
        }
      } else {
        assert out[i] == rs[i - 1] && out[j] == rs[j - 1];
      }
    }
  }

  lemma {:induction false} InsertBehind(r: Row, rs: seq<Row>, tail: seq<Row>)
    requires SortedByPath(rs) && rs != [] && LexLess(rs[0].path, r.path)
    requires SortedByPath(tail) && multiset(tail) == multiset(rs[1..]) + multiset{r}
    ensures SortedByPath([rs[0]] + tail)
  {
    HeadBelowTail(r, rs, tail);
    var out := [rs[0]] + tail;
    forall i, j | 0 <= i < j < |out| ensures LexLessEq(out[i].path, out[j].path) {
      if i == 0 {
        assert out[j] in tail;
      } else {
        assert out[i] == tail[i - 1] && out[j] == tail[j - 1];
      }
    }
  }

  /** The first row of a sorted selection comes before every row of the rest with r inserted. */
  lemma {:induction false} HeadBelowTail(r: Row, rs: seq<Row>, tail: seq<Row>)
    requires SortedByPath(rs) && rs != [] && LexLess(rs[0].path, r.path)
    requires multiset(tail) == multiset(rs[1..]) + multiset{r}
    ensures forall x :: x in tail ==> LexLessEq(rs[0].path, x.path)
  {
    forall x | x in tail ensures LexLessEq(rs[0].path, x.path) {
      assert x in multiset(tail);
      if x != r {
        assert x in multiset(rs[1..]);
        var j :| 0 <= j < |rs[1..]| && rs[1..][j] == x;
        assert rs[j + 1] == x;
      }
    }
  }

  /** ORDER BY path is a sorted permutation of the selection. */
  lemma {:induction false} SortByPathSpec(rs: seq<Row>)
    ensures SortedByPath(SortByPath(rs))
    ensures multiset(SortByPath(rs)) == multiset(rs)
  {
    if rs != [] {
      SortByPathSpec(rs[1..]);
      InsertByPathSpec(rs[0], SortByPath(rs[1..]));
      assert rs == [rs[0]] + rs[1..];
    }
  }

  /** Two tables with the same rows in the same order, as far as keys and adjacency go. */
  ghost predicate SameKeys(a: seq<Row>, b: seq<Row>) {
    && |a| == |b|
    && forall i :: 0 <= i < |a| ==> a[i].id == b[i].id && a[i].parentId == b[i].parentId
  }

  /** Two tables whose rows keep their tree and their depth. */
  ghost predicate SameLevels(a: seq<Row>, b: seq<Row>) {
    && |a| == |b|
    && forall i :: 0 <= i < |a| ==> a[i].treeId == b[i].treeId && a[i].depth == b[i].depth
  }

  /**
   * The arguments of _update_subtree: the subtree whose root is at
   * (oldTreeId, oldPath, oldDepth) goes to (newTreeId, newPath, newDepth).
   */
  datatype Move = Move(newTreeId: int, newPath: Path, newDepth: int, oldTreeId: int, oldPath: Path, oldDepth: int)

  predicate MoveShaped(m: Move, steplen: nat) {
    && IsPath(m.newPath) && m.newDepth >= 0 && |m.newPath| == m.newDepth * steplen
    && IsPath(m.oldPath) && m.oldDepth >= 0 && |m.oldPath| == m.oldDepth * steplen
  }

  /** A move among siblings: same tree, same level. */
  predicate StaysIn(m: Move, treeId: int) {
    m.newTreeId == treeId && m.oldTreeId == treeId && m.newDepth == m.oldDepth
  }

  /** The row is the subtree root at path in tree treeId or one of its descendants. */
  predicate InSubtree(r: Row, treeId: int, path: Path) {
    r.treeId == treeId && IsPrefix(path, r.path)
  }

  /** SQL substr(path, n + 1): the path without its first n characters. */
  function Drop(path: Path, n: nat): Path {
    if n <= |path| then path[n..] else []
  }

  /**
   * One row under the UPDATE of _update_subtree: a row the descendants filter
   * selects gets the new tree, its depth shifted and its path re-rooted.
   */
  function RewriteRow(r: Row, m: Move, steplen: nat): Row
    requires steplen > 0 && MoveShaped(m, steplen)
  {
    if Descendants(steplen, m.oldTreeId, m.oldPath, true, r) then
      r.(treeId := m.newTreeId,
         path := m.newPath + Drop(r.path, |m.oldPath|),
         depth := r.depth + (m.newDepth - m.oldDepth))
    else r
  }

  /** The UPDATE statement applies RewriteRow to every row of the table. */
  function RewriteSubtree(rows: seq<Row>, m: Move, steplen: nat): (out: seq<Row>)
    requires steplen > 0 && MoveShaped(m, steplen)
    ensures |out| == |rows|
  {
    seq(|rows|, i requires 0 <= i < |rows| => RewriteRow(rows[i], m, steplen))
  }

  /**
   * _update_subtree moves exactly the subtree: its rows are re-rooted at the
   * new place one level shift away, every other row is untouched, keys and
   * parents never change, and the result is still a shaped row.
   */
  lemma RewriteRowSpec(r: Row, m: Move, steplen: nat)
    requires steplen > 0 && MoveShaped(m, steplen) && Shaped(r, steplen)
    ensures var r' := RewriteRow(r, m, steplen);
      && r'.id == r.id && r'.parentId == r.parentId
      && Shaped(r', steplen)
      && (InSubtree(r, m.oldTreeId, m.oldPath) ==>
            && r'.treeId == m.newTreeId
            && r'.path == m.newPath + r.path[|m.oldPath|..]
            && r'.depth == r.depth - m.oldDepth + m.newDepth)
      && (!InSubtree(r, m.oldTreeId, m.oldPath) ==> r' == r)
  {
    var root := Row(r.id, None, m.oldTreeId, m.oldPath, m.oldDepth);
    ShapedAligned(root, steplen);
    ShapedAligned(r, steplen);
    DescendantsIffPrefix(steplen, m.oldTreeId, m.oldPath, true, r);
    if InSubtree(r, m.oldTreeId, m.oldPath) {
      DepthFromLength(root, r, steplen, 0);
      ReRooted(m.oldPath, m.newPath, r.path, m.oldDepth, m.newDepth, r.depth, steplen);
    }
  }

  /** Cutting the old root's path off a descendant's path and putting the new one in front. */
  lemma ReRooted(oldPath: Path, newPath: Path, q: Path, oldDepth: int, newDepth: int, depth: int, steplen: nat)
    requires IsPath(newPath) && IsPath(q) && IsPrefix(oldPath, q)
    requires |newPath| == newDepth * steplen && |oldPath| == oldDepth * steplen && |q| == depth * steplen
    requires 0 <= oldDepth <= depth && newDepth >= 0
    ensures IsPath(newPath + q[|oldPath|..])
    ensures |newPath + q[|oldPath|..]| == (depth - oldDepth + newDepth) * steplen
    ensures depth - oldDepth + newDepth >= 0
  {
    Distrib3(depth, oldDepth, newDepth, steplen);
    var p := newPath + q[|oldPath|..];
    forall i | 0 <= i < |p| ensures IsSymbol(p[i]) {
      if i >= |newPath| {
        assert p[i] == q[i - |newPath| + |oldPath|];
      }
    }
  }

  lemma Distrib3(a: int, b: int, c: int, s: int)
    ensures (a - b + c) * s == a * s - b * s + c * s
  {
  }

  /** RewriteRowSpec for the whole table: it stays well formed and keeps its keys. */
  lemma RewriteSubtreeSpec(rows: seq<Row>, m: Move, steplen: nat)
    requires WellFormed(rows, steplen) && MoveShaped(m, steplen)
    ensures WellFormed(RewriteSubtree(rows, m, steplen), steplen)
    ensures SameKeys(rows, RewriteSubtree(rows, m, steplen))
    ensures StaysIn(m, m.oldTreeId) ==> SameLevels(rows, RewriteSubtree(rows, m, steplen))
    ensures forall i :: 0 <= i < |rows| && rows[i].treeId != m.oldTreeId ==>
      RewriteSubtree(rows, m, steplen)[i] == rows[i]
  {
    var out := RewriteSubtree(rows, m, steplen);
    forall i | 0 <= i < |rows|
      ensures out[i].id == rows[i].id && out[i].parentId == rows[i].parentId
      ensures Shaped(out[i], steplen)
      ensures StaysIn(m, m.oldTreeId) ==> out[i].treeId == rows[i].treeId && out[i].depth == rows[i].depth
      ensures rows[i].treeId != m.oldTreeId ==> out[i] == rows[i]
    {
      RewriteRowSpec(rows[i], m, steplen);
    }
  }

  predicate MovesShaped(ms: seq<Move>, steplen: nat) {
    forall k :: 0 <= k < |ms| ==> MoveShaped(ms[k], steplen)
  }

  /** A sequence of _update_subtree calls, run in order. */
  function ApplyMoves(rows: seq<Row>, ms: seq<Move>, steplen: nat): (out: seq<Row>)
    requires steplen > 0 && MovesShaped(ms, steplen)
    ensures |out| == |rows|
  {
    if ms == [] then rows
    else RewriteSubtree(ApplyMoves(rows, ms[..|ms| - 1], steplen), ms[|ms| - 1], steplen)
  }

  /** Running the first i + 1 moves is running the first i, then move i. */
  lemma {:induction false} ApplyMovesStep(rows: seq<Row>, ms: seq<Move>, i: nat, steplen: nat)
    requires steplen > 0 && MovesShaped(ms, steplen) && i < |ms|
    ensures MovesShaped(ms[..i], steplen) && MovesShaped(ms[..i + 1], steplen)
    ensures ApplyMoves(rows, ms[..i + 1], steplen) == RewriteSubtree(ApplyMoves(rows, ms[..i], steplen), ms[i], steplen)
  {
    assert ms[..i + 1][..i] == ms[..i];
  }

  /**
   * Any run of moves keeps the table well formed and keeps every key and
   * parent; a run of moves among siblings of tree treeId also keeps every
   * row's tree and depth, and leaves the other trees alone.
   */
  lemma {:induction false} ApplyMovesSpec(rows: seq<Row>, ms: seq<Move>, steplen: nat, treeId: int)
    requires WellFormed(rows, steplen) && MovesShaped(ms, steplen)
    ensures WellFormed(ApplyMoves(rows, ms, steplen), steplen)
    ensures SameKeys(rows, ApplyMoves(rows, ms, steplen))
    ensures (forall k :: 0 <= k < |ms| ==> StaysIn(ms[k], treeId)) ==>
      && SameLevels(rows, ApplyMoves(rows, ms, steplen))
      && forall i :: 0 <= i < |rows| && rows[i].treeId != treeId ==> ApplyMoves(rows, ms, steplen)[i] == rows[i]
  {
    if ms != [] {
      var init := ms[..|ms| - 1];
      assert MovesShaped(init, steplen) by {
        forall k | 0 <= k < |init| ensures MoveShaped(init[k], steplen) {
          assert init[k] == ms[k];
        }
      }
      ApplyMovesSpec(rows, init, steplen, treeId);
      var mid := ApplyMoves(rows, init, steplen);
      RewriteSubtreeSpec(mid, ms[|ms| - 1], steplen);
      if forall k :: 0 <= k < |ms| ==> StaysIn(ms[k], treeId) {
        assert forall k :: 0 <= k < |init| ==> StaysIn(init[k], treeId) by {
          forall k | 0 <= k < |init| ensures StaysIn(init[k], treeId) {
            assert init[k] == ms[k];
          }
        }
      }
    }
  }
}
