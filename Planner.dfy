/**
 * _InsertionsParamsSelector: where a new row goes. A root starts the next
 * tree; a child takes the slot after its parent's last child.
 */
module Planner {
  import opened Wrappers
  import opened PathOrder
  import opened PathCodec
  import opened Limits
  import opened Rows

  /** The (tree_id, path, depth) triple given to a new row. */
  datatype Placement = Placement(treeId: int, path: Path, depth: int)

  /** The paths of the rows whose parent reference is parentId. */
  function ChildPaths(rows: seq<Row>, parentId: int): (ps: seq<Path>)
    ensures forall p :: p in ps <==> exists r :: r in rows && r.parentId == Some(parentId) && r.path == p
  {
    if rows == [] then []
    else
      var rest := ChildPaths(rows[1..], parentId);
      assert forall r :: r in rows ==> r == rows[0] || r in rows[1..];
      if rows[0].parentId == Some(parentId) then [rows[0].path] + rest else rest
  }

  /** SQL max over the path column: None for no rows. */
  function MaxPath(ps: seq<Path>): (m: Option<Path>)
    ensures m.None? <==> ps == []
    ensures m.Some? ==> m.value in ps
  {
    if ps == [] then None
    else
      var rest := MaxPath(ps[1..]);
      if rest.None? || LexLess(rest.value, ps[0]) then Some(ps[0]) else rest
  }

  lemma {:induction false} MaxPathIsMax(ps: seq<Path>)
    ensures MaxPath(ps).Some? ==> forall p :: p in ps ==> LexLessEq(p, MaxPath(ps).value)
  {
    if ps != [] {
      MaxPathIsMax(ps[1..]);
      var rest := MaxPath(ps[1..]);
      var m := MaxPath(ps).value;
      forall p | p in ps ensures LexLessEq(p, m) {
        if p != ps[0] {
          assert p in ps[1..];
          if rest.Some? && LexLess(rest.value, ps[0]) && LexLess(p, rest.value) {
            LexLessTransitive(p, rest.value, m);
          }
        } else if rest.Some? && ps[0] != rest.value {
          LexLessTotal(ps[0], rest.value);
        }
      }
    }
  }

  /** a and b hold the same paths, in any order and multiplicity. */
  ghost predicate SameElements(a: seq<Path>, b: seq<Path>) {
    forall p :: p in a <==> p in b
  }

  /** The path of the parent's last child, as the query reads it. */
  function LastChildPath(rows: seq<Row>, parentId: int): Option<Path> {
    MaxPath(ChildPaths(rows, parentId))
  }

  /**
   * The first slot under the parent when there is no last child (or an empty
   * one), else the successor of the last child's path.
   */
  function NextChildPath(parentPath: Path, last: Option<Path>, steplen: nat): Result<Path>
    requires steplen > 0 && (last.Some? ==> IsPath(last.value))
  {
    if last.None? || last.value == [] then Ok(parentPath + Zeros(steplen))
    else IncPath(last.value, steplen)
  }

  /**
   * When the last child sits one segment below the parent, the next path
   * also does, and comes after it; it fails exactly when the last child's
   * segment is all 'Z'.
   */
  lemma NextChildPathSpec(parentPath: Path, last: Option<Path>, steplen: nat)
    requires steplen > 0 && IsPath(parentPath)
    requires last.Some? ==> IsPath(last.value) && IsPrefix(parentPath, last.value)
    requires last.Some? ==> |last.value| == |parentPath| + steplen
    ensures var r := NextChildPath(parentPath, last, steplen);
      && (r.Err? <==> last.Some? && forall i :: |parentPath| <= i < |last.value| ==> last.value[i] == 'Z')
      && (r.Ok? ==>
            && IsPath(r.value) && IsPrefix(parentPath, r.value)
            && |r.value| == |parentPath| + steplen
            && (last.Some? ==> LexLess(last.value, r.value)))
  {
    var pp, s := parentPath, steplen;
    if last.None? {
      assert (pp + Zeros(s))[..|pp|] == pp;
    } else {
      var l := last.value;
      assert Cut(l, s) == |pp|;
      IncPathOverflowIff(l, s);
      if IncPath(l, s).Ok? {
        IncPathShape(l, s);
        IncPathGreater(l, s);
        assert IncPath(l, s).value[..|pp|] == l[..|pp|];
      }
    }
  }

  /** Every path in the table is made of symbols. */
  predicate PathsAreSymbols(rows: seq<Row>) {
    forall r :: r in rows ==> IsPath(r.path)
  }

  /**
   * _perform_query. A root gets max(tree_id) + 1 (1 on an empty table), the
   * empty path and depth 0. A child gets its parent's tree and depth + 1, and
   * either the first slot under the parent (no last child, or an empty one) or
   * inc_path of the last child's path, whose overflow is TooManyChildren; a
   * child path longer than pathlen is PathTooDeep.
   */
  function Plan(rows: seq<Row>, parentId: Option<int>, opts: Options): Result<Placement>
    requires opts.Valid() && PathsAreSymbols(rows)
    requires parentId.Some? ==> Find(rows, parentId.value).Some?
  {
    match parentId
    case None =>
      var m := MaxTreeId(rows);
      Ok(Placement(if m.None? then 1 else m.value + 1, "", 0))
    case Some(pid) =>
      PlaceChild(Find(rows, pid).value, LastChildPath(rows, pid), opts)
  }

  /** The placement of a child of parent whose last child's path is last. */
  function PlaceChild(parent: Row, last: Option<Path>, opts: Options): Result<Placement>
    requires opts.Valid() && (last.Some? ==> IsPath(last.value))
  {
    var path := NextChildPath(parent.path, last, opts.steplen);
    if path.Err? then Err(TooManyChildren)
    else if |path.value| > opts.pathlen then Err(PathTooDeep)
    else Ok(Placement(parent.treeId, path.value, parent.depth + 1))
  }

  lemma PlaceChildAt(parent: Row, last: Option<Path>, opts: Options, next: Path)
    requires opts.Valid() && (last.Some? ==> IsPath(last.value))
    requires NextChildPath(parent.path, last, opts.steplen) == Ok(next) && |next| <= opts.pathlen
    ensures PlaceChild(parent, last, opts) == Ok(Placement(parent.treeId, next, parent.depth + 1))
  {
  }

  /** A new root starts a tree whose id is above every existing one: 1 on an empty table. */
  lemma PlanRoot(rows: seq<Row>, opts: Options)
    requires opts.Valid() && PathsAreSymbols(rows)
    ensures Plan(rows, None, opts).Ok?
    ensures var pl := Plan(rows, None, opts).value;
      && pl.path == "" && pl.depth == 0
      && (rows == [] ==> pl.treeId == 1)
      && (forall r :: r in rows ==> r.treeId < pl.treeId)
  {
  }

  /**
   * The rows whose parent_id names the parent sit one segment below its
   * path; the planner's guarantees for a child are stated for such tables.
   */
  predicate ChildrenBelow(rows: seq<Row>, parent: Row, steplen: nat) {
    forall r :: r in rows && r.parentId == Some(parent.id) ==>
      IsPrefix(parent.path, r.path) && |r.path| == |parent.path| + steplen
  }

  /**
   * A child is placed in its parent's tree one level down, one segment below
   * the parent's path and after every existing child, so its path differs
   * from every existing child's path. The insertion fails with TooManyChildren exactly when the last
   * child's segment is all 'Z', and otherwise with PathTooDeep exactly when
   * the parent is at max_depth - 1.
   */
  lemma {:induction false} PlanChild(rows: seq<Row>, pid: int, opts: Options)
    requires opts.Valid() && PathsAreSymbols(rows) && Find(rows, pid).Some?
    requires var parent := Find(rows, pid).value;
      Shaped(parent, opts.steplen) && ChildrenBelow(rows, parent, opts.steplen)
    ensures var parent, res := Find(rows, pid).value, Plan(rows, Some(pid), opts);
      var last := LastChildPath(rows, pid);
      && (res == Err(TooManyChildren) <==>
            last.Some? && forall i :: |parent.path| <= i < |last.value| ==> last.value[i] == 'Z')
      && (res == Err(PathTooDeep) <==> res != Err(TooManyChildren) && parent.depth + 1 >= opts.MaxDepth())
      && (res.Err? ==> res == Err(TooManyChildren) || res == Err(PathTooDeep))
      && (res.Ok? ==>
            && res.value.treeId == parent.treeId && res.value.depth == parent.depth + 1
            && IsPath(res.value.path) && IsPrefix(parent.path, res.value.path)
            && |res.value.path| == |parent.path| + opts.steplen
            && forall p :: p in ChildPaths(rows, pid) ==> LexLess(p, res.value.path))
  {
    var parent, s := Find(rows, pid).value, opts.steplen;
    var ps := ChildPaths(rows, pid);
    var last := LastChildPath(rows, pid);
    assert (parent.depth + 1) * s == |parent.path| + s;
    DepthFits(opts, parent.depth + 1);
    NextChildPathSpec(parent.path, last, s);
    var next := NextChildPath(parent.path, last, s);
    if next.Ok? && last.Some? {
      MaxPathIsMax(ps);
      forall p | p in ps ensures LexLess(p, next.value) {
        if p != last.value {
          LexLessTransitive(p, last.value, next.value);
        }
      }
    }
  }

  /** While a parent's children hold exactly its first k slots, the last child holds slot k - 1. */
  lemma {:induction false} LastChildIsSlot(rows: seq<Row>, pid: int, opts: Options, k: nat)
    requires opts.Valid() && Find(rows, pid).Some?
    requires SameElements(ChildPaths(rows, pid), Slots(Find(rows, pid).value.path, k, opts.steplen))
    requires 0 < k <= opts.MaxChildren()
    ensures LastChildPath(rows, pid) == Some(Slot(Find(rows, pid).value.path, k - 1, opts.steplen))
  {
    LastOfSlots(ChildPaths(rows, pid), Find(rows, pid).value.path, k, opts.steplen);
  }

  /**
   * Children are appended in slot order: when the last child holds slot
   * k - 1, the next child gets slot k, and once all max_children slots are
   * taken the insertion fails with TooManyChildren.
   */
  lemma {:induction false} PlanAfterSlots(rows: seq<Row>, pid: int, opts: Options, k: nat, parent: Row, last: Option<Path>)
    requires opts.Valid() && PathsAreSymbols(rows) && Find(rows, pid) == Some(parent)
    requires LastChildPath(rows, pid) == last
    requires IsPath(parent.path) && |parent.path| + opts.steplen <= opts.pathlen
    requires 0 < k <= opts.MaxChildren() && last == Some(Slot(parent.path, k - 1, opts.steplen))
    ensures k < opts.MaxChildren() ==>
      Plan(rows, Some(pid), opts) == Ok(Placement(parent.treeId, Slot(parent.path, k, opts.steplen), parent.depth + 1))
    ensures k == opts.MaxChildren() ==> Plan(rows, Some(pid), opts) == Err(TooManyChildren)
  {
    PlanIsPlace(rows, pid, opts);
    PlaceAfterSlots(parent, last, opts, k);
  }

  lemma {:induction false} PlanIsPlace(rows: seq<Row>, pid: int, opts: Options)
    requires opts.Valid() && PathsAreSymbols(rows) && Find(rows, pid).Some?
    ensures Plan(rows, Some(pid), opts) == PlaceChild(Find(rows, pid).value, LastChildPath(rows, pid), opts)
  {
  }

  /** A parent without children gives its first child the first slot. */
  lemma {:induction false} PlanFirstChild(rows: seq<Row>, pid: int, opts: Options)
    requires opts.Valid() && PathsAreSymbols(rows) && Find(rows, pid).Some?
    requires var parent := Find(rows, pid).value;
      IsPath(parent.path) && |parent.path| + opts.steplen <= opts.pathlen
    requires ChildPaths(rows, pid) == []
    ensures var parent := Find(rows, pid).value;
      Plan(rows, Some(pid), opts) == Ok(Placement(parent.treeId, Slot(parent.path, 0, opts.steplen), parent.depth + 1))
  {
    PlanIsPlace(rows, pid, opts);
    PlaceAfterSlots(Find(rows, pid).value, None, opts, 0);
  }

  /** PlanChildLimit for a parent whose last child is the slot before k. */
  lemma PlaceAfterSlots(parent: Row, last: Option<Path>, opts: Options, k: nat)
    requires opts.Valid() && IsPath(parent.path) && |parent.path| + opts.steplen <= opts.pathlen
    requires k <= opts.MaxChildren()
    requires k == 0 ==> last == None
    requires k > 0 ==> last == Some(Slot(parent.path, k - 1, opts.steplen))
    requires last.Some? ==> IsPath(last.value)
    ensures k < opts.MaxChildren() ==>
      PlaceChild(parent, last, opts) == Ok(Placement(parent.treeId, Slot(parent.path, k, opts.steplen), parent.depth + 1))
    ensures k == opts.MaxChildren() ==> PlaceChild(parent, last, opts) == Err(TooManyChildren)
  {
    var pp, s := parent.path, opts.steplen;
    if k == 0 {
      FirstSlot(pp, s);
      PlaceChildAt(parent, None, opts, Slot(pp, 0, s));
    } else {
      var j := k - 1;
      if k < opts.MaxChildren() {
        NextSlot(pp, j, s);
        PlaceChildAt(parent, last, opts, Slot(pp, k, s));
      } else {
        NoSlotAfterLast(pp, j, s);
      }
    }
  }

  /** After slot j comes slot j + 1, while there is one... */
  lemma {:induction false} NextSlot(pp: Path, j: nat, steplen: nat)
    requires steplen > 0 && IsPath(pp) && j + 1 < Pow(Radix, steplen)
    ensures NextChildPath(pp, Some(Slot(pp, j, steplen)), steplen) == Ok(Slot(pp, j + 1, steplen))
  {
    SlotWindow(pp, j, steplen);
    SlotSucc(pp, j, steplen);
    NextChildOf(pp, Slot(pp, j, steplen), steplen);
  }

  /** ... and nothing comes after the last slot. */
  lemma {:induction false} NoSlotAfterLast(pp: Path, j: nat, steplen: nat)
    requires steplen > 0 && IsPath(pp) && j + 1 == Pow(Radix, steplen)
    ensures NextChildPath(pp, Some(Slot(pp, j, steplen)), steplen).Err?
  {
    SlotWindow(pp, j, steplen);
    SlotLast(pp, steplen);
    NextChildOf(pp, Slot(pp, j, steplen), steplen);
  }

  lemma NextChildOf(pp: Path, l: Path, steplen: nat)
    requires steplen > 0 && IsPath(l) && |l| >= steplen
    ensures NextChildPath(pp, Some(l), steplen) == IncPath(l, steplen)
  {
  }

  /** The largest of the first k slots is slot k - 1. */
  lemma {:induction false} LastOfSlots(ps: seq<Path>, pp: Path, k: nat, steplen: nat)
    requires 0 < k <= Pow(Radix, steplen) && SameElements(ps, Slots(pp, k, steplen))
    ensures MaxPath(ps) == Some(Slot(pp, k - 1, steplen))
  {
    var ss := Slots(pp, k, steplen);
    assert ss[k - 1] in ss;
    var last := MaxPath(ps).value;
    assert last in ss;
    var i :| 0 <= i < k && last == ss[i];
    MaxPathIsMax(ps);
    if i < k - 1 {
      SlotOrder(pp, i, k - 1, steplen);
      LexLessAsymmetric(last, Slot(pp, k - 1, steplen));
    }
  }

  /** The documented limits: with steplen 2, the 1297th child of one parent cannot be placed. */
  lemma {:induction false} PlanChildLimitExample(rows: seq<Row>, pid: int)
    requires PathsAreSymbols(rows) && Find(rows, pid).Some?
    requires var parent := Find(rows, pid).value;
      && IsPath(parent.path) && |parent.path| + 2 <= 255
      && SameElements(ChildPaths(rows, pid), Slots(parent.path, 1296, 2))
    ensures Plan(rows, Some(pid), Options(2, 255)) == Err(TooManyChildren)
  {
    LimitsExamples();
    LastChildIsSlot(rows, pid, Options(2, 255), 1296);
    PlanAfterSlots(rows, pid, Options(2, 255), 1296, Find(rows, pid).value, LastChildPath(rows, pid));
  }

  /**
   * The documented depth limit: with steplen 2 and a 255-character path
   * column, a chain holds 128 nodes (depths 0 to 127) and the 129th fails.
   */
  lemma {:induction false} PlanDepthLimitExample(rows: seq<Row>, pid: int)
    requires PathsAreSymbols(rows) && Find(rows, pid).Some?
    requires var parent := Find(rows, pid).value;
      Shaped(parent, 2) && ChildrenBelow(rows, parent, 2) && ChildPaths(rows, pid) == []
    ensures Find(rows, pid).value.depth < 127 ==> Plan(rows, Some(pid), Options(2, 255)).Ok?
    ensures Find(rows, pid).value.depth >= 127 ==> Plan(rows, Some(pid), Options(2, 255)) == Err(PathTooDeep)
  {
    LimitsExamples();
    PlanChild(rows, pid, Options(2, 255));
  }

  /**
   * The memoising selector: the placement is computed on the first request
   * and kept; a failed computation leaves nothing memoised.
   */
  class InsertionParams {
    const opts: Options
    const parentId: Option<int>
    var queryResult: Option<Placement>

    constructor(opts: Options, parentId: Option<int>)
      ensures this.opts == opts && this.parentId == parentId && queryResult == None
    {
      this.opts := opts;
      this.parentId := parentId;
      queryResult := None;
    }

    /** query_result: rows is the table as the first request sees it. */
    method QueryResult(rows: seq<Row>) returns (res: Result<Placement>)
      requires opts.Valid() && PathsAreSymbols(rows)
      requires parentId.Some? ==> Find(rows, parentId.value).Some?
      modifies this
      ensures old(queryResult).Some? ==> res == Ok(old(queryResult).value) && queryResult == old(queryResult)
      ensures old(queryResult).None? ==> res == Plan(rows, parentId, opts)
      ensures old(queryResult).None? ==> queryResult == (if res.Ok? then Some(res.value) else None)
    {
      if queryResult.Some? {
        return Ok(queryResult.value);
      }
      res := Plan(rows, parentId, opts);
      if res.Ok? {
        queryResult := Some(res.value);
      }
    }
  }
}
