/**
 * The values behind rebuild_all_trees and _do_rebuild_subtree: the
 * adjacency-list selections (roots, children in primary-key order), the
 * single-row UPDATE that places a node, and the run of paths the children of
 * one node receive.
 */
module Rebuild {
  import opened Wrappers
  import opened PathOrder
  import opened PathCodec
  import opened Rows
  import opened Updates

  /** The positions, from lo on, of the rows whose parent reference is parent, in table order. */
  function WithParentFrom(rows: seq<Row>, parent: Option<int>, lo: nat): (ix: seq<nat>)
    ensures forall j :: 0 <= j < |ix| ==> lo <= ix[j] < |rows| && rows[ix[j]].parentId == parent
    ensures forall i :: lo <= i < |rows| && rows[i].parentId == parent ==> i in ix
    ensures forall j, k :: 0 <= j < k < |ix| ==> ix[j] < ix[k]
    decreases |rows| - lo
  {
    if lo >= |rows| then []
    else (if rows[lo].parentId == parent then [lo] else []) + WithParentFrom(rows, parent, lo + 1)
  }

  /**
   * SELECT pk WHERE parent_id = parent ORDER BY pk, as positions in the
   * table: the roots for None, the children of a node for Some(id).
   */
  function WithParent(rows: seq<Row>, parent: Option<int>): (ix: seq<nat>)
    ensures forall j :: 0 <= j < |ix| ==> ix[j] < |rows| && rows[ix[j]].parentId == parent
    ensures forall i :: 0 <= i < |rows| && rows[i].parentId == parent ==> i in ix
    ensures forall j, k :: 0 <= j < k < |ix| ==> ix[j] < ix[k]
  {
    WithParentFrom(rows, parent, 0)
  }

  /** The selection depends on the parent references only. */
  lemma {:induction false} WithParentFromKeys(a: seq<Row>, b: seq<Row>, parent: Option<int>, lo: nat)
    requires SameKeys(a, b)
    ensures WithParentFrom(a, parent, lo) == WithParentFrom(b, parent, lo)
    decreases |a| - lo
  {
    if lo < |a| {
      WithParentFromKeys(a, b, parent, lo + 1);
    }
  }

  lemma WithParentKeys(a: seq<Row>, b: seq<Row>, parent: Option<int>)
    requires SameKeys(a, b)
    ensures WithParent(a, parent) == WithParent(b, parent)
  {
    WithParentFromKeys(a, b, parent, 0);
  }

  /** UPDATE ... WHERE pk = id SET tree_id, path, depth. */
  function Relocate(rows: seq<Row>, id: int, treeId: int, path: Path, depth: int): (out: seq<Row>)
    ensures |out| == |rows|
  {
    seq(|rows|, i requires 0 <= i < |rows| =>
      if rows[i].id == id then rows[i].(treeId := treeId, path := path, depth := depth) else rows[i])
  }

  /** In a keyed table the UPDATE changes exactly the row at position i, keeping its key. */
  lemma RelocateAt(rows: seq<Row>, i: nat, treeId: int, path: Path, depth: int)
    requires Keyed(rows) && i < |rows|
    ensures var out := Relocate(rows, rows[i].id, treeId, path, depth);
      && SameKeys(rows, out)
      && out[i] == rows[i].(treeId := treeId, path := path, depth := depth)
      && forall k :: 0 <= k < |rows| && k != i ==> out[k] == rows[k]
  {
    var out := Relocate(rows, rows[i].id, treeId, path, depth);
    forall k | 0 <= k < |rows| && k != i ensures out[k] == rows[k] {
      assert rows[k].id != rows[i].id by {
        if k < i {
          assert rows[k].id < rows[i].id;
        } else {
          assert rows[i].id < rows[k].id;
        }
      }
    }
  }

  /**
   * The paths the children of one node receive, corrected: the first child
   * gets first, and the path is incremented only when another child
   * follows, so the overflow of inc_path is reached only by a child that
   * has no slot.
   */
  function RebuildPaths(first: Path, n: nat, steplen: nat): Result<seq<Path>>
    requires steplen > 0 && IsPath(first)
    decreases n
  {
    if n == 0 then Ok([])
    else if n == 1 then Ok([first])
    else
      match IncPath(first, steplen)
      case Err(e) => Err(e)
      case Ok(next) =>
        IncPathIsPath(first, steplen);
        match RebuildPaths(next, n - 1, steplen)
        case Err(e) => Err(e)
        case Ok(rest) => Ok([first] + rest)
  }

  /**
   * The paths as _do_rebuild_subtree writes them: it increments the path
   * after every child, the last one included.
   */
  function RebuildPathsAsWritten(first: Path, n: nat, steplen: nat): Result<seq<Path>>
    requires steplen > 0 && IsPath(first)
    decreases n
  {
    if n == 0 then Ok([])
    else
      match IncPath(first, steplen)
      case Err(e) => Err(e)
      case Ok(next) =>
        IncPathIsPath(first, steplen);
        match RebuildPathsAsWritten(next, n - 1, steplen)
        case Err(e) => Err(e)
        case Ok(rest) => Ok([first] + rest)
  }

  lemma {:induction false} SlotIsPath(pp: Path, k: nat, steplen: nat)
    requires steplen > 0 && IsPath(pp) && k < Pow(Radix, steplen)
    ensures IsPath(Slot(pp, k, steplen))
  {
    SlotWindow(pp, k, steplen);
  }

  /** After the last slot inc_path fails with PathOverflow. */
  lemma {:induction false} SlotOverflow(pp: Path, k: nat, steplen: nat)
    requires steplen > 0 && IsPath(pp) && k + 1 == Pow(Radix, steplen)
    ensures IsPath(Slot(pp, k, steplen))
    ensures IncPath(Slot(pp, k, steplen), steplen) == Err(PathOverflow)
  {
    SlotLast(pp, steplen);
    IncPathError(Slot(pp, k, steplen), steplen);
  }

  /**
   * inc_path on the path of slot k: slot k + 1, or PathOverflow after the
   * last slot.
   */
  method IncSlot(pp: Path, k: nat, path: Path, steplen: nat) returns (next: Result<Path>)
    requires steplen > 0 && IsPath(pp) && k < Pow(Radix, steplen) && path == Slot(pp, k, steplen)
    ensures next.Ok? <==> k + 1 < Pow(Radix, steplen)
    ensures next.Ok? ==> next.value == Slot(pp, k + 1, steplen)
    ensures next.Err? ==> next.error == PathOverflow
  {
    SlotIsPath(pp, k, steplen);
    next := IncPath(path, steplen);
    if k + 1 < Pow(Radix, steplen) {
      SlotSucc(pp, k, steplen);
    } else {
      SlotOverflow(pp, k, steplen);
    }
  }

  /** One step of the corrected run, for any first path. */
  lemma RunStep(first: Path, n: nat, steplen: nat)
    requires steplen > 0 && IsPath(first) && n >= 2
    ensures IncPath(first, steplen).Err? ==> RebuildPaths(first, n, steplen) == Err(IncPath(first, steplen).error)
    ensures IncPath(first, steplen).Ok? ==>
      var next := IncPath(first, steplen).value;
      && IsPath(next)
      && (RebuildPaths(first, n, steplen).Ok? <==> RebuildPaths(next, n - 1, steplen).Ok?)
      && (RebuildPaths(first, n, steplen).Err? ==> RebuildPaths(first, n, steplen) == RebuildPaths(next, n - 1, steplen))
      && (RebuildPaths(first, n, steplen).Ok? ==>
            RebuildPaths(first, n, steplen).value == [first] + RebuildPaths(next, n - 1, steplen).value)
  {
    if IncPath(first, steplen).Ok? {
      IncPathShape(first, steplen);
    }
  }

  /** One step of the run as written, for any first path. */
  lemma RunStepAsWritten(first: Path, n: nat, steplen: nat)
    requires steplen > 0 && IsPath(first) && n >= 1
    ensures IncPath(first, steplen).Err? ==> RebuildPathsAsWritten(first, n, steplen) == Err(IncPath(first, steplen).error)
    ensures IncPath(first, steplen).Ok? ==>
      var next := IncPath(first, steplen).value;
      && IsPath(next)
      && (RebuildPathsAsWritten(first, n, steplen).Ok? <==> RebuildPathsAsWritten(next, n - 1, steplen).Ok?)
      && (RebuildPathsAsWritten(first, n, steplen).Err? ==>
            RebuildPathsAsWritten(first, n, steplen) == RebuildPathsAsWritten(next, n - 1, steplen))
  {
    if IncPath(first, steplen).Ok? {
      IncPathShape(first, steplen);
    }
  }

  /** inc_path has one error, PathOverflow. */
  lemma IncPathError(p: Path, steplen: nat)
    requires steplen > 0 && IsPath(p) && IncPath(p, steplen).Err?
    ensures IncPath(p, steplen) == Err(PathOverflow)
  {
  }

  /** Every path of ps is a path, and each one after the first is inc_path of the one before it. */
  ghost predicate IncChain(ps: seq<Path>, steplen: nat)
    requires steplen > 0
  {
    (forall j :: 0 <= j < |ps| ==> IsPath(ps[j]))
    && forall j {:trigger IncPath(ps[j], steplen)} :: 0 <= j < |ps| - 1 ==> IncPath(ps[j], steplen) == Ok(ps[j + 1])
  }

  /** The corrected run, under a name the chain lemmas below state their results with. */
  ghost function CorrectedRun(first: Path, n: nat, steplen: nat): Result<seq<Path>>
    requires steplen > 0 && IsPath(first)
  {
    RebuildPaths(first, n, steplen)
  }

  /** Path p in front of a run; an error stays as it is. */
  function Prepend(p: Path, run: Result<seq<Path>>): Result<seq<Path>> {
    if run.Ok? then Ok([p] + run.value) else run
  }

  /** One child: its path is first. */
  lemma RunOne(first: Path, steplen: nat)
    requires steplen > 0 && IsPath(first)
    ensures CorrectedRun(first, 1, steplen) == Ok([first])
  {
  }

  /** More children after first: first, then the run from its increment. */
  lemma RunLink(first: Path, next: Path, n: nat, steplen: nat)
    requires steplen > 0 && IsPath(first) && n >= 2 && IncPath(first, steplen) == Ok(next)
    ensures IsPath(next) && CorrectedRun(first, n, steplen) == Prepend(first, CorrectedRun(next, n - 1, steplen))
  {
    RunStep(first, n, steplen);
  }

  /** More children after first, but first cannot be incremented: the run fails with that error. */
  lemma RunFail(first: Path, n: nat, steplen: nat)
    requires steplen > 0 && IsPath(first) && n >= 2 && IncPath(first, steplen).Err?
    ensures CorrectedRun(first, n, steplen) == Err(IncPath(first, steplen).error)
  {
    RunStep(first, n, steplen);
  }

  /** The first link of a chain, and the chain after it. */
  lemma ChainSplit(ps: seq<Path>, steplen: nat)
    requires steplen > 0 && |ps| >= 2 && IncChain(ps, steplen)
    ensures IsPath(ps[0]) && IncPath(ps[0], steplen) == Ok(ps[1])
    ensures IncChain(ps[1..], steplen) && ps[1..][0] == ps[1] && ps == [ps[0]] + ps[1..]
  {
    var tail := ps[1..];
    forall j | 0 <= j < |tail| - 1 ensures IncPath(tail[j], steplen) == Ok(tail[j + 1]) {
      assert tail[j] == ps[j + 1] && tail[j + 1] == ps[j + 2];
    }
    assert IncPath(ps[0], steplen) == Ok(ps[1]);
  }

  /** Along a chain of increments, the corrected run gives the chain itself. */
  lemma {:induction false} RebuildChain(ps: seq<Path>, steplen: nat)
    requires steplen > 0 && |ps| >= 1 && IncChain(ps, steplen)
    ensures IsPath(ps[0]) && CorrectedRun(ps[0], |ps|, steplen) == Ok(ps)
    decreases |ps|
  {
    if |ps| >= 2 {
      ChainSplit(ps, steplen);
      RebuildChain(ps[1..], steplen);
      RunLink(ps[0], ps[1], |ps|, steplen);
    } else {
      RunOne(ps[0], steplen);
      assert ps == [ps[0]];
    }
  }

  /** A successful run with p put in front: the rest of it is the run that was prepended to. */
  lemma PrependOk(p: Path, run: Result<seq<Path>>, ps: seq<Path>)
    requires Prepend(p, run) == Ok(ps)
    ensures run.Ok? && run.value == ps[1..] && |ps| == |run.value| + 1
  {
  }

  /**
   * A run of m paths from first whose last path cannot be incremented:
   * asking for more than m children fails with that error.
   */
  lemma {:induction false} RunOverflow(first: Path, ps: seq<Path>, m: nat, n: nat, steplen: nat)
    requires steplen > 0 && IsPath(first) && 1 <= m < n
    requires CorrectedRun(first, m, steplen) == Ok(ps) && |ps| == m
    requires IsPath(ps[m - 1]) && IncPath(ps[m - 1], steplen).Err?
    ensures CorrectedRun(first, n, steplen) == Err(IncPath(ps[m - 1], steplen).error)
    decreases m, 1
  {
    if m == 1 {
      RunOne(first, steplen);
      RunFail(first, n, steplen);
    } else if IncPath(first, steplen).Err? {
      RunFail(first, m, steplen);
    } else {
      RunOverflowNext(first, IncPath(first, steplen).value, ps, m, n, steplen);
    }
  }

  lemma {:induction false} RunOverflowNext(first: Path, next: Path, ps: seq<Path>, m: nat, n: nat, steplen: nat)
    requires steplen > 0 && IsPath(first) && 2 <= m < n && IncPath(first, steplen) == Ok(next)
    requires CorrectedRun(first, m, steplen) == Ok(ps) && |ps| == m
    requires IsPath(ps[m - 1]) && IncPath(ps[m - 1], steplen).Err?
    ensures CorrectedRun(first, n, steplen) == Err(IncPath(ps[m - 1], steplen).error)
    decreases m, 0
  {
    RunLink(first, next, m, steplen);
    PrependOk(first, CorrectedRun(next, m - 1, steplen), ps);
    assert ps[1..][m - 2] == ps[m - 1];
    RunOverflow(next, ps[1..], m - 1, n - 1, steplen);
    RunLink(first, next, n, steplen);
  }

  /** The slots k, k + 1, ..., k + n - 1 of a parent, or PathOverflow when they do not all exist. */
  ghost function SlotsFrom(pp: Path, k: nat, n: nat, steplen: nat): Result<seq<Path>> {
    if k + n <= Pow(Radix, steplen) then Ok(SlotRun(pp, k, n, steplen)) else Err(PathOverflow)
  }

  /** The corrected run from slot k gives the slots k, k + 1, ... and fails exactly when they run out. */
  ghost predicate FillsSlots(run: Result<seq<Path>>, pp: Path, k: nat, n: nat, steplen: nat) {
    run == SlotsFrom(pp, k, n, steplen)
  }

  /** The slots k, k + 1, ..., k + n - 1 of a parent. */
  function SlotRun(pp: Path, k: nat, n: nat, steplen: nat): (ss: seq<Path>)
    ensures |ss| == n
  {
    seq(n, j requires 0 <= j < n => Slot(pp, k + j, steplen))
  }

  /** Child j of the run sits in slot i = k + j. */
  lemma SlotRunIndex(pp: Path, k: nat, n: nat, j: nat, i: nat, steplen: nat)
    requires j < n && i == k + j
    ensures SlotRun(pp, k, n, steplen)[j] == Slot(pp, i, steplen)
  {
  }

  /** Consecutive slots that all exist form a chain of increments. */
  lemma {:induction false} SlotRunChain(pp: Path, k: nat, n: nat, steplen: nat)
    requires steplen > 0 && IsPath(pp) && k + n <= Pow(Radix, steplen)
    ensures IncChain(SlotRun(pp, k, n, steplen), steplen)
  {
    SlotRunPaths(pp, k, n, steplen);
    SlotRunLinks(pp, k, n, steplen);
  }

  /** Every slot that exists is a path. */
  lemma {:induction false} SlotRunPaths(pp: Path, k: nat, n: nat, steplen: nat)
    requires steplen > 0 && IsPath(pp) && k + n <= Pow(Radix, steplen)
    ensures forall j :: 0 <= j < n ==> IsPath(SlotRun(pp, k, n, steplen)[j])
  {
    var ss := SlotRun(pp, k, n, steplen);
    forall j | 0 <= j < n ensures IsPath(ss[j]) {
      SlotIsPath(pp, k + j, steplen);
    }
  }

  /** inc_path takes each slot to the next one. */
  lemma {:induction false} SlotRunLinks(pp: Path, k: nat, n: nat, steplen: nat)
    requires steplen > 0 && IsPath(pp) && k + n <= Pow(Radix, steplen)
    ensures forall j :: 0 <= j < n - 1 ==>
      IsPath(SlotRun(pp, k, n, steplen)[j]) &&
      IncPath(SlotRun(pp, k, n, steplen)[j], steplen) == Ok(SlotRun(pp, k, n, steplen)[j + 1])
  {
    forall j | 0 <= j < n - 1
      ensures IsPath(SlotRun(pp, k, n, steplen)[j])
      ensures IncPath(SlotRun(pp, k, n, steplen)[j], steplen) == Ok(SlotRun(pp, k, n, steplen)[j + 1])
    {
      SlotLink(pp, k, n, j, steplen);
    }
  }

  /** One link of SlotRunLinks. */
  lemma {:induction false} SlotLink(pp: Path, k: nat, n: nat, j: nat, steplen: nat)
    requires steplen > 0 && IsPath(pp) && k + n <= Pow(Radix, steplen) && j + 1 < n
    ensures IsPath(SlotRun(pp, k, n, steplen)[j])
    ensures IncPath(SlotRun(pp, k, n, steplen)[j], steplen) == Ok(SlotRun(pp, k, n, steplen)[j + 1])
  {
    var i := k + j;
    assert IsPath(Slot(pp, i, steplen)) && IncPath(Slot(pp, i, steplen), steplen) == Ok(Slot(pp, i + 1, steplen)) by {
      SlotSucc(pp, i, steplen);
    }
    SlotRunIndex(pp, k, n, j, i, steplen);
    SlotRunIndex(pp, k, n, j + 1, i + 1, steplen);
  }

  /**
   * From slot k, the corrected run gives n children the slots k, k + 1, ...
   * and fails, with PathOverflow, exactly when they do not all fit.
   */
  lemma {:induction false} RebuildPathsSlots(pp: Path, k: nat, n: nat, steplen: nat)
    requires steplen > 0 && IsPath(pp) && k < Pow(Radix, steplen)
    ensures IsPath(Slot(pp, k, steplen))
    ensures FillsSlots(RebuildPaths(Slot(pp, k, steplen), n, steplen), pp, k, n, steplen)
  {
    SlotIsPath(pp, k, steplen);
    if n == 0 {
    } else if k + n <= Pow(Radix, steplen) {
      SlotsFit(pp, k, n, steplen);
    } else {
      SlotsOverflow(pp, k, n, steplen);
    }
  }

  /** The children fit: the run is the slots. */
  lemma {:induction false} SlotsFit(pp: Path, k: nat, n: nat, steplen: nat)
    requires steplen > 0 && IsPath(pp) && 1 <= n && k + n <= Pow(Radix, steplen)
    ensures IsPath(Slot(pp, k, steplen))
    ensures CorrectedRun(Slot(pp, k, steplen), n, steplen) == Ok(SlotRun(pp, k, n, steplen))
  {
    SlotIsPath(pp, k, steplen);
    SlotRunChain(pp, k, n, steplen);
    SlotRunIndex(pp, k, n, 0, k, steplen);
    RebuildChain(SlotRun(pp, k, n, steplen), steplen);
  }

  /** The last slot of a parent cannot be incremented. */
  lemma {:induction false} LastSlotStuck(pp: Path, k: nat, m: nat, steplen: nat)
    requires steplen > 0 && IsPath(pp) && 1 <= m && k + m == Pow(Radix, steplen)
    ensures IsPath(SlotRun(pp, k, m, steplen)[m - 1])
    ensures IncPath(SlotRun(pp, k, m, steplen)[m - 1], steplen) == Err(PathOverflow)
  {
    SlotRunIndex(pp, k, m, m - 1, Pow(Radix, steplen) - 1, steplen);
    SlotOverflow(pp, Pow(Radix, steplen) - 1, steplen);
  }

  /** The children do not fit: the run fails after the last slot. */
  lemma {:induction false} SlotsOverflow(pp: Path, k: nat, n: nat, steplen: nat)
    requires steplen > 0 && IsPath(pp) && k < Pow(Radix, steplen) < k + n
    ensures IsPath(Slot(pp, k, steplen))
    ensures CorrectedRun(Slot(pp, k, steplen), n, steplen) == Err(PathOverflow)
  {
    var m := Pow(Radix, steplen) - k;
    SlotsFit(pp, k, m, steplen);
    LastSlotStuck(pp, k, m, steplen);
    RunOverflow(Slot(pp, k, steplen), SlotRun(pp, k, m, steplen), m, n, steplen);
  }

  /**
   * Incrementing after every child, as written, costs the run one slot:
   * n children succeed as written exactly when n + 1 would succeed corrected.
   */
  lemma {:induction false} AsWrittenNeedsOneMore(first: Path, n: nat, steplen: nat)
    requires steplen > 0 && IsPath(first)
    ensures RebuildPathsAsWritten(first, n, steplen).Ok? <==> RebuildPaths(first, n + 1, steplen).Ok?
    ensures RebuildPathsAsWritten(first, n, steplen).Err? ==> RebuildPathsAsWritten(first, n, steplen).error == PathOverflow
    decreases n, 1
  {
    if n >= 1 {
      if IncPath(first, steplen).Ok? && n == 1 {
        OneMoreLast(first, steplen);
      } else if IncPath(first, steplen).Ok? {
        OneMoreNext(first, n, steplen);
      } else {
        OneMoreOverflow(first, n, steplen);
      }
    }
  }

  /** One child whose increment succeeds: the run as written and the corrected run of two both succeed. */
  lemma OneMoreLast(first: Path, steplen: nat)
    requires steplen > 0 && IsPath(first) && IncPath(first, steplen).Ok?
    ensures RebuildPathsAsWritten(first, 1, steplen).Ok? && RebuildPaths(first, 2, steplen).Ok?
  {
    IncPathIsPath(first, steplen);
  }

  /** When the first increment succeeds, both runs continue from its result. */
  lemma {:induction false} OneMoreNext(first: Path, n: nat, steplen: nat)
    requires steplen > 0 && IsPath(first) && n >= 2 && IncPath(first, steplen).Ok?
    ensures RebuildPathsAsWritten(first, n, steplen).Ok? <==> RebuildPaths(first, n + 1, steplen).Ok?
    ensures RebuildPathsAsWritten(first, n, steplen).Err? ==> RebuildPathsAsWritten(first, n, steplen).error == PathOverflow
    decreases n, 0
  {
    var next := IncPath(first, steplen).value;
    RunStepAsWritten(first, n, steplen);
    RunStep(first, n + 1, steplen);
    AsWrittenNeedsOneMore(next, n - 1, steplen);
    OneMoreStep(RebuildPathsAsWritten(first, n, steplen), RebuildPathsAsWritten(next, n - 1, steplen),
                RebuildPaths(first, n + 1, steplen), RebuildPaths(next, n, steplen));
  }

  /** When the first increment overflows, both runs fail, with PathOverflow. */
  lemma OneMoreOverflow(first: Path, n: nat, steplen: nat)
    requires steplen > 0 && IsPath(first) && n >= 1 && IncPath(first, steplen).Err?
    ensures RebuildPathsAsWritten(first, n, steplen) == Err(PathOverflow) && RebuildPaths(first, n + 1, steplen).Err?
  {
    RunStepAsWritten(first, n, steplen);
    RunStep(first, n + 1, steplen);
    IncPathError(first, steplen);
  }

  /** The inductive step of AsWrittenNeedsOneMore, on the four runs involved. */
  lemma OneMoreStep(aw: Result<seq<Path>>, aw': Result<seq<Path>>, rp: Result<seq<Path>>, rp': Result<seq<Path>>)
    requires (aw.Ok? <==> aw'.Ok?) && (aw.Err? ==> aw == aw') && (rp.Ok? <==> rp'.Ok?)
    requires (aw'.Ok? <==> rp'.Ok?) && (aw'.Err? ==> aw'.error == PathOverflow)
    ensures (aw.Ok? <==> rp.Ok?) && (aw.Err? ==> aw.error == PathOverflow)
  {
  }

  /** As written, the run from slot k succeeds only while k + n stays below the number of slots. */
  ghost predicate FitsAsWritten(run: Result<seq<Path>>, k: nat, n: nat, steplen: nat) {
    && (run.Ok? <==> n == 0 || k + n < Pow(Radix, steplen))
    && (run.Err? ==> run.error == PathOverflow)
  }

  /** As written, n children from slot k fit only when k + n stays below the number of slots. */
  lemma {:induction false} RebuildPathsAsWrittenSlots(pp: Path, k: nat, n: nat, steplen: nat)
    requires steplen > 0 && IsPath(pp) && k < Pow(Radix, steplen)
    ensures IsPath(Slot(pp, k, steplen))
    ensures FitsAsWritten(RebuildPathsAsWritten(Slot(pp, k, steplen), n, steplen), k, n, steplen)
  {
    RebuildPathsSlots(pp, k, n + 1, steplen);
    AsWrittenNeedsOneMore(Slot(pp, k, steplen), n, steplen);
  }

  /**
   * With steplen 1 a node has room for 36 children. As written, rebuilding
   * a node that has exactly 36 fails with PathOverflow; corrected, they get
   * the slots "0" to "Z", and only a 37th child overflows.
   */
  lemma RebuildFullNodeExample(steplen: nat, n: nat)
    requires steplen == 1 && n == 36
    ensures RebuildPathsAsWritten(Zeros(steplen), n, steplen) == Err(PathOverflow)
    ensures RebuildPaths(Zeros(steplen), n, steplen).Ok?
    ensures |RebuildPaths(Zeros(steplen), n, steplen).value| == n
    ensures RebuildPaths(Zeros(steplen), n, steplen).value[n - 1] == ['Z']
    ensures RebuildPaths(Zeros(steplen), n + 1, steplen) == Err(PathOverflow)
  {
    assert Pow(Radix, steplen) == n;
    FirstSlot([], steplen);
    assert Slot([], 0, steplen) == Zeros(steplen);
    RebuildPathsAsWrittenSlots([], 0, n, steplen);
    RebuildPathsSlots([], 0, n, steplen);
    RebuildPathsSlots([], 0, n + 1, steplen);
    assert Encode(n - 1, steplen) == ['Z'];
  }

  /** Keys are unique in a keyed table: equal keys mean the same position. */
  lemma KeyedUnique(rows: seq<Row>, a: nat, b: nat)
    requires Keyed(rows) && a < |rows| && b < |rows| && rows[a].id == rows[b].id
    ensures a == b
  {
  }

  /** A table with the same keys as a keyed one is keyed. */
  lemma KeyedAcross(a: seq<Row>, b: seq<Row>)
    requires Keyed(a) && SameKeys(a, b)
    ensures Keyed(b)
  {
  }

  /**
   * The positions of the rows the recursion of _do_rebuild_subtree is inside:
   * a root, then a child of it, and so on, no position twice.
   */
  ghost predicate AncestorChain(rows: seq<Row>, chain: seq<nat>) {
    && |chain| > 0
    && (forall k :: 0 <= k < |chain| ==> chain[k] < |rows|)
    && rows[chain[0]].parentId == None
    && (forall k :: 0 < k < |chain| ==> rows[chain[k]].parentId == Some(rows[chain[k - 1]].id))
    && (forall a, b :: 0 <= a < b < |chain| ==> chain[a] != chain[b])
  }

  /** The set of the positions in a chain. */
  ghost function Members(chain: seq<nat>): (m: set<nat>)
    ensures forall i :: i in m <==> i in chain
  {
    set i | i in chain
  }

  /** All the positions of a table of n rows. */
  ghost function Positions(n: nat): (m: set<nat>)
    ensures forall i: nat :: i in m <==> i < n
  {
    if n == 0 then {} else Positions(n - 1) + {n - 1}
  }

  /**
   * Every position in touched is a row with a parent, and that parent is
   * rootId or another row of touched: the rows reachable below rootId.
   */
  ghost predicate Hangs(rows: seq<Row>, touched: set<nat>, rootId: int) {
    forall i :: i in touched ==>
      && i < |rows|
      && rows[i].parentId.Some?
      && (rows[i].parentId.value == rootId
          || exists k :: k in touched && k < |rows| && rows[k].id == rows[i].parentId.value)
  }

  /** The row sits in tree treeId at path and depth. */
  ghost predicate Located(r: Row, treeId: int, path: Path, depth: int) {
    r.treeId == treeId && r.path == path && r.depth == depth
  }

  /**
   * The rows touched hang below rootId and none of them is in the chain of
   * rows the recursion is inside.
   */
  ghost predicate Below(rows: seq<Row>, touched: set<nat>, rootId: int, chain: seq<nat>) {
    Hangs(rows, touched, rootId) && forall i :: i in touched ==> i !in chain
  }

  /** The children at positions kids sit, in order, at the paths of run, in tree treeId at depth. */
  ghost predicate Arranged(rows: seq<Row>, kids: seq<nat>, treeId: int, run: Result<seq<Path>>, depth: int) {
    && run.Ok? && |run.value| == |kids|
    && forall j :: 0 <= j < |kids| ==> kids[j] < |rows| && Located(rows[kids[j]], treeId, run.value[j], depth)
  }

  /** A child of the chain's last row is not in the chain, and extends it. */
  lemma ChainExtend(rows: seq<Row>, chain: seq<nat>, c: nat)
    requires Keyed(rows) && AncestorChain(rows, chain)
    requires c < |rows| && rows[c].parentId == Some(rows[chain[|chain| - 1]].id)
    ensures c !in chain && AncestorChain(rows, chain + [c])
  {
    var n := |chain|;
    forall k | 0 <= k < n ensures chain[k] != c {
      if k == 0 {
        assert rows[chain[0]].parentId == None;
      } else if chain[k] == c {
        KeyedUnique(rows, chain[k - 1], chain[n - 1]);
      }
    }
    var ext := chain + [c];
    assert forall k :: 0 <= k < n ==> ext[k] == chain[k];
    assert ext[n] == c;
  }

  /**
   * What the recursion below child c touched leaves every sibling of c alone:
   * a sibling's parent is the chain's last row, which is not in touched.
   */
  lemma SiblingUntouched(rows: seq<Row>, chain: seq<nat>, c: nat, touched: set<nat>, s: nat)
    requires Keyed(rows) && AncestorChain(rows, chain) && c < |rows| && c !in chain
    requires Hangs(rows, touched, rows[c].id)
    requires forall i :: i in touched ==> i !in chain
    requires s < |rows| && rows[s].parentId == Some(rows[chain[|chain| - 1]].id)
    ensures s !in touched
  {
    var last := chain[|chain| - 1];
    if s in touched {
      if rows[s].parentId.value == rows[c].id {
        KeyedUnique(rows, last, c);
        assert false;
      } else {
        var k :| k in touched && k < |rows| && rows[k].id == rows[s].parentId.value;
        KeyedUnique(rows, k, last);
        assert false;
      }
    }
  }

  /**
   * What the recursion below another root touched leaves a root e and its
   * children alone: every touched row has a parent, and e has none.
   */
  lemma OtherTreeUntouched(rows: seq<Row>, touched: set<nat>, rootId: int, e: nat)
    requires Keyed(rows) && Hangs(rows, touched, rootId)
    requires e < |rows| && rows[e].parentId == None && rows[e].id != rootId
    ensures e !in touched
    ensures forall s :: 0 <= s < |rows| && rows[s].parentId == Some(rows[e].id) ==> s !in touched
  {
    forall s | 0 <= s < |rows| && rows[s].parentId == Some(rows[e].id) ensures s !in touched {
      if s in touched {
        var k :| k in touched && k < |rows| && rows[k].id == rows[s].parentId.value;
        KeyedUnique(rows, k, e);
      }
    }
  }

  /**
   * After the recursion below child c: the touched set grows by c and what
   * it touched, still below the chain's last row, and no sibling of c was
   * touched below it.
   */
  lemma Gather(rows: seq<Row>, chain: seq<nat>, c: nat, below: set<nat>, touched: set<nat>, kids: seq<nat>)
    requires Keyed(rows) && AncestorChain(rows, chain) && c < |rows| && c !in chain
    requires rows[c].parentId == Some(rows[chain[|chain| - 1]].id)
    requires Below(rows, below, rows[c].id, chain + [c])
    requires Below(rows, touched, rows[chain[|chain| - 1]].id, chain)
    requires forall j :: 0 <= j < |kids| ==> kids[j] < |rows| && rows[kids[j]].parentId == Some(rows[chain[|chain| - 1]].id)
    ensures Below(rows, touched + {c} + below, rows[chain[|chain| - 1]].id, chain)
    ensures forall j :: 0 <= j < |kids| ==> kids[j] !in below
  {
    var all := touched + {c} + below;
    forall i | i in below ensures i !in chain {
      assert i !in chain + [c];
    }
    forall i | i in all
      ensures rows[i].parentId.value == rows[chain[|chain| - 1]].id
        || exists k :: k in all && k < |rows| && rows[k].id == rows[i].parentId.value
    {
      if i in below && rows[i].parentId.value == rows[c].id {
        assert c in all;
      } else if i in below {
        var k :| k in below && k < |rows| && rows[k].id == rows[i].parentId.value;
        assert k in all;
      } else if i in touched && rows[i].parentId.value != rows[chain[|chain| - 1]].id {
        var k :| k in touched && k < |rows| && rows[k].id == rows[i].parentId.value;
        assert k in all;
      }
    }
    forall j | 0 <= j < |kids| ensures kids[j] !in below {
      SiblingUntouched(rows, chain, c, below, kids[j]);
    }
  }

  /** Extending the chain by a position not yet in it leaves fewer positions outside it. */
  lemma {:induction false} ChainGrows(n: nat, chain: seq<nat>, c: nat)
    requires c < n && c !in chain
    ensures Positions(n) - Members(chain + [c]) < Positions(n) - Members(chain)
  {
    assert Members(chain + [c]) == Members(chain) + {c};
    assert c in Positions(n) - Members(chain);
  }

  /**
   * The state of a rebuild below rootId: the keys are those of orig, the
   * rows touched hang below rootId outside the chain, and every other row is
   * as it was in before.
   */
  ghost predicate Rebuilt(orig: seq<Row>, before: seq<Row>, after: seq<Row>, touched: set<nat>, rootId: int, chain: seq<nat>) {
    && SameKeys(orig, after) && |before| == |after|
    && Below(orig, touched, rootId, chain)
    && forall i :: 0 <= i < |after| && i !in touched ==> after[i] == before[i]
  }

  /** The first j children sit in the slots 0 .. j - 1 below pp. */
  ghost predicate PlacedUpTo(rows: seq<Row>, kids: seq<nat>, pp: Path, treeId: int, depth: int, j: nat, steplen: nat) {
    && j <= |kids|
    && forall k :: 0 <= k < j ==> kids[k] < |rows| && Located(rows[kids[k]], treeId, Slot(pp, k, steplen), depth)
  }

  /** One turn of the loop of _do_rebuild_subtree keeps both. */
  lemma {:induction false} RebuildStep(orig: seq<Row>, rows0: seq<Row>, before: seq<Row>, after: seq<Row>, kids: seq<nat>,
                    touched: set<nat>, below: set<nat>, rootId: int, chain: seq<nat>,
                    pp: Path, treeId: int, depth: int, j: nat, steplen: nat)
    requires Keyed(orig) && AncestorChain(orig, chain) && orig[chain[|chain| - 1]].id == rootId
    requires kids == WithParent(orig, Some(rootId)) && j < |kids|
    requires Rebuilt(orig, rows0, before, touched, rootId, chain)
    requires PlacedUpTo(before, kids, pp, treeId, depth, j, steplen)
    requires SameKeys(orig, after) && kids[j] !in chain && Below(orig, below, orig[kids[j]].id, chain + [kids[j]])
    requires forall i :: 0 <= i < |after| && i != kids[j] && i !in below ==> after[i] == before[i]
    requires Located(after[kids[j]], treeId, Slot(pp, j, steplen), depth)
    ensures Rebuilt(orig, rows0, after, touched + {kids[j]} + below, rootId, chain)
    ensures PlacedUpTo(after, kids, pp, treeId, depth, j + 1, steplen)
  {
    RebuildStepKeeps(orig, rows0, before, after, kids, touched, below, rootId, chain, pp, treeId, depth, j, steplen);
    Gather(orig, chain, kids[j], below, touched, kids);
    PlacedStep(before, after, kids, below, pp, treeId, depth, j, steplen);
  }

  lemma {:induction false} RebuildStepKeeps(orig: seq<Row>, rows0: seq<Row>, before: seq<Row>, after: seq<Row>, kids: seq<nat>,
                    touched: set<nat>, below: set<nat>, rootId: int, chain: seq<nat>,
                    pp: Path, treeId: int, depth: int, j: nat, steplen: nat)
    requires Keyed(orig) && AncestorChain(orig, chain) && orig[chain[|chain| - 1]].id == rootId
    requires kids == WithParent(orig, Some(rootId)) && j < |kids|
    requires Rebuilt(orig, rows0, before, touched, rootId, chain)
    requires PlacedUpTo(before, kids, pp, treeId, depth, j, steplen)
    requires SameKeys(orig, after) && kids[j] !in chain && Below(orig, below, orig[kids[j]].id, chain + [kids[j]])
    requires forall i :: 0 <= i < |after| && i != kids[j] && i !in below ==> after[i] == before[i]
    requires Located(after[kids[j]], treeId, Slot(pp, j, steplen), depth)
    ensures Rebuilt(orig, rows0, after, touched + {kids[j]} + below, rootId, chain)
  {
    var all := touched + {kids[j]} + below;
    Gather(orig, chain, kids[j], below, touched, kids);
    assert |after| == |before|;
    forall i | 0 <= i < |after| && i !in all ensures after[i] == rows0[i] {
    }
  }

  /** Placing child j, and touching only it and rows that are not children, keeps the first j placed. */
  lemma {:induction false} PlacedStep(before: seq<Row>, after: seq<Row>, kids: seq<nat>, below: set<nat>,
                                      pp: Path, treeId: int, depth: int, j: nat, steplen: nat)
    requires PlacedUpTo(before, kids, pp, treeId, depth, j, steplen) && j < |kids| && |after| == |before|
    requires forall k, l :: 0 <= k < l < |kids| ==> kids[k] < kids[l]
    requires forall k :: 0 <= k < |kids| ==> kids[k] !in below
    requires forall i :: 0 <= i < |after| && i != kids[j] && i !in below ==> after[i] == before[i]
    requires kids[j] < |after| && Located(after[kids[j]], treeId, Slot(pp, j, steplen), depth)
    ensures PlacedUpTo(after, kids, pp, treeId, depth, j + 1, steplen)
  {
    forall k | 0 <= k < j ensures after[kids[k]] == before[kids[k]] {
      assert kids[k] < kids[j];
    }
  }

  /** Once all the children are placed, and they fit, the corrected run places them. */
  lemma {:induction false} RebuildDone(rows: seq<Row>, kids: seq<nat>, pp: Path, treeId: int, depth: int, steplen: nat)
    requires steplen > 0 && IsPath(pp) && |kids| <= Pow(Radix, steplen)
    requires PlacedUpTo(rows, kids, pp, treeId, depth, |kids|, steplen)
    ensures Arranged(rows, kids, treeId, RebuildPaths(pp + Zeros(steplen), |kids|, steplen), depth)
  {
    FirstSlot(pp, steplen);
    if |kids| > 0 {
      RebuildPathsSlots(pp, 0, |kids|, steplen);
    } else {
      SlotIsPath(pp, 0, steplen);
    }
  }

  /**
   * What rebuild_all_trees leaves for the root at position r, numbered
   * treeId: the root at the empty path, depth 0, in tree treeId, and its
   * children, in primary-key order, at the corrected run of first-level
   * paths, depth 1, in the same tree.
   */
  ghost predicate RootRebuilt(orig: seq<Row>, rows: seq<Row>, r: nat, treeId: int, steplen: nat) {
    && steplen > 0 && r < |orig| && r < |rows|
    && Located(rows[r], treeId, [], 0)
    && var kids := WithParent(orig, Some(orig[r].id));
       Arranged(rows, kids, treeId, RebuildPaths([] + Zeros(steplen), |kids|, steplen), 1)
  }

  /** A root selected by rebuild_all_trees starts an ancestor chain of its own. */
  lemma RootChain(orig: seq<Row>, rows: seq<Row>, roots: seq<nat>, k: nat)
    requires SameKeys(orig, rows) && roots == WithParent(orig, None) && k < |roots|
    ensures roots[k] < |rows| && AncestorChain(orig, [roots[k]]) && orig[roots[k]].id == rows[roots[k]].id
  {
  }

  /** One turn of the loop of rebuild_all_trees keeps the trees numbered before it. */
  lemma {:induction false} AllTreesStep(orig: seq<Row>, before: seq<Row>, mid: seq<Row>, after: seq<Row>, roots: seq<nat>,
                     k: nat, touched: set<nat>, steplen: nat)
    requires steplen > 0 && Keyed(orig) && roots == WithParent(orig, None) && k < |roots|
    requires SameKeys(orig, before) && forall l :: 0 <= l < k ==> RootRebuilt(orig, before, roots[l], l + 1, steplen)
    requires |mid| == |before| && mid[roots[k]] == before[roots[k]].(treeId := k + 1, path := [], depth := 0)
    requires forall i :: 0 <= i < |before| && i != roots[k] ==> mid[i] == before[i]
    requires Rebuilt(orig, mid, after, touched, orig[roots[k]].id, [roots[k]])
    requires var kids := WithParent(orig, Some(orig[roots[k]].id));
      Arranged(after, kids, k + 1, RebuildPaths([] + Zeros(steplen), |kids|, steplen), 1)
    ensures forall l :: 0 <= l < k + 1 ==> RootRebuilt(orig, after, roots[l], l + 1, steplen)
  {
    assert roots[k] !in touched;
    forall l | 0 <= l < k ensures RootRebuilt(orig, after, roots[l], l + 1, steplen) {
      var e := roots[l];
      assert e < roots[k];
      assert orig[e].id < orig[roots[k]].id;
      OtherTreeUntouched(orig, touched, orig[roots[k]].id, e);
      var kids := WithParent(orig, Some(orig[e].id));
      forall j | 0 <= j < |kids| ensures after[kids[j]] == before[kids[j]] {
        assert orig[kids[j]].parentId.Some?;
      }
    }
  }
}
