/** One row of a tree table: the adjacency-list reference plus the three path columns. */
module Rows {
  import opened Wrappers
  import opened PathOrder

  /**
   * id is the primary key, parentId the adjacency-list reference (None for a
   * root), and (treeId, path, depth) the materialized-path columns.
   */
  datatype Row = Row(id: int, parentId: Option<int>, treeId: int, path: Path, depth: int)

  /**
   * The shape every stored row has: its path is made of symbols and holds one
   * steplen-wide segment per level, a root being level 0 with the empty path.
   */
  predicate Shaped(r: Row, steplen: nat) {
    IsPath(r.path) && r.depth >= 0 && |r.path| == r.depth * steplen
  }

  /** The row with primary key id (SELECT ... WHERE pk = id). */
  function Find(rows: seq<Row>, id: int): (found: Option<Row>)
    ensures found.Some? ==> found.value in rows && found.value.id == id
    ensures found.None? <==> forall r :: r in rows ==> r.id != id
  {
    if rows == [] then None
    else if rows[0].id == id then Some(rows[0])
    else Find(rows[1..], id)
  }

  /** SELECT max(tree_id): None on an empty table. */
  function MaxTreeId(rows: seq<Row>): (m: Option<int>)
    ensures m.None? <==> rows == []
    ensures m.Some? ==> (exists r :: r in rows && r.treeId == m.value)
    ensures m.Some? ==> forall r :: r in rows ==> r.treeId <= m.value
  {
    if rows == [] then None
    else
      var rest := MaxTreeId(rows[1..]);
      assert forall r :: r in rows ==> r == rows[0] || r in rows[1..];
      if rest.None? || rest.value < rows[0].treeId then Some(rows[0].treeId) else rest
  }
}
