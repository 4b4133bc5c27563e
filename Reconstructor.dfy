/**
 * The tree reconstructor: _iter_current_next pairs every item of a flat,
 * depth-first sequence with the item after it, and _recursive_iterator,
 * consumed depth first, turns the pairs into a forest, nesting an item under
 * the one before it when is_child says so. tree_recursive_iterator is the
 * same over table rows, with is_child comparing tree and depth.
 */
module Reconstructor {
  import opened Wrappers
  import opened Rows

  /** A node and its children collection, as the iterator yields them. */
  datatype Tree<T> = Node(item: T, children: seq<Tree<T>>)

  /** _iter_current_next: (current, next) for every item, None after the last. */
  function CurrentNext<T>(s: seq<T>): (cn: seq<(T, Option<T>)>)
    ensures |cn| == |s|
    ensures forall i :: 0 <= i < |s| ==> cn[i].0 == s[i]
    ensures Paired(cn)
  {
    if |s| == 0 then []
    else if |s| == 1 then [(s[0], None)]
    else
      var rest := CurrentNext(s[1..]);
      var cn := [(s[0], Some(s[1]))] + rest;
      assert forall i :: 0 < i < |cn| ==> cn[i] == rest[i - 1];
      assert cn[0].1 == Some(cn[1].0);
      cn
  }

  /** Every pair's second item is the first item of the pair after it. */
  ghost predicate Paired<T>(cn: seq<(T, Option<T>)>) {
    forall i :: 0 <= i < |cn| ==>
      (cn[i].1.Some? <==> i + 1 < |cn|) && (i + 1 < |cn| ==> cn[i].1 == Some(cn[i + 1].0))
  }

  /** There is a next item exactly when pair i is not the last, and it is the item of pair i + 1. */
  lemma NextOf<T>(cn: seq<(T, Option<T>)>, i: nat)
    requires Paired(cn) && i < |cn|
    ensures cn[i].1.Some? <==> i + 1 < |cn|
    ensures i + 1 < |cn| ==> cn[i].1 == Some(cn[i + 1].0)
  {
  }

  /** The items of a pair sequence, in order. */
  function Items<T>(cn: seq<(T, Option<T>)>): (s: seq<T>)
    ensures |s| == |cn| && forall i :: 0 <= i < |cn| ==> s[i] == cn[i].0
  {
    seq(|cn|, i requires 0 <= i < |cn| => cn[i].0)
  }

  /** is_parent_of_next: there is a next item and it is a child of node. */
  predicate ParentOf<T>(isChild: (T, T) -> bool, node: T, next: Option<T>) {
    next.Some? && isChild(node, next.value)
  }

  /**
   * step at pair i: yield its current item, with the children generator when
   * the item is the parent of the next one. Returns the tree the consumer
   * sees and the index of the first pair left unconsumed.
   */
  function Step<T>(cn: seq<(T, Option<T>)>, i: nat, isChild: (T, T) -> bool): (r: (Tree<T>, nat))
    requires Paired(cn) && i < |cn|
    ensures i < r.1 <= |cn|
    decreases |cn| - i, 0
  {
    var (current, next) := cn[i];
    if ParentOf(isChild, current, next) then
      NextOf(cn, i);
      var (kids, j) := ChildrenFrom(cn, i + 1, current, isChild);
      (Node(current, kids), j)
    else
      (Node(current, []), i + 1)
  }

  /**
   * children_generator(parent) from pair i on: one step, then another as long
   * as the item after everything consumed so far is a child of parent.
   */
  function ChildrenFrom<T>(cn: seq<(T, Option<T>)>, i: nat, parent: T, isChild: (T, T) -> bool): (r: (seq<Tree<T>>, nat))
    requires Paired(cn) && i < |cn|
    ensures i < r.1 <= |cn| && |r.0| > 0
    decreases |cn| - i, 1
  {
    var (t, j) := Step(cn, i, isChild);
    if ParentOf(isChild, parent, cn[j - 1].1) then
      NextOf(cn, j - 1);
      var (rest, k) := ChildrenFrom(cn, j, parent, isChild);
      ([t] + rest, k)
    else
      ([t], j)
  }

  /** The outer loop of _recursive_iterator: steps until the pairs run out. */
  function TopFrom<T>(cn: seq<(T, Option<T>)>, i: nat, isChild: (T, T) -> bool): seq<Tree<T>>
    requires Paired(cn) && i <= |cn|
    decreases |cn| - i
  {
    if i == |cn| then []
    else
      var (t, j) := Step(cn, i, isChild);
      [t] + TopFrom(cn, j, isChild)
  }

  /** _recursive_iterator, fully consumed depth first. */
  function RecursiveIterator<T>(s: seq<T>, isChild: (T, T) -> bool): seq<Tree<T>> {
    TopFrom(CurrentNext(s), 0, isChild)
  }

  /** is_child of tree_recursive_iterator: same tree, one level deeper. */
  predicate IsChildRow(parent: Row, child: Row) {
    parent.treeId == child.treeId && child.depth == parent.depth + 1
  }

  /** tree_recursive_iterator over a flat sequence of rows. */
  function TreeRecursiveIterator(flat: seq<Row>): seq<Tree<Row>> {
    RecursiveIterator(flat, IsChildRow)
  }

  /** The items of a tree in preorder: the node, then its children's trees. */
  function Flatten<T>(t: Tree<T>): seq<T>
    decreases t, 1
  {
    [t.item] + FlattenAll(t.children)
  }

  function FlattenAll<T>(ts: seq<Tree<T>>): seq<T>
    decreases ts, 0
  {
    if ts == [] then [] else Flatten(ts[0]) + FlattenAll(ts[1..])
  }

  /** Every parent-child edge of the tree satisfies isChild. */
  ghost predicate EdgesOk<T>(t: Tree<T>, isChild: (T, T) -> bool)
    decreases t
  {
    forall k :: 0 <= k < |t.children| ==>
      isChild(t.item, t.children[k].item) && EdgesOk(t.children[k], isChild)
  }

  lemma {:induction false} FlattenAllAppend<T>(a: seq<Tree<T>>, b: seq<Tree<T>>)
    ensures FlattenAll(a + b) == FlattenAll(a) + FlattenAll(b)
  {
    if a == [] {
      assert a + b == b;
    } else {
      assert (a + b)[1..] == a[1..] + b;
      FlattenAllAppend(a[1..], b);
    }
  }

  /**
   * The tree step builds from pair i holds exactly the items of the pairs it
   * consumed, in order; its edges satisfy isChild; it has children exactly
   * when the next item is a child of the item at i, the first of them being
   * that next item; and the item after the last one consumed, if any, is not
   * a child of the item at i.
   */
  lemma {:induction false} StepSpec<T>(cn: seq<(T, Option<T>)>, i: nat, isChild: (T, T) -> bool)
    requires Paired(cn) && i < |cn|
    ensures var (t, j) := Step(cn, i, isChild);
      && Flatten(t) == Items(cn)[i..j]
      && t.item == cn[i].0
      && EdgesOk(t, isChild)
      && (t.children != [] <==> i + 1 < |cn| && isChild(cn[i].0, cn[i + 1].0))
      && (t.children != [] ==> t.children[0].item == cn[i + 1].0)
      && (j == |cn| || !isChild(cn[i].0, cn[j].0))
    decreases |cn| - i, 0
  {
    var (t, j) := Step(cn, i, isChild);
    var (current, next) := cn[i];
    if ParentOf(isChild, current, next) {
      ChildrenSpec(cn, i + 1, current, isChild);
      var (kids, k) := ChildrenFrom(cn, i + 1, current, isChild);
      assert t == Node(current, kids) && j == k;
      assert Items(cn)[i..j] == [cn[i].0] + Items(cn)[i + 1..j];
    } else {
      assert Items(cn)[i..j] == [cn[i].0];
      assert FlattenAll(t.children) == [];
    }
  }

  /**
   * The children generator from pair i consumes the pairs i .. j - 1, and the
   * trees it yields hold exactly their items; each of them is a child of
   * parent, built by step, and the first is the item at i; it stops at the
   * end of the pairs or at an item that is not a child of parent.
   */
  lemma {:induction false} ChildrenSpec<T>(cn: seq<(T, Option<T>)>, i: nat, parent: T, isChild: (T, T) -> bool)
    requires Paired(cn) && i < |cn| && isChild(parent, cn[i].0)
    ensures var (kids, j) := ChildrenFrom(cn, i, parent, isChild);
      && FlattenAll(kids) == Items(cn)[i..j]
      && kids[0].item == cn[i].0
      && (forall k :: 0 <= k < |kids| ==> isChild(parent, kids[k].item) && EdgesOk(kids[k], isChild))
      && (j == |cn| || !isChild(parent, cn[j].0))
    decreases |cn| - i, 1
  {
    var (kids, j) := ChildrenFrom(cn, i, parent, isChild);
    var (t, m) := Step(cn, i, isChild);
    StepSpec(cn, i, isChild);
    if ParentOf(isChild, parent, cn[m - 1].1) {
      assert m < |cn| && cn[m - 1].1 == Some(cn[m].0);
      ChildrenSpec(cn, m, parent, isChild);
      var (rest, k) := ChildrenFrom(cn, m, parent, isChild);
      assert kids == [t] + rest && j == k;
      SiblingsCons(t, rest, parent, isChild);
      ItemsSplit(cn, i, m, j);
    } else {
      assert kids == [t] && j == m;
      assert FlattenAll(kids) == Flatten(t) by {
        assert kids[1..] == [];
      }
    }
  }

  /** The items of pairs i .. j - 1 are those of i .. m - 1 followed by those of m .. j - 1. */
  lemma ItemsSplit<T>(cn: seq<(T, Option<T>)>, i: nat, m: nat, j: nat)
    requires i <= m <= j <= |cn|
    ensures Items(cn)[i..j] == Items(cn)[i..m] + Items(cn)[m..j]
  {
  }

  /** A tree put in front of its siblings: the items and the edges of both, in order. */
  lemma {:induction false} SiblingsCons<T>(t: Tree<T>, rest: seq<Tree<T>>, parent: T, isChild: (T, T) -> bool)
    requires isChild(parent, t.item) && EdgesOk(t, isChild)
    requires forall k :: 0 <= k < |rest| ==> isChild(parent, rest[k].item) && EdgesOk(rest[k], isChild)
    ensures FlattenAll([t] + rest) == Flatten(t) + FlattenAll(rest)
    ensures forall q :: 0 <= q < |[t] + rest| ==> isChild(parent, ([t] + rest)[q].item) && EdgesOk(([t] + rest)[q], isChild)
  {
    var kids := [t] + rest;
    assert kids[1..] == rest;
    forall q | 0 <= q < |kids| ensures isChild(parent, kids[q].item) && EdgesOk(kids[q], isChild) {
      if q > 0 {
        assert kids[q] == rest[q - 1];
      }
    }
  }

  /** The outer loop from pair i yields trees holding exactly the items from i on. */
  lemma {:induction false} TopSpec<T>(cn: seq<(T, Option<T>)>, i: nat, isChild: (T, T) -> bool)
    requires Paired(cn) && i <= |cn|
    ensures FlattenAll(TopFrom(cn, i, isChild)) == Items(cn)[i..]
    ensures forall k :: 0 <= k < |TopFrom(cn, i, isChild)| ==> EdgesOk(TopFrom(cn, i, isChild)[k], isChild)
    decreases |cn| - i
  {
    if i < |cn| {
      var (t, j) := Step(cn, i, isChild);
      StepSpec(cn, i, isChild);
      TopSpec(cn, j, isChild);
      var ts := TopFrom(cn, i, isChild);
      assert ts == [t] + TopFrom(cn, j, isChild);
      assert ts[1..] == TopFrom(cn, j, isChild);
      assert Items(cn)[i..] == Items(cn)[i..j] + Items(cn)[j..];
      forall k | 0 <= k < |ts| ensures EdgesOk(ts[k], isChild) {
        if k > 0 {
          assert ts[k] == TopFrom(cn, j, isChild)[k - 1];
        }
      }
    }
  }

  /** The subtrees of a tree in preorder: the tree, then its children's subtrees. */
  function Subtrees<T>(t: Tree<T>): seq<Tree<T>>
    decreases t, 1
  {
    [t] + SubtreesAll(t.children)
  }

  function SubtreesAll<T>(ts: seq<Tree<T>>): seq<Tree<T>>
    decreases ts, 0
  {
    if ts == [] then [] else Subtrees(ts[0]) + SubtreesAll(ts[1..])
  }

  /**
   * The subtree yielded for item k of s: it holds s[k], then the items up to
   * its end; the item after its end, if any, is not a child of s[k]; it has
   * children exactly when s[k + 1] is a child of s[k], the first of them
   * being s[k + 1].
   */
  ghost predicate Nests<T>(t: Tree<T>, s: seq<T>, k: nat, isChild: (T, T) -> bool) {
    var end := k + |Flatten(t)|;
    && k < end <= |s| && Flatten(t) == s[k..end] && t.item == s[k]
    && (end == |s| || !isChild(s[k], s[end]))
    && (t.children != [] <==> k + 1 < |s| && isChild(s[k], s[k + 1]))
    && (t.children != [] ==> t.children[0].item == s[k + 1])
  }

  lemma {:induction false} SubtreesAllAppend<T>(a: seq<Tree<T>>, b: seq<Tree<T>>)
    ensures SubtreesAll(a + b) == SubtreesAll(a) + SubtreesAll(b)
  {
    if a == [] {
      assert a + b == b;
    } else {
      assert (a + b)[1..] == a[1..] + b;
      SubtreesAllAppend(a[1..], b);
    }
  }

  /** The subtrees of the tree step builds from pair i are the trees step builds from each pair it consumed. */
  lemma {:induction false} StepSubtrees<T>(cn: seq<(T, Option<T>)>, i: nat, isChild: (T, T) -> bool)
    requires Paired(cn) && i < |cn|
    ensures var (t, j) := Step(cn, i, isChild);
      && |Subtrees(t)| == j - i
      && forall k :: i <= k < j ==> Subtrees(t)[k - i] == Step(cn, k, isChild).0
    decreases |cn| - i, 0
  {
    var (t, j) := Step(cn, i, isChild);
    var (current, next) := cn[i];
    if ParentOf(isChild, current, next) {
      ChildrenSubtrees(cn, i + 1, current, isChild);
    } else {
      assert SubtreesAll(t.children) == [];
    }
  }

  /** The same for the children generator from pair i. */
  lemma {:induction false} ChildrenSubtrees<T>(cn: seq<(T, Option<T>)>, i: nat, parent: T, isChild: (T, T) -> bool)
    requires Paired(cn) && i < |cn|
    ensures var (kids, j) := ChildrenFrom(cn, i, parent, isChild);
      && |SubtreesAll(kids)| == j - i
      && forall k :: i <= k < j ==> SubtreesAll(kids)[k - i] == Step(cn, k, isChild).0
    decreases |cn| - i, 1
  {
    var (kids, j) := ChildrenFrom(cn, i, parent, isChild);
    var (t, m) := Step(cn, i, isChild);
    StepSubtrees(cn, i, isChild);
    if ParentOf(isChild, parent, cn[m - 1].1) {
      NextOf(cn, m - 1);
      ChildrenSubtrees(cn, m, parent, isChild);
      var (rest, q) := ChildrenFrom(cn, m, parent, isChild);
      assert kids == [t] + rest && j == q;
      SubtreesAllAppend([t], rest);
      assert SubtreesAll([t]) == Subtrees(t) by {
        assert [t][1..] == [];
      }
    } else {
      assert kids == [t] && j == m;
      assert SubtreesAll(kids) == Subtrees(t) by {
        assert kids[1..] == [];
      }
    }
  }

  /** The same for the outer loop from pair i: one subtree per pair left. */
  lemma {:induction false} TopSubtrees<T>(cn: seq<(T, Option<T>)>, i: nat, isChild: (T, T) -> bool)
    requires Paired(cn) && i <= |cn|
    ensures |SubtreesAll(TopFrom(cn, i, isChild))| == |cn| - i
    ensures forall k :: i <= k < |cn| ==> SubtreesAll(TopFrom(cn, i, isChild))[k - i] == Step(cn, k, isChild).0
    decreases |cn| - i
  {
    if i < |cn| {
      var (t, j) := Step(cn, i, isChild);
      StepSubtrees(cn, i, isChild);
      TopSubtrees(cn, j, isChild);
      var ts := TopFrom(cn, i, isChild);
      assert ts == [t] + TopFrom(cn, j, isChild);
      assert ts[1..] == TopFrom(cn, j, isChild);
    }
  }

  /** The tree step builds from pair k nests item k as Nests says. */
  lemma StepNests<T>(cn: seq<(T, Option<T>)>, k: nat, isChild: (T, T) -> bool)
    requires Paired(cn) && k < |cn|
    ensures Nests(Step(cn, k, isChild).0, Items(cn), k, isChild)
  {
    StepSpec(cn, k, isChild);
    var (t, j) := Step(cn, k, isChild);
    assert |Flatten(t)| == j - k;
  }

  /**
   * The forest _recursive_iterator yields holds every input item exactly
   * once, in input order (its preorder is the input), and nests an item
   * under another only where isChild holds; the subtree of item k, the k-th
   * in preorder, nests as Nests says: item k + 1 is its first child exactly
   * when it is a child of item k, and the subtree ends at an item that is
   * not a child of item k.
   */
  lemma RecursiveIteratorSpec<T>(s: seq<T>, isChild: (T, T) -> bool)
    ensures FlattenAll(RecursiveIterator(s, isChild)) == s
    ensures forall k :: 0 <= k < |RecursiveIterator(s, isChild)| ==> EdgesOk(RecursiveIterator(s, isChild)[k], isChild)
    ensures |SubtreesAll(RecursiveIterator(s, isChild))| == |s|
    ensures forall k :: 0 <= k < |s| ==> Nests(SubtreesAll(RecursiveIterator(s, isChild))[k], s, k, isChild)
  {
    var cn := CurrentNext(s);
    TopSpec(cn, 0, isChild);
    assert Items(cn)[0..] == s;
    TopSubtrees(cn, 0, isChild);
    assert Items(cn) == s;
    forall k | 0 <= k < |s| ensures Nests(SubtreesAll(RecursiveIterator(s, isChild))[k], s, k, isChild) {
      StepNests(cn, k, isChild);
    }
  }

  /**
   * Adjacent items: the first tree holds the first item, and it has children
   * exactly when the second item is its child, the first child being the
   * second item.
   */
  lemma RecursiveIteratorFirst<T>(s: seq<T>, isChild: (T, T) -> bool)
    requires |s| > 0
    ensures var f := RecursiveIterator(s, isChild);
      && |f| > 0 && f[0].item == s[0]
      && (f[0].children != [] <==> |s| > 1 && isChild(s[0], s[1]))
      && (f[0].children != [] ==> f[0].children[0].item == s[1])
  {
    var cn := CurrentNext(s);
    StepSpec(cn, 0, isChild);
  }

  /**
   * tree_recursive_iterator yields every row once, in order, and nests a row
   * only under a row of the same tree one level up; row k + 1 is the first
   * child of row k exactly when it is one level deeper in the same tree,
   * and the subtree of row k ends at a row that is not.
   */
  lemma TreeRecursiveIteratorSpec(flat: seq<Row>)
    ensures FlattenAll(TreeRecursiveIterator(flat)) == flat
    ensures forall k :: 0 <= k < |TreeRecursiveIterator(flat)| ==> EdgesOk(TreeRecursiveIterator(flat)[k], IsChildRow)
    ensures |SubtreesAll(TreeRecursiveIterator(flat))| == |flat|
    ensures forall k :: 0 <= k < |flat| ==> Nests(SubtreesAll(TreeRecursiveIterator(flat))[k], flat, k, IsChildRow)
  {
    RecursiveIteratorSpec(flat, IsChildRow);
  }

  /** is_child of the documented example: a later letter is a child of an earlier one. */
  predicate LetterChild(parent: char, child: char) {
    child > parent
  }

  /**
   * The documented example: 'ABCABB' nests into A(B(C)) and A(B, B); the
   * empty sequence gives no trees and a single item one leaf.
   */
  lemma RecursiveIteratorExample()
    ensures RecursiveIterator("ABCABB", LetterChild)
      == [Node('A', [Node('B', [Node('C', [])])]), Node('A', [Node('B', []), Node('B', [])])]
    ensures RecursiveIterator("", LetterChild) == []
    ensures RecursiveIterator("A", LetterChild) == [Node('A', [])]
  {
    ExamplePairsOf();
    ExampleForest(CurrentNext("ABCABB"));
    var one := CurrentNext("A");
    assert one == [('A', None)];
    assert Step(one, 0, LetterChild) == (Node('A', []), 1);
  }

  /** The pairs of the documented example. */
  const ExamplePairs: seq<(char, Option<char>)> :=
    [('A', Some('B')), ('B', Some('C')), ('C', Some('A')), ('A', Some('B')), ('B', Some('B')), ('B', None)]

  /** The current/next pairs of 'ABCABB'. */
  lemma ExamplePairsOf()
    ensures CurrentNext("ABCABB") == ExamplePairs
  {
    var cn := CurrentNext("ABCABB");
    NextOf(cn, 0); NextOf(cn, 1); NextOf(cn, 2); NextOf(cn, 3); NextOf(cn, 4); NextOf(cn, 5);
  }

  /** The outer loop over the example's pairs yields A(B(C)), then A(B, B). */
  lemma ExampleForest(cn: seq<(char, Option<char>)>)
    requires cn == ExamplePairs
    ensures TopFrom(cn, 0, LetterChild)
      == [Node('A', [Node('B', [Node('C', [])])]), Node('A', [Node('B', []), Node('B', [])])]
  {
    ExampleFirstTree(cn);
    ExampleSecondTree(cn);
    assert TopFrom(cn, 6, LetterChild) == [];
    assert TopFrom(cn, 3, LetterChild) == [Node('A', [Node('B', []), Node('B', [])])];
  }

  /** 'ABC': the first tree of the example is A(B(C)). */
  lemma ExampleFirstTree(cn: seq<(char, Option<char>)>)
    requires cn == ExamplePairs
    ensures Step(cn, 0, LetterChild) == (Node('A', [Node('B', [Node('C', [])])]), 3)
  {
    var c, bc := Node('C', []), Node('B', [Node('C', [])]);
    assert Step(cn, 2, LetterChild) == (c, 3);
    assert ChildrenFrom(cn, 2, 'B', LetterChild) == ([c], 3);
    assert Step(cn, 1, LetterChild) == (bc, 3);
    assert ChildrenFrom(cn, 1, 'A', LetterChild) == ([bc], 3);
  }

  /** 'ABB': the second tree of the example is A(B, B). */
  lemma ExampleSecondTree(cn: seq<(char, Option<char>)>)
    requires cn == ExamplePairs
    ensures Step(cn, 3, LetterChild) == (Node('A', [Node('B', []), Node('B', [])]), 6)
  {
    var b := Node('B', []);
    assert Step(cn, 5, LetterChild) == (b, 6);
    assert ChildrenFrom(cn, 5, 'A', LetterChild) == ([b], 6);
    assert Step(cn, 4, LetterChild) == (b, 5);
    assert ParentOf(LetterChild, 'A', cn[4].1) && [b] + [b] == [b, b];
    assert ChildrenFrom(cn, 4, 'A', LetterChild) == ([b, b], 6);
  }
}
