/**
 * The editor extensions built on the queries: the last child of an entry,
 * the sibling or same-depth cousin of a path, and a recursive walk over a
 * subtree with pre-order or post-order visits and early stops.
 */
module EditorExtensions {
  import opened Wrappers
  import opened Text
  import opened TreeElements
  import opened TreePaths
  import opened TreeNodes
  import opened PathsByLevels
  import opened EditorQueries

  // ----- the last child -----

  /** `getLastChild`: the last child of the entry's node with its path; none for a childless node. */
  function GetLastChild(entry: Entry): (r: Option<Entry>)
    ensures r.None? <==> |entry.node.children| == 0
  {
    var children := entry.node.children;
    if |children| == 0 then None else Some(Entry(children[|children| - 1], entry.path + [|children| - 1]))
  }

  /**
   * On the tree, the last child is a node one level below the entry, and
   * no sibling follows it; a childless entry has no node below it at all.
   */
  lemma LastChildIsLast(root: Node, entry: Entry)
    requires NodeAt(root, entry.path) == Some(entry.node)
    ensures GetLastChild(entry).Some? ==>
      var c := GetLastChild(entry).value;
      NodeAt(root, c.path) == Some(c.node) && IsParent(entry.path, c.path) &&
      NodeAt(root, Next(c.path).value).None?
    ensures GetLastChild(entry).None? ==> forall i :: NodeAt(root, entry.path + [i]).None?
  {
    var n := |entry.node.children|;
    forall i
      ensures NodeAt(root, entry.path + [i]) == Child(entry.node, i)
    {
      NodeAtChild(root, entry.path, i);
    }
    if n > 0 {
      var c := GetLastChild(entry).value;
      assert Next(c.path).value == entry.path + [n];
      assert IsPrefix(entry.path, c.path);
      CompareZero(entry.path, c.path);
    }
  }

  /**
   * `getLastChildPath`: the path of the last child, or the entry's path
   * extended by -1 for a childless node. Either way the last index is the
   * number of children minus one.
   */
  function GetLastChildPath(entry: Entry): (r: Path)
    ensures |r| == |entry.path| + 1 && r[..|entry.path|] == entry.path
    ensures r[|entry.path|] == |entry.node.children| - 1
    ensures GetLastChild(entry).Some? ==> r == GetLastChild(entry).value.path
  {
    var last := GetLastChild(entry);
    if last.None? then entry.path + [-1] else last.value.path
  }

  /** `isLastChild`: the child path equals the last child path of the parent. */
  function IsLastChild(parent: Entry, childPath: Path): (b: bool)
  {
    Equals(GetLastChildPath(parent), childPath)
  }

  /**
   * For a node of the tree, being the last child of `parent` means being
   * a child of it with no following sibling.
   */
  lemma IsLastChildIff(root: Node, parent: Entry, c: Path)
    requires NodeAt(root, parent.path) == Some(parent.node) && NodeAt(root, c).Some?
    ensures IsLastChild(parent, c) <==>
      |c| == |parent.path| + 1 && c[..|parent.path|] == parent.path && NodeAt(root, Next(c).value).None?
  {
    var p := parent.path;
    EqualsIsEquality(GetLastChildPath(parent), c);
    if |c| == |p| + 1 && c[..|p|] == p {
      assert c == p + [c[|p|]];
      assert Next(c).value == p + [c[|p|] + 1];
      NodeAtChild(root, p, c[|p|]);
      NodeAtChild(root, p, c[|p|] + 1);
    }
  }

  // ----- sibling -----

  /** `findIndex` with `equals`: the first index of `target` in `level`, or -1. */
  function LevelIndex(level: seq<Path>, target: Path): (k: int)
    ensures -1 <= k < |level|
    ensures k == -1 <==> target !in level
    ensures k >= 0 ==> level[k] == target && forall j :: 0 <= j < k ==> level[j] != target
  {
    if |level| == 0 then -1
    else
      EqualsIsEquality(level[0], target);
      if Equals(level[0], target) then 0
      else
        var k := LevelIndex(level[1..], target);
        assert forall j :: 1 <= j < |level| ==> level[j] == level[1..][j - 1];
        if k == -1 then -1 else k + 1
  }

  /** The adjacent-index path `sibling` tries first: `previous` under `reverse`, else `next`. */
  function Adjacent(target: Path, reverse: bool): Option<Path>
  {
    if reverse then Previous(target) else Next(target)
  }

  /** There is a node at the adjacent-index path. */
  predicate HasAdjacent(root: Node, target: Path, reverse: bool)
  {
    Adjacent(target, reverse).Some? && NodeAt(root, Adjacent(target, reverse).value).Some?
  }

  /** Paths in strictly increasing lexicographic order. */
  predicate Ascending(ps: seq<Path>)
  {
    forall i, j :: 0 <= i < j < |ps| ==> IsBefore(ps[i], ps[j])
  }

  /** The level of `pathsByLevel` down to the depth of `target`, at that depth: sorted, and every path a node's. */
  lemma TargetLevel(root: Node, target: Path)
    requires |target| < |ByLevel(root, Some(|target|))|
    ensures Ascending(ByLevel(root, Some(|target|))[|target|])
    ensures forall p :: p in ByLevel(root, Some(|target|))[|target|] ==> |p| == |target| && NodeAt(root, p).Some?
    ensures |ByLevel(root, Some(|target|))[|target|]| > 0
  {
    ByLevelLevels(root, Some(|target|), |target|);
    GatherAt(Rows(root), Some(|target|), 0, |target|);
  }

  /**
   * `sibling(editor, target, { reverse })`: the node at the adjacent-index
   * path when there is one; otherwise the neighbour of `target` in the
   * list of paths at its depth (the one before it under `reverse`, the one
   * after it otherwise), from `pathsByLevel` down to that depth. When that
   * depth has no list, reading it throws. As written, the forward case
   * tests only that the index is below the last, so a `target` missing
   * from the list (index -1) yields the first path of the level.
   */
  function Sibling(root: Node, target: Path, reverse: bool): (r: Result<Option<Entry>>)
    ensures HasAdjacent(root, target, reverse) ==>
      var a := Adjacent(target, reverse).value;
      r == Ok(Some(Entry(NodeAt(root, a).value, a)))
    ensures r.Thrown? <==> !HasAdjacent(root, target, reverse) && |target| >= |ByLevel(root, Some(|target|))|
    ensures r.Thrown? ==> r.message == ReadOfMissing("undefined", "findIndex")
    ensures r.Ok? && r.value.Some? ==>
      |r.value.value.path| == |target| && NodeAt(root, r.value.value.path) == Some(r.value.value.node)
  {
    var paths := ByLevel(root, Some(|target|));
    var adjacent := Adjacent(target, reverse);
    if HasAdjacent(root, target, reverse) then
      NodeEntry(root, adjacent.value, None)
    else if |target| >= |paths| then
      Thrown(ReadOfMissing("undefined", "findIndex"))
    else
      var level := paths[|target|];
      var k := LevelIndex(level, target);
      TargetLevel(root, target);
      if (if reverse then k > 0 else k < |level| - 1) then
        var q := level[k + (if reverse then -1 else 1)];
        assert q in level;
        NodeEntry(root, q, None)
      else
        Ok(None)
  }

  /**
   * `sibling` with the guard its comment describes: the neighbour in the
   * level is taken only when `target` was found there.
   */
  function SiblingOfFound(root: Node, target: Path, reverse: bool): (r: Result<Option<Entry>>)
    ensures HasAdjacent(root, target, reverse) ==>
      var a := Adjacent(target, reverse).value;
      r == Ok(Some(Entry(NodeAt(root, a).value, a)))
    ensures r.Thrown? <==> !HasAdjacent(root, target, reverse) && |target| >= |ByLevel(root, Some(|target|))|
    ensures r.Ok? && r.value.Some? ==>
      |r.value.value.path| == |target| && NodeAt(root, r.value.value.path) == Some(r.value.value.node)
  {
    var paths := ByLevel(root, Some(|target|));
    var adjacent := Adjacent(target, reverse);
    if HasAdjacent(root, target, reverse) then
      NodeEntry(root, adjacent.value, None)
    else if |target| >= |paths| then
      Thrown(ReadOfMissing("undefined", "findIndex"))
    else
      var level := paths[|target|];
      var k := LevelIndex(level, target);
      TargetLevel(root, target);
      if k >= 0 && (if reverse then k > 0 else k < |level| - 1) then
        var q := level[k + (if reverse then -1 else 1)];
        assert q in level;
        NodeEntry(root, q, None)
      else
        Ok(None)
  }

  /** In an ascending list, whatever comes after entry `k` is at or after entry `k + 1`. */
  lemma AscendingNext(level: seq<Path>, k: nat, q: Path)
    ensures Ascending(level) && k < |level| && q in level && IsBefore(level[k], q) ==>
      k + 1 < |level| && !IsBefore(q, level[k + 1])
  {
    if Ascending(level) && k < |level| && q in level {
      var j :| 0 <= j < |level| && level[j] == q;
      CompareSwap(level[k], q);
      CompareZero(q, q);
      assert j < k ==> IsBefore(level[j], level[k]);
      if k + 1 < |level| {
        assert j > k + 1 ==> IsBefore(level[k + 1], level[j]);
        CompareSwap(level[k + 1], q);
      }
    }
  }

  /** In an ascending list, whatever comes before entry `k` is at or before entry `k - 1`. */
  lemma AscendingPrevious(level: seq<Path>, k: nat, q: Path)
    ensures Ascending(level) && k < |level| && q in level && IsBefore(q, level[k]) ==>
      k > 0 && !IsBefore(level[k - 1], q)
  {
    if Ascending(level) && k < |level| && q in level {
      var j :| 0 <= j < |level| && level[j] == q;
      CompareSwap(q, level[k]);
      CompareZero(q, q);
      assert k < j ==> IsBefore(level[k], level[j]);
      if k > 0 {
        assert j < k - 1 ==> IsBefore(level[j], level[k - 1]);
        CompareSwap(q, level[k - 1]);
      }
    }
  }

  /**
   * Going forward from a node of the tree, `sibling` finds the cousin:
   * the first path of the same depth after `target` that names a node,
   * and nothing when `target` is the last one at its depth.
   */
  lemma SiblingFindsNextCousin(root: Node, target: Path)
    requires NodeAt(root, target).Some?
    ensures Sibling(root, target, false).Ok?
    ensures Sibling(root, target, false).value.Some? ==> IsBefore(target, Sibling(root, target, false).value.value.path)
    ensures forall q :: |q| == |target| && NodeAt(root, q).Some? && IsBefore(target, q) ==>
      Sibling(root, target, false).value.Some? && !IsBefore(q, Sibling(root, target, false).value.value.path)
  {
    var r := Sibling(root, target, false);
    var maxDepth := Some(|target|);
    ByLevelComplete(root, maxDepth, target);
    if HasAdjacent(root, target, false) {
      NextIsLaterSibling(target);
      forall q | |q| == |target| && NodeAt(root, q).Some? && IsBefore(target, q)
        ensures !IsBefore(q, Next(target).value)
      {
        NothingBetweenNext(target, q);
      }
    } else {
      var level := ByLevel(root, maxDepth)[|target|];
      var k := LevelIndex(level, target);
      TargetLevel(root, target);
      forall q | |q| == |target| && NodeAt(root, q).Some? && IsBefore(target, q)
        ensures k + 1 < |level| && !IsBefore(q, level[k + 1])
      {
        ByLevelComplete(root, maxDepth, q);
        AscendingNext(level, k, q);
      }
    }
  }

  /**
   * Under `reverse`, from a node of the tree, `sibling` finds the last
   * path of the same depth before `target` that names a node, and nothing
   * when `target` is the first one at its depth.
   */
  lemma SiblingFindsPreviousCousin(root: Node, target: Path)
    requires NodeAt(root, target).Some?
    ensures Sibling(root, target, true).Ok?
    ensures Sibling(root, target, true).value.Some? ==> IsBefore(Sibling(root, target, true).value.value.path, target)
    ensures forall q :: |q| == |target| && NodeAt(root, q).Some? && IsBefore(q, target) ==>
      Sibling(root, target, true).value.Some? && !IsBefore(Sibling(root, target, true).value.value.path, q)
  {
    var r := Sibling(root, target, true);
    var maxDepth := Some(|target|);
    ByLevelComplete(root, maxDepth, target);
    if HasAdjacent(root, target, true) {
      var p := Previous(target).value;
      NextPrevious(target);
      NextIsLaterSibling(p);
      forall q | |q| == |target| && NodeAt(root, q).Some? && IsBefore(q, target)
        ensures !IsBefore(p, q)
      {
        if IsBefore(p, q) {
          NothingBetweenNext(p, q);
        }
      }
    } else {
      var level := ByLevel(root, maxDepth)[|target|];
      var k := LevelIndex(level, target);
      TargetLevel(root, target);
      forall q | |q| == |target| && NodeAt(root, q).Some? && IsBefore(q, target)
        ensures k > 0 && !IsBefore(level[k - 1], q)
      {
        ByLevelComplete(root, maxDepth, q);
        AscendingPrevious(level, k, q);
      }
    }
  }

  /**
   * As written, going forward from a path that names no node and has no
   * node after it at its index, `sibling` returns the first node of the
   * path's depth, whenever that depth has any.
   */
  lemma SiblingOfMissingTarget(root: Node, target: Path)
    requires NodeAt(root, target).None? && !HasAdjacent(root, target, false)
    requires |target| < |ByLevel(root, Some(|target|))|
    ensures |ByLevel(root, Some(|target|))[|target|]| > 0
    ensures var first := ByLevel(root, Some(|target|))[|target|][0];
      NodeAt(root, first).Some? && Sibling(root, target, false) == Ok(Some(Entry(NodeAt(root, first).value, first)))
  {
    TargetLevel(root, target);
    var level := ByLevel(root, Some(|target|))[|target|];
    assert level[0] in level;
    assert target !in level;
    assert LevelIndex(level, target) + 1 == 0;
  }

  /** With the guard its comment describes, a path that names no node and has no adjacent node has no sibling. */
  lemma SiblingOfFoundMissingTarget(root: Node, target: Path, reverse: bool)
    requires NodeAt(root, target).None? && !HasAdjacent(root, target, reverse)
    requires |target| < |ByLevel(root, Some(|target|))|
    ensures SiblingOfFound(root, target, reverse) == Ok(None)
  {
    TargetLevel(root, target);
  }

  /** For a node of the tree, the corrected guard changes nothing. */
  lemma SiblingOfFoundAgrees(root: Node, target: Path, reverse: bool)
    requires NodeAt(root, target).Some?
    ensures SiblingOfFound(root, target, reverse) == Sibling(root, target, reverse)
  {
    ByLevelComplete(root, Some(|target|), target);
  }

  // ----- traverseNodes -----

  /** What a walk does: whether it reports a stop, and the consumer calls it makes, in order. */
  datatype Visit = Visit(stopped: bool, calls: seq<Entry>)

  /**
   * `traverseNodes(node, consumer, { order, rootPath })`: in pre-order the
   * node is consumed first, and a true answer ends the walk at once;
   * otherwise each child is walked in turn with its own path, until one
   * reports a stop. In post-order the node is consumed after the children,
   * and its answer is the walk's. A pre-order walk that passes its first
   * call reports no stop.
   */
  function Traversal(node: Node, consumer: (Node, Path) -> bool, preOrder: bool, rootPath: Path): (r: Visit)
    ensures r.stopped <==> consumer(node, rootPath)
    ensures |r.calls| > 0
    ensures preOrder ==> r.calls[0] == Entry(node, rootPath)
    ensures !preOrder ==> r.calls[|r.calls| - 1] == Entry(node, rootPath)
    ensures preOrder && consumer(node, rootPath) ==> r.calls == [Entry(node, rootPath)]
    decreases node, 1, 0
  {
    var own := Entry(node, rootPath);
    if preOrder then
      if consumer(node, rootPath) then Visit(true, [own])
      else Visit(false, [own] + ChildVisits(node, consumer, preOrder, rootPath, 0))
    else
      Visit(consumer(node, rootPath), ChildVisits(node, consumer, preOrder, rootPath, 0) + [own])
  }

  /** The calls of the walks of the children from index `i` on, up to and including the first that stops. */
  function ChildVisits(node: Node, consumer: (Node, Path) -> bool, preOrder: bool, rootPath: Path, i: nat): seq<Entry>
    decreases node, 0, |node.children| - i
  {
    if i >= |node.children| then []
    else
      var v := Traversal(node.children[i], consumer, preOrder, rootPath + [i]);
      if v.stopped then v.calls else v.calls + ChildVisits(node, consumer, preOrder, rootPath, i + 1)
  }

  /** Every call receives a node with the path `rootPath` extended by the index chain leading to it. */
  lemma {:induction false} TraversalPaths(node: Node, consumer: (Node, Path) -> bool, preOrder: bool, rootPath: Path)
    ensures forall e :: e in Traversal(node, consumer, preOrder, rootPath).calls ==>
      IsPrefix(rootPath, e.path) && NodeAt(node, e.path[|rootPath|..]) == Some(e.node)
    decreases node, 1, 0
  {
    ChildVisitsPaths(node, consumer, preOrder, rootPath, 0);
    assert rootPath[|rootPath|..] == [];
  }

  lemma {:induction false} ChildVisitsPaths(node: Node, consumer: (Node, Path) -> bool, preOrder: bool, rootPath: Path, i: nat)
    ensures forall e :: e in ChildVisits(node, consumer, preOrder, rootPath, i) ==>
      |e.path| > |rootPath| && IsPrefix(rootPath, e.path) && i <= e.path[|rootPath|] &&
      NodeAt(node, e.path[|rootPath|..]) == Some(e.node)
    decreases node, 0, |node.children| - i
  {
    if i < |node.children| {
      var child := node.children[i];
      var p := rootPath + [i];
      TraversalPaths(child, consumer, preOrder, p);
      ChildVisitsPaths(node, consumer, preOrder, rootPath, i + 1);
      forall e | e in Traversal(child, consumer, preOrder, p).calls
        ensures |e.path| > |rootPath| && IsPrefix(rootPath, e.path) && i == e.path[|rootPath|]
        ensures NodeAt(node, e.path[|rootPath|..]) == Some(e.node)
      {
        assert e.path[..|p|] == p;
        assert e.path[..|rootPath|] == p[..|rootPath|] == rootPath;
        assert e.path[|rootPath|..] == [i] + e.path[|p|..];
        NodeAtConcat(node, [i], e.path[|p|..]);
        assert [i][1..] == [];
      }
    }
  }

  /** With a consumer that never stops, every node of the subtree is consumed, with its path. */
  lemma {:induction false} TraversalComplete(node: Node, consumer: (Node, Path) -> bool, preOrder: bool, rootPath: Path, q: Path)
    requires forall n, p :: !consumer(n, p)
    requires NodeAt(node, q).Some?
    ensures Entry(NodeAt(node, q).value, rootPath + q) in Traversal(node, consumer, preOrder, rootPath).calls
    decreases |q|
  {
    if |q| == 0 {
      assert rootPath + q == rootPath;
    } else {
      var i := q[0];
      var child := node.children[i];
      TraversalComplete(child, consumer, preOrder, rootPath + [i], q[1..]);
      assert rootPath + [i] + q[1..] == rootPath + q;
      ChildVisitsContain(node, consumer, preOrder, rootPath, 0, i);
    }
  }

  /** Without stops, the child loop from index `i` holds the walk of every later child. */
  lemma {:induction false} ChildVisitsContain(node: Node, consumer: (Node, Path) -> bool, preOrder: bool, rootPath: Path, i: nat, k: nat)
    requires forall n, p :: !consumer(n, p)
    requires i <= k < |node.children|
    ensures forall e :: e in Traversal(node.children[k], consumer, preOrder, rootPath + [k]).calls ==>
      e in ChildVisits(node, consumer, preOrder, rootPath, i)
    decreases k - i
  {
    var v := Traversal(node.children[i], consumer, preOrder, rootPath + [i]);
    assert !v.stopped;
    if i < k {
      ChildVisitsContain(node, consumer, preOrder, rootPath, i + 1, k);
    }
  }

  /**
   * A child whose own call answers true stops the loop of its parent:
   * no later sibling, nor anything below one, is consumed.
   */
  lemma StopSkipsLaterSiblings(node: Node, consumer: (Node, Path) -> bool, preOrder: bool, rootPath: Path, k: nat)
    requires k < |node.children| && consumer(node.children[k], rootPath + [k])
    ensures forall e :: e in Traversal(node, consumer, preOrder, rootPath).calls && |e.path| > |rootPath| ==>
      e.path[|rootPath|] <= k
  {
    ChildVisitsStop(node, consumer, preOrder, rootPath, 0, k);
  }

  lemma {:induction false} ChildVisitsStop(node: Node, consumer: (Node, Path) -> bool, preOrder: bool, rootPath: Path, i: nat, k: nat)
    requires i <= k < |node.children| && consumer(node.children[k], rootPath + [k])
    ensures forall e :: e in ChildVisits(node, consumer, preOrder, rootPath, i) ==>
      |e.path| > |rootPath| && e.path[|rootPath|] <= k
    decreases k - i
  {
    var p := rootPath + [i];
    var v := Traversal(node.children[i], consumer, preOrder, p);
    TraversalPaths(node.children[i], consumer, preOrder, p);
    forall e | e in v.calls
      ensures |e.path| > |rootPath| && e.path[|rootPath|] == i
    {
      assert e.path[..|p|] == p;
    }
    if i < k && !v.stopped {
      ChildVisitsStop(node, consumer, preOrder, rootPath, i + 1, k);
    }
  }

  /** The recursive walk with its counting loop over the children, proved to make the calls `Traversal` describes. */
  method TraverseNodes(node: Node, consumer: (Node, Path) -> bool, preOrder: bool, rootPath: Path)
    returns (stopped: bool, calls: seq<Entry>)
    ensures Visit(stopped, calls) == Traversal(node, consumer, preOrder, rootPath)
    decreases node, 1, 0
  {
    var own := Entry(node, rootPath);
    calls := [];
    if preOrder {
      if consumer(node, rootPath) {
        return true, [own];
      }
      calls := [own];
    }
    ghost var expected := calls + ChildVisits(node, consumer, preOrder, rootPath, 0);
    var i := 0;
    while i < |node.children|
      invariant 0 <= i <= |node.children|
      invariant expected == calls + ChildVisits(node, consumer, preOrder, rootPath, i)
    {
      var childStopped, childCalls := TraverseNodes(node.children[i], consumer, preOrder, rootPath + [i]);
      ghost var rest := ChildVisits(node, consumer, preOrder, rootPath, i + 1);
      assert ChildVisits(node, consumer, preOrder, rootPath, i) ==
        if childStopped then childCalls else childCalls + rest;
      ghost var before := calls;
      calls := calls + childCalls;
      if childStopped {
        assert calls + ChildVisits(node, consumer, preOrder, rootPath, |node.children|) == calls;
        i := |node.children|;
      } else {
        assert before + (childCalls + rest) == calls + rest;
        i := i + 1;
      }
    }
    assert calls == expected;
    if preOrder {
      stopped := false;
    } else {
      calls := calls + [own];
      stopped := consumer(node, rootPath);
    }
  }
}
