/**
 * `TreePaths.transform`: where a path points after an operation has been
 * applied, or none when the operation removed the node it pointed to.
 */
module PathTransform {
  import opened Wrappers
  import opened TreePaths
  import opened TreeOperations

  /** `transform` for a path that is present. */
  function Transform(path: Path, op: Operation): Option<Path>
  {
    if |path| == 0 then Some(path)
    else match op
      case InsertNode(_, q) =>
        if q == path || EndsBefore(q, path) || IsAncestor(q, path) then Some(Bump(path, |q| - 1, 1))
        else Some(path)
      case MoveNode(q, r) =>
        if q == r then Some(path)
        else if IsAncestor(q, path) || q == path then
          var copy := if EndsBefore(q, r) && |q| < |r| then Bump(r, |q| - 1, -1) else r;
          Some(copy + SliceFrom(path, |q|))
        else if IsSibling(q, r) && (IsAncestor(r, path) || r == path) then
          if EndsBefore(q, path) then Some(Bump(path, |q| - 1, -1)) else Some(Bump(path, |q| - 1, 1))
        else if EndsBefore(r, path) || r == path || IsAncestor(r, path) then
          var p := if EndsBefore(q, path) then Bump(path, |q| - 1, -1) else path;
          Some(Bump(p, |r| - 1, 1))
        else if EndsBefore(q, path) then
          // The source re-tests `newPath == path` here before this decrement;
          // the branch above has already taken that case, so it never holds.
          Some(Bump(path, |q| - 1, -1))
        else Some(path)
      case RemoveNode(_, q) =>
        if q == path || IsAncestor(q, path) then None
        else if EndsBefore(q, path) then Some(Bump(path, |q| - 1, -1))
        else Some(path)
      case SetNode(_, _, _) => Some(path)
  }

  /** `transform` on a path that may already be `null`: `null` stays `null`. */
  function TransformOpt(path: Option<Path>, op: Operation): Option<Path>
  {
    if path.None? then None else Transform(path.value, op)
  }

  /** A path carried through a sequence of operations in order. */
  function TransformAll(path: Option<Path>, ops: seq<Operation>): Option<Path>
    decreases |ops|
  {
    if |ops| == 0 then path else TransformAll(TransformOpt(path, ops[0]), ops[1..])
  }

  /** Carrying a path through two runs of operations is carrying it through the first, then the second. */
  lemma {:induction false} TransformAllConcat(path: Option<Path>, ops: seq<Operation>, more: seq<Operation>)
    ensures TransformAll(path, ops + more) == TransformAll(TransformAll(path, ops), more)
    decreases |ops|
  {
    if |ops| > 0 {
      var next := TransformOpt(path, ops[0]);
      assert (ops + more)[0] == ops[0] && (ops + more)[1..] == ops[1..] + more;
      assert TransformAll(path, ops + more) == TransformAll(next, ops[1..] + more);
      TransformAllConcat(next, ops[1..], more);
    } else {
      assert ops + more == more;
    }
  }

  /** A path carried through a run and then one more operation. */
  lemma {:induction false} TransformAllSnoc(p: Option<Path>, run: seq<Operation>, op: Operation, q: Option<Path>)
    requires q == TransformOpt(TransformAll(p, run), op)
    ensures q == TransformAll(p, run + [op])
  {
    TransformAllConcat(p, run, [op]);
  }

  /** A path that is gone stays gone. */
  lemma {:induction false} TransformAllGone(ops: seq<Operation>)
    ensures TransformAll(None, ops) == None
    decreases |ops|
  {
    if |ops| > 0 {
      TransformAllGone(ops[1..]);
    }
  }

  // ----- an independent description by indexes -----

  /**
   * `path` lies at or after the slot `q` among `q`'s siblings, or below such
   * a sibling: inserting at `q` pushes it one place along.
   */
  predicate AtOrAfter(q: Path, path: Path)
  {
    0 < |q| <= |path| && path[..|q| - 1] == q[..|q| - 1] && path[|q| - 1] >= q[|q| - 1]
  }

  /** `path` lies after `q` among `q`'s siblings, or below such a sibling. */
  predicate After(q: Path, path: Path)
  {
    0 < |q| <= |path| && path[..|q| - 1] == q[..|q| - 1] && path[|q| - 1] > q[|q| - 1]
  }

  /** `path` with its index at `q`'s depth moved by `d`. */
  function Shift(path: Path, q: Path, d: int): (r: Path)
    requires 0 < |q| <= |path|
    ensures |r| == |path| && r[|q| - 1] == path[|q| - 1] + d
    ensures forall j :: 0 <= j < |path| && j != |q| - 1 ==> r[j] == path[j]
  {
    path[|q| - 1 := path[|q| - 1] + d]
  }

  /** Where an insertion at a non-root `q` sends `path`. */
  function InsertShift(path: Path, q: Path): Path
  {
    if AtOrAfter(q, path) then Shift(path, q, 1) else path
  }

  /** Where a removal at a non-root `q` sends a `path` that is not below it. */
  function RemoveShift(path: Path, q: Path): Path
  {
    if After(q, path) then Shift(path, q, -1) else path
  }

  lemma AtOrAfterIff(q: Path, path: Path)
    ensures AtOrAfter(q, path) <==> |q| > 0 && (q == path || EndsBefore(q, path) || IsAncestor(q, path))
  {
    EndsBeforeIff(q, path);
    AncestorIsStrictPrefix(q, path);
    if |q| > 0 && |q| <= |path| {
      assert path[..|q|] == path[..|q| - 1] + [path[|q| - 1]];
      assert q == q[..|q| - 1] + [q[|q| - 1]];
    }
  }

  lemma AfterIff(q: Path, path: Path)
    ensures After(q, path) <==> EndsBefore(q, path)
  {
    EndsBeforeIff(q, path);
  }

  /** The root path, and every path under `set_node`, stay where they are. */
  lemma TransformKeeps(path: Path, op: Operation)
    requires |path| == 0 || op.SetNode?
    ensures Transform(path, op) == Some(path)
  {
  }

  /** Only a removal loses a path: exactly the paths at or below the removed node. */
  lemma TransformNoneIff(path: Path, op: Operation)
    ensures Transform(path, op).None? <==> op.RemoveNode? && |path| > 0 && IsPrefix(op.path, path)
  {
    AncestorIsStrictPrefix(op.path, path);
  }

  /** An insertion at a non-root slot shifts the paths at or after it by one. */
  lemma TransformInsert(path: Path, node: TreeElements.Node, q: Path)
    requires |path| > 0 && |q| > 0
    ensures Transform(path, InsertNode(node, q)) == Some(InsertShift(path, q))
  {
    AtOrAfterIff(q, path);
  }

  /** An insertion at the root path changes no path at all. */
  lemma TransformInsertAtRoot(path: Path, node: TreeElements.Node)
    ensures Transform(path, InsertNode(node, [])) == Some(path)
  {
  }

  /** A removal loses the paths at or below it and shifts its later siblings back by one. */
  lemma TransformRemove(path: Path, node: TreeElements.Node, q: Path)
    requires |path| > 0
    ensures Transform(path, RemoveNode(node, q)) ==
      if IsPrefix(q, path) then None else Some(RemoveShift(path, q))
  {
    AncestorIsStrictPrefix(q, path);
    AfterIff(q, path);
  }

  /** Where a move from `q` to `r` puts the moved node itself. */
  function MoveTarget(q: Path, r: Path): Path
  {
    if EndsBefore(q, r) && |q| < |r| then Bump(r, |q| - 1, -1) else r
  }

  /** The moved node's subtree keeps its shape under the node's new path. */
  lemma TransformMovedSubtree(path: Path, q: Path, r: Path)
    requires q != r && |path| > 0 && IsPrefix(q, path)
    ensures Transform(path, MoveNode(q, r)) == Some(MoveTarget(q, r) + path[|q|..])
  {
    AncestorIsStrictPrefix(q, path);
  }

  /** A move that is not a move: every path stays. */
  lemma TransformMoveInPlace(path: Path, q: Path)
    ensures Transform(path, MoveNode(q, q)) == Some(path)
  {
  }

  /** A well-formed move: neither end is the root, and the node does not move into itself. */
  predicate ValidMove(q: Path, r: Path)
  {
    |q| > 0 && |r| > 0 && !IsAncestor(q, r)
  }

  /** A move's effect away from the moved subtree, by indexes. */
  function MoveShift(path: Path, q: Path, r: Path): Path
    requires 0 < |q|
  {
    if |q| == |r| && r[..|q| - 1] == q[..|q| - 1] && IsPrefix(r, path) then
      if After(q, path) then Shift(path, q, -1) else Shift(path, q, 1)
    else if AtOrAfter(r, path) then Shift(RemoveShift(path, q), r, 1)
    else RemoveShift(path, q)
  }

  lemma BumpIsShift(path: Path, q: Path, d: int)
    requires 0 < |q| <= |path|
    ensures Bump(path, |q| - 1, d) == Shift(path, q, d)
  {
  }

  /** The move branches of `transform`, away from the moved subtree, restated by indexes. */
  lemma TransformMoveByIndexes(path: Path, q: Path, r: Path)
    requires ValidMove(q, r) && q != r && |path| > 0 && !IsPrefix(q, path)
    ensures Transform(path, MoveNode(q, r)) == Some(MoveShift(path, q, r))
  {
    AncestorIsStrictPrefix(q, path);
    AncestorIsStrictPrefix(r, path);
    AfterIff(q, path);
    AtOrAfterIff(r, path);
    SiblingIff(q, r);
    if IsSibling(q, r) && IsPrefix(r, path) {
      BumpIsShift(path, q, -1);
      BumpIsShift(path, q, 1);
    } else if AtOrAfter(r, path) {
      if After(q, path) {
        BumpIsShift(path, q, -1);
      }
      BumpIsShift(RemoveShift(path, q), r, 1);
    } else if After(q, path) {
      BumpIsShift(path, q, -1);
    }
  }

  /** The node's final place, by indexes. */
  lemma MoveTargetByIndexes(q: Path, r: Path)
    requires 0 < |q|
    ensures MoveTarget(q, r) == if After(q, r) && |q| < |r| then Shift(r, q, -1) else r
  {
    AfterIff(q, r);
  }

  lemma MoveShiftSibling(path: Path, q: Path, r: Path)
    requires ValidMove(q, r) && q != r && !IsPrefix(q, path)
    requires |q| == |r| && r[..|q| - 1] == q[..|q| - 1] && IsPrefix(r, path)
    ensures MoveShift(path, q, r) == InsertShift(RemoveShift(path, q), MoveTarget(q, r))
  {
    var k := |q| - 1;
    MoveTargetByIndexes(q, r);
    assert path[..k] == r[..k] && path[k] == r[k] by {
      assert path[..|r|][..k] == path[..k];
    }
    assert q[k] != r[k] by {
      assert q == q[..k] + [q[k]] && r == r[..k] + [r[k]];
    }
    var x := RemoveShift(path, q);
    assert x[..k] == path[..k];
  }

  lemma MoveShiftAfterTarget(path: Path, q: Path, r: Path)
    requires ValidMove(q, r) && q != r && !IsPrefix(q, path)
    requires !(|q| == |r| && r[..|q| - 1] == q[..|q| - 1] && IsPrefix(r, path))
    requires AtOrAfter(r, path)
    ensures MoveShift(path, q, r) == InsertShift(RemoveShift(path, q), MoveTarget(q, r))
  {
    var k, m := |q| - 1, |r| - 1;
    MoveTargetByIndexes(q, r);
    var t, x := MoveTarget(q, r), RemoveShift(path, q);
    assert |t| == |r| && |x| == |path|;
    assert AtOrAfter(t, x) by {
      if After(q, r) && |q| < |r| {
        SharedSlot(path, r, k);
        assert After(q, path);
        assert x[..m] == t[..m] by {
          forall j | 0 <= j < m ensures x[j] == t[j] {
            if j != k { assert x[j] == path[..m][j] == r[..m][j] == t[j]; }
          }
        }
      } else {
        assert t == r;
        KeptPrefix(path, q, r);
      }
    }
  }

  /** Outside a move's source, removing at the source keeps the target's prefix intact. */
  lemma KeptPrefix(path: Path, q: Path, r: Path)
    requires ValidMove(q, r) && q != r && !IsPrefix(q, path)
    requires !(|q| == |r| && r[..|q| - 1] == q[..|q| - 1] && IsPrefix(r, path))
    requires AtOrAfter(r, path) && !(After(q, r) && |q| < |r|)
    ensures AtOrAfter(r, RemoveShift(path, q))
  {
    var k, m := |q| - 1, |r| - 1;
    var x := RemoveShift(path, q);
    SharedSlot(path, r, k);
    if After(q, path) {
      if k == m {
        assert x[..m] == path[..m];
        assert r[..k] == q[..k];
        assert !IsPrefix(r, path);
        assert path[m] != r[m] by {
          assert path[..|r|] == path[..m] + [path[m]] && r == r[..m] + [r[m]];
        }
      } else {
        assert x[..m] == path[..m] by { assert forall j :: 0 <= j < m ==> x[j] == path[j]; }
      }
    }
  }

  /** A path at or after `r`'s slot agrees with `r` above `r`'s depth. */
  lemma SharedSlot(path: Path, r: Path, k: int)
    ensures AtOrAfter(r, path) && 0 <= k < |r| - 1 ==> r[..k] == path[..k] && r[k] == path[k]
  {
    if AtOrAfter(r, path) && 0 <= k < |r| - 1 {
      var m := |r| - 1;
      assert r[..m][..k] == r[..k] && path[..m][..k] == path[..k];
      assert r[..m][k] == r[k] && path[..m][k] == path[k];
    }
  }

  lemma MoveShiftElsewhere(path: Path, q: Path, r: Path)
    requires ValidMove(q, r) && q != r && !IsPrefix(q, path)
    requires !(|q| == |r| && r[..|q| - 1] == q[..|q| - 1] && IsPrefix(r, path))
    requires !AtOrAfter(r, path)
    ensures MoveShift(path, q, r) == InsertShift(RemoveShift(path, q), MoveTarget(q, r))
  {
    var k, m := |q| - 1, |r| - 1;
    MoveTargetByIndexes(q, r);
    var t, x := MoveTarget(q, r), RemoveShift(path, q);
    assert !AtOrAfter(t, x) by {
      NotAtOrAfterTarget(path, q, r, t, x);
    }
  }

  lemma NotAtOrAfterTarget(path: Path, q: Path, r: Path, t: Path, x: Path)
    requires ValidMove(q, r) && q != r && !IsPrefix(q, path)
    requires !AtOrAfter(r, path)
    requires t == MoveTarget(q, r) && x == RemoveShift(path, q)
    ensures !AtOrAfter(t, x)
  {
    var k, m := |q| - 1, |r| - 1;
    MoveTargetByIndexes(q, r);
    AncestorIsStrictPrefix(q, r);
    if AtOrAfter(t, x) {
      assert |t| == |r| && |x| == |path|;
      assert forall j :: 0 <= j < m ==> x[j] == t[j];
      assert false;
    }
  }

  /**
   * Away from the moved subtree, a move acts as the removal at its source
   * followed by the insertion at the node's final place.
   */
  lemma TransformMoveElsewhere(path: Path, q: Path, r: Path)
    requires ValidMove(q, r) && q != r && |path| > 0 && !IsPrefix(q, path)
    ensures Transform(path, MoveNode(q, r)) == Some(InsertShift(RemoveShift(path, q), MoveTarget(q, r)))
  {
    TransformMoveByIndexes(path, q, r);
    if |q| == |r| && r[..|q| - 1] == q[..|q| - 1] && IsPrefix(r, path) {
      MoveShiftSibling(path, q, r);
    } else if AtOrAfter(r, path) {
      MoveShiftAfterTarget(path, q, r);
    } else {
      MoveShiftElsewhere(path, q, r);
    }
  }
}
