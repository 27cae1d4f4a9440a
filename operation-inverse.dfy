/**
 * `TreeOperations.inverse`: the operation that undoes another one, used by
 * undo. Its correctness is stated as a round trip on paths: carrying a path
 * through an operation and then through its inverse gives the path back.
 */
module OperationInverse {
  import opened Wrappers
  import opened TreePaths
  import opened TreeOperations
  import opened PathTransform

  /**
   * The operations `inverse` can build. For a move of the root path to
   * somewhere else, `next([])` is undefined and the inverse would carry a
   * `null` new path.
   */
  predicate Invertible(op: Operation)
  {
    !(op.MoveNode? && op.path == [] && op.newPath != [])
  }

  /** `inverse`. */
  function Inverse(op: Operation): Operation
    requires Invertible(op)
  {
    match op
      case InsertNode(node, path) => RemoveNode(node, path)
      case RemoveNode(node, path) => InsertNode(node, path)
      case SetNode(path, properties, newProperties) => SetNode(path, newProperties, properties)
      case MoveNode(path, newPath) =>
        if newPath == path then op
        else if IsSibling(path, newPath) then MoveNode(newPath, path)
        else MoveNode(Transform(path, op).value, Transform(Next(path).value, op).value)
  }

  /** The operations the editor can apply without an error (for moves, `ValidMove`). */
  predicate WellFormed(op: Operation)
  {
    match op
      case InsertNode(_, path) => |path| > 0
      case RemoveNode(_, path) => |path| > 0
      case SetNode(path, _, _) => |path| > 0
      case MoveNode(path, newPath) => path == newPath || ValidMove(path, newPath)
  }

  // ----- shifts undo each other -----

  lemma InsertThenRemoveShift(x: Path, t: Path)
    requires |t| > 0
    ensures RemoveShift(InsertShift(x, t), t) == x
  {
  }

  lemma RemoveThenInsertShift(p: Path, q: Path)
    requires |q| > 0 && !IsPrefix(q, p)
    ensures InsertShift(RemoveShift(p, q), q) == p
  {
    if AtOrAfter(q, p) && !After(q, p) {
      PrefixFromSlot(q, p);
    }
  }

  /** A path at `q`'s slot with `q`'s last index lies at or below `q`. */
  lemma PrefixFromSlot(q: Path, p: Path)
    requires AtOrAfter(q, p) && p[|q| - 1] == q[|q| - 1]
    ensures IsPrefix(q, p)
  {
    var k := |q| - 1;
    assert p[..|q|] == p[..k] + [p[k]];
    assert q == q[..k] + [q[k]];
  }

  lemma SlotPrefix(q: Path, p: Path)
    ensures |q| > 0 && |q| <= |p| && p[..|q| - 1] == q[..|q| - 1] && p[|q| - 1] == q[|q| - 1] ==> IsPrefix(q, p)
  {
    if |q| > 0 && |q| <= |p| && p[..|q| - 1] == q[..|q| - 1] && p[|q| - 1] == q[|q| - 1] {
      PrefixFromSlot(q, p);
    }
  }

  /** After an insertion at `t`, nothing lies at or below `t` but the inserted node's own paths. */
  lemma InsertShiftAvoids(x: Path, t: Path)
    requires |t| > 0
    ensures !IsPrefix(t, InsertShift(x, t))
  {
  }

  // ----- shape of a move's inverse -----

  /** `q` does not lie at or below its own next sibling, and removing at `q` brings that sibling back to `q`. */
  lemma NextSiblingShift(q: Path)
    requires |q| > 0
    ensures !IsPrefix(q, Next(q).value)
    ensures RemoveShift(Next(q).value, q) == q
  {
    var n := Next(q).value;
    var k := |q| - 1;
    assert n[..k] == q[..k] && n[k] == q[k] + 1;
    assert n[..|q|][k] == n[k];
  }

  /** The inverse of a non-trivial well-formed move: from the node's final place back to where it came from. */
  lemma MoveInverseShape(q: Path, r: Path)
    requires ValidMove(q, r) && q != r
    ensures Inverse(MoveNode(q, r)).MoveNode?
    ensures Inverse(MoveNode(q, r)).path == MoveTarget(q, r)
    ensures ValidMove(Inverse(MoveNode(q, r)).path, Inverse(MoveNode(q, r)).newPath)
    ensures Inverse(MoveNode(q, r)).path != Inverse(MoveNode(q, r)).newPath
    ensures MoveTarget(Inverse(MoveNode(q, r)).path, Inverse(MoveNode(q, r)).newPath) == q
  {
    var op := MoveNode(q, r);
    var t := MoveTarget(q, r);
    SiblingIff(q, r);
    MoveTargetByIndexes(q, r);
    if IsSibling(q, r) {
      MoveTargetByIndexes(r, q);
      AncestorIsStrictPrefix(r, q);
    } else {
      TransformMovedSubtree(q, q, r);
      assert q[|q|..] == [] && t + [] == t;
      var n := Next(q).value;
      NextSiblingShift(q);
      TransformMoveElsewhere(n, q, r);
      var s := InsertShift(q, t);
      assert Inverse(op) == MoveNode(t, s);
      NonSiblingInverse(q, r, t, s);
    }
  }

  lemma NonSiblingInverse(q: Path, r: Path, t: Path, s: Path)
    requires ValidMove(q, r) && q != r && !IsSibling(q, r)
    requires t == MoveTarget(q, r) && s == InsertShift(q, t)
    ensures ValidMove(t, s) && t != s && MoveTarget(t, s) == q
    ensures !IsSibling(t, s) && InsertShift(t, q) == r
  {
    var k := |q| - 1;
    SiblingIff(q, r);
    SiblingIff(t, s);
    MoveTargetByIndexes(q, r);
    MoveTargetByIndexes(t, s);
    AncestorIsStrictPrefix(t, s);
    AncestorIsStrictPrefix(q, r);
    assert |t| == |r| > 0;
    InsertShiftAvoids(q, t);
    SlotPrefix(q, r);
    if AtOrAfter(t, q) {
      assert After(t, s);
    } else {
      assert s == q;
      assert !After(t, s);
    }
    assert InsertShift(t, q) == r by {
      if After(q, r) && |q| < |r| {
        assert AtOrAfter(q, t);
      } else {
        assert t == r;
        if AtOrAfter(q, r) {
          if r[k] == q[k] { PrefixFromSlot(q, r); }
          assert false;
        }
      }
    }
  }

  // ----- round trips -----

  /** Undoing a well-formed operation puts every path back where it was. */
  lemma {:induction false} RoundTrip(path: Path, op: Operation)
    requires WellFormed(op) && Transform(path, op).Some?
    ensures Invertible(op)
    ensures Transform(Transform(path, op).value, Inverse(op)) == Some(path)
  {
    if |path| == 0 {
    } else {
      match op
      case InsertNode(node, q) =>
        TransformInsert(path, node, q);
        InsertShiftAvoids(path, q);
        TransformRemove(InsertShift(path, q), node, q);
        InsertThenRemoveShift(path, q);
      case RemoveNode(node, q) =>
        TransformRemove(path, node, q);
        TransformInsert(RemoveShift(path, q), node, q);
        RemoveThenInsertShift(path, q);
      case SetNode(_, _, _) =>
      case MoveNode(q, r) =>
        if q != r {
          MoveRoundTrip(path, q, r);
        }
    }
  }

  lemma MoveRoundTrip(path: Path, q: Path, r: Path)
    requires ValidMove(q, r) && q != r && |path| > 0
    ensures Transform(Transform(path, MoveNode(q, r)).value, Inverse(MoveNode(q, r))) == Some(path)
  {
    MoveInverseShape(q, r);
    var inv := Inverse(MoveNode(q, r));
    var t, s := inv.path, inv.newPath;
    if IsPrefix(q, path) {
      TransformMovedSubtree(path, q, r);
      var y := t + path[|q|..];
      assert IsPrefix(t, y) && y[|t|..] == path[|q|..];
      TransformMovedSubtree(y, t, s);
      assert q + path[|q|..] == path;
    } else {
      TransformMoveElsewhere(path, q, r);
      var x := RemoveShift(path, q);
      var y := InsertShift(x, t);
      InsertShiftAvoids(x, t);
      TransformMoveElsewhere(y, t, s);
      InsertThenRemoveShift(x, t);
      RemoveThenInsertShift(path, q);
    }
  }

  /** Inverting twice gives the operation back. */
  lemma InverseInvolution(op: Operation)
    requires WellFormed(op)
    ensures Invertible(op) && Invertible(Inverse(op)) && WellFormed(Inverse(op))
    ensures Inverse(Inverse(op)) == op
  {
    match op
    case MoveNode(q, r) =>
      if q != r {
        MoveInverseShape(q, r);
        SiblingIff(q, r);
        if !IsSibling(q, r) {
          var t := MoveTarget(q, r);
          TransformMovedSubtree(q, q, r);
          assert q[|q|..] == [] && t + [] == t;
          NextSiblingShift(q);
          TransformMoveElsewhere(Next(q).value, q, r);
          var s := InsertShift(q, t);
          NonSiblingInverse(q, r, t, s);
          TransformMovedSubtree(t, t, s);
          assert t[|t|..] == [] && q + [] == q;
          NextSiblingShift(t);
          TransformMoveElsewhere(Next(t).value, t, s);
        }
      }
    case _ =>
  }

  /**
   * An insertion at the root path is not undone by its inverse: the
   * insertion moves no path, and the removal at the root loses all of them.
   */
  lemma InsertAtRootNotUndone(node: TreeElements.Node)
    ensures Transform([0], InsertNode(node, [])) == Some([0])
    ensures Transform([0], Inverse(InsertNode(node, []))) == None
  {
  }
}
