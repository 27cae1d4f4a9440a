/**
 * `getDirtyPaths`: the paths an operation makes dirty, that is, the paths
 * whose nodes a renderer must look at again. They are given in the tree
 * the operation produces.
 */
module DirtyPaths {
  import opened Wrappers
  import opened Text
  import opened TreeElements
  import opened TreePaths
  import opened TreeNodes
  import opened TreeOperations
  import opened PathTransform
  import opened TreeTraversal

  /** The paths of an inserted node's subtree, in the walk's order, below the insertion path. */
  function InsertedPaths(node: Node, path: Path): seq<Path>
  {
    var entries := Nodes(node, WholeTree());
    seq(|entries|, i requires 0 <= i < |entries| => path + entries[i].path)
  }

  /** Each path carried through a move (a move never loses a path). */
  function Moved(paths: seq<Path>, op: Operation): (r: seq<Path>)
    requires op.MoveNode?
    ensures |r| == |paths|
  {
    seq(|paths|, i requires 0 <= i < |paths| => (TransformNoneIff(paths[i], op); Transform(paths[i], op).value))
  }

  /** `getDirtyPaths`, as a value. */
  function DirtyPathsOf(op: Operation): Result<seq<Path>>
  {
    match op
    case InsertNode(node, path) => Ok(Levels(path, false) + InsertedPaths(node, path))
    case MoveNode(path, newPath) =>
      if Equals(path, newPath) then Ok([])
      else
        var olds := Moved(Ancestors(path, false), op);
        var news := Moved(Ancestors(newPath, false), op);
        // A move to the root path has no new ancestors, and there is no last one to extend.
        if |news| == 0 then Thrown(ReadOfMissing("undefined", "concat"))
        else Ok(olds + news + [news[|news| - 1] + [newPath[|newPath| - 1]]])
    case RemoveNode(_, path) => Ok(Ancestors(path, false))
    case SetNode(path, _, _) => Ok(Levels(path, false))
  }

  /** The two loops of the `move_node` case: each ancestor carried through the move, in order. */
  method MoveAncestors(path: Path, op: Operation) returns (list: seq<Path>)
    requires op.MoveNode?
    ensures list == Moved(Ancestors(path, false), op)
  {
    var ancestors := Ancestors(path, false);
    list := [];
    for i := 0 to |ancestors|
      invariant list == Moved(ancestors[..i], op)
    {
      TransformNoneIff(ancestors[i], op);
      list := list + [Transform(ancestors[i], op).value];
    }
    assert ancestors[..|ancestors|] == ancestors;
  }

  /** `getDirtyPaths`. */
  method GetDirtyPaths(op: Operation) returns (r: Result<seq<Path>>)
    ensures r == DirtyPathsOf(op)
  {
    match op
    case InsertNode(node, path) =>
      r := Ok(Levels(path, false) + InsertedPaths(node, path));
    case MoveNode(path, newPath) =>
      if Equals(path, newPath) {
        EqualsIsEquality(path, newPath);
        r := Ok([]);
      } else {
        EqualsIsEquality(path, newPath);
        var olds := MoveAncestors(path, op);
        var news := MoveAncestors(newPath, op);
        if |news| == 0 {
          r := Thrown(ReadOfMissing("undefined", "concat"));
        } else {
          r := Ok(olds + news + [news[|news| - 1] + [newPath[|newPath| - 1]]]);
        }
      }
    case RemoveNode(_, path) =>
      r := Ok(Ancestors(path, false));
    case SetNode(path, _, _) =>
      r := Ok(Levels(path, false));
  }

  // ----- what is dirty -----

  /** A removal dirties exactly the removed node's ancestors. */
  lemma {:induction false} RemoveDirtiesAncestors(node: Node, path: Path, x: Path)
    ensures DirtyPathsOf(RemoveNode(node, path)).Ok?
    ensures x in DirtyPathsOf(RemoveNode(node, path)).value <==> IsPrefix(x, path) && x != path
  {
    var r := Ancestors(path, false);
    assert |r| == |path| && forall i :: 0 <= i < |path| ==> r[i] == path[..i];
    if IsPrefix(x, path) && x != path {
      assert r[|x|] == x;
    }
  }

  /** Setting properties dirties the node and its ancestors. */
  lemma {:induction false} SetDirtiesLevels(path: Path, properties: Props, newProperties: Props, x: Path)
    ensures DirtyPathsOf(SetNode(path, properties, newProperties)).Ok?
    ensures x in DirtyPathsOf(SetNode(path, properties, newProperties)).value <==> IsPrefix(x, path)
  {
    var r := Levels(path, false);
    if IsPrefix(x, path) {
      assert r[|x|] == x;
    }
  }

  /**
   * An insertion dirties exactly the new node's path, its ancestors and its
   * whole subtree: a path is dirty when it is a level of `path` or a path of
   * the new node's subtree below `path`, and only then.
   */
  lemma {:induction false} InsertDirtiesSubtree(node: Node, path: Path)
    ensures DirtyPathsOf(InsertNode(node, path)).Ok?
    ensures forall x :: x in DirtyPathsOf(InsertNode(node, path)).value <==>
      IsPrefix(x, path) || (IsPrefix(path, x) && NodeAt(node, x[|path|..]).Some?)
    ensures forall q :: q in AllPaths(node) ==> path + q in DirtyPathsOf(InsertNode(node, path)).value
  {
    var levels := Levels(path, false);
    var below := InsertedPaths(node, path);
    var r := levels + below;
    var entries := Nodes(node, WholeTree());
    NodesGuarantees(node, WholeTree());
    WholeTreePaths(node);
    forall x
      ensures x in r <==> IsPrefix(x, path) || (IsPrefix(path, x) && NodeAt(node, x[|path|..]).Some?)
    {
      if IsPrefix(x, path) {
        assert levels[|x|] == x;
      } else if IsPrefix(path, x) && NodeAt(node, x[|path|..]).Some? {
        var y := x[|path|..];
        AllPathsIff(node, y);
        var e :| e in entries && e.path == y;
        var i :| 0 <= i < |entries| && entries[i] == e;
        assert below[i] == x;
      }
      if x in r && x !in levels {
        var i :| 0 <= i < |below| && below[i] == x;
        assert entries[i] in entries;
        assert x[|path|..] == entries[i].path;
      }
    }
    forall q | q in AllPaths(node)
      ensures path + q in r
    {
      AllPathsIff(node, q);
      assert (path + q)[|path|..] == q;
    }
  }

  // ----- a well-formed move -----

  /** A prefix of the target above `|q|` is outside the moved node and keeps its place. */
  lemma {:induction false} MovedAncestorOfTarget(q: Path, r: Path, i: nat)
    requires ValidMove(q, r) && q != r && i < |r|
    ensures Transform(r[..i], MoveNode(q, r)) == Some(MoveTarget(q, r)[..i])
  {
    var a := r[..i];
    var t := MoveTarget(q, r);
    MoveTargetByIndexes(q, r);
    if i > 0 {
      AncestorIsStrictPrefix(q, r);
      TransformMoveElsewhere(a, q, r);
      var x := RemoveShift(a, q);
      assert |x| == i < |t|;
      assert x == t[..i] by {
        if After(q, a) {
          assert a[..|q| - 1] == r[..|q| - 1];
          assert After(q, r) && |q| < |r|;
        }
      }
    }
  }

  /** A prefix of the source above the moved node is moved only by the node's arrival. */
  lemma {:induction false} MovedAncestorOfSource(q: Path, r: Path, i: nat)
    requires ValidMove(q, r) && q != r && i < |q|
    ensures Transform(q[..i], MoveNode(q, r)) == Some(InsertShift(q[..i], MoveTarget(q, r)))
  {
    var a := q[..i];
    MoveTargetByIndexes(q, r);
    if i > 0 {
      TransformMoveElsewhere(a, q, r);
    }
  }

  /**
   * For a well-formed move, the dirty paths are the old ancestors where
   * the move leaves them, then the node's new ancestors, then the node's
   * new path.
   */
  lemma {:induction false} MoveDirtiesBothPlaces(q: Path, r: Path)
    requires ValidMove(q, r) && q != r
    ensures DirtyPathsOf(MoveNode(q, r)).Ok?
    ensures DirtyPathsOf(MoveNode(q, r)).value ==
      seq(|q|, i requires 0 <= i < |q| => InsertShift(q[..i], MoveTarget(q, r))) +
      Ancestors(MoveTarget(q, r), false) + [MoveTarget(q, r)]
  {
    var op := MoveNode(q, r);
    var t := MoveTarget(q, r);
    MoveTargetByIndexes(q, r);
    EqualsIsEquality(q, r);
    var olds := Moved(Ancestors(q, false), op);
    var news := Moved(Ancestors(r, false), op);
    forall i | 0 <= i < |q|
      ensures olds[i] == InsertShift(q[..i], t)
    {
      MovedAncestorOfSource(q, r, i);
    }
    forall i | 0 <= i < |r|
      ensures news[i] == t[..i]
    {
      MovedAncestorOfTarget(q, r, i);
    }
    var shifted := seq(|q|, i requires 0 <= i < |q| => InsertShift(q[..i], t));
    assert olds == shifted;
    assert news == Ancestors(t, false);
    assert news[|news| - 1] + [r[|r| - 1]] == t;
    assert DirtyPathsOf(op) == Ok(olds + news + [news[|news| - 1] + [r[|r| - 1]]]);
  }
}
