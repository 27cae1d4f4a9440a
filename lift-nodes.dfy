/**
 * `liftNodes`: a ref is taken on every target first; then, ref by ref, the
 * node at the path the ref still holds is moved out of its parent: an only
 * child goes after the parent, which is then removed; a first child goes
 * before the parent; any other child goes after it (an interior child is
 * not split off with its later siblings).
 */
module LiftNodesTransform {
  import opened Wrappers
  import opened Text
  import opened TreeElements
  import opened TreePaths
  import opened TreeNodes
  import opened TreeOperations
  import opened PathTransform
  import opened EditorQueries
  import opened OnErrors
  import opened Editors
  import opened TransformSupport
  import opened MoveNodesTransform
  import opened RemoveNodesTransform

  /** The report of a released ref. */
  const Unreffed := "Cannot lift nodes at a path [null] because it could not be unref'd."

  /** The report of a path of depth 0 or 1. */
  function TooShallow(path: Path): string
  {
    "Cannot lift node at a path " + Bracketed(path) + " because it has a depth of less than `2`."
  }

  /** The report of a path without a parent. */
  function NoParent(path: Path): string
  {
    "Cannot lift node at a path " + Bracketed(path) + " because it has no parent path."
  }

  /** The report of a parent without a next path. */
  function NoNextPath(path: Path): string
  {
    "Cannot lift node at a path " + Bracketed(path) + " because it has no next path."
  }

  /** Where a lifted node goes, keyed by how many children its parent has and which of them it is. */
  datatype Placement = OnlyChild | FirstChild | LastChild | InteriorChild

  /** The case `liftNodes` takes for the child at `index` of a parent with `length` children. */
  function PlacementOf(index: int, length: int): (r: Placement)
    ensures r == OnlyChild <==> length == 1
    ensures r == FirstChild <==> length != 1 && index == 0
    ensures r == LastChild <==> length != 1 && index != 0 && index == length - 1
  {
    if length == 1 then OnlyChild
    else if index == 0 then FirstChild
    else if index == length - 1 then LastChild
    else InteriorChild
  }

  /**
   * One turn for the path a target ref gave back: the depth and parent
   * checks, then the move (and, for an only child, the removal of the
   * emptied parent) of the case the node's position selects.
   */
  function LiftAt(v: EditorView, path: Path): Replayed
  {
    if |path| < 2 then Replayed(v, OnError(ErrorContext("liftNodes.depth", TooShallow(path))), [])
    else match Parent(path)
      case None => Replayed(v, OnError(ErrorContext("liftNodes.parent", NoParent(path))), [])
      case Some(parentPath) =>
        match NodeEntry(v.root, parentPath, None).value
        case None => Replayed(v, Failed(NotIterable), [])
        case Some(entry) =>
          match PlacementOf(Last(path).value, |entry.node.children|)
          case OnlyChild =>
            (match Next(parentPath)
             case None => Replayed(v, OnError(ErrorContext("liftNodes.next", NoNextPath(path))), [])
             case Some(toPath) =>
               var moved := MoveEffect(v, Some(PathAt(path)), toPath, None);
               if moved.outcome.Failed? then moved
               else Then(moved, RemoveEffect(moved.view, Some(PathAt(parentPath)), None)))
          case FirstChild => MoveEffect(v, Some(PathAt(path)), parentPath, None)
          case LastChild =>
            (match Next(parentPath)
             case None => Replayed(v, OnError(ErrorContext("liftNodes.next.last", NoNextPath(path))), [])
             case Some(toPath) => MoveEffect(v, Some(PathAt(path)), toPath, None))
          case InteriorChild =>
            if Next(path).None? || Next(parentPath).None? then
              Replayed(v, OnError(ErrorContext("liftNodes.next.split", NoNextPath(path))), [])
            else MoveEffect(v, Some(PathAt(path)), Next(parentPath).value, None)
  }

  /** The loop from the `i`-th ref on; `ps` are the paths the refs hold by then. */
  function LiftFrom(v: EditorView, ps: seq<Option<Path>>, i: nat): Replayed
    decreases |ps| - i
  {
    if i >= |ps| then Replayed(v, Done, [])
    else match ps[i]
      case None => Replayed(v, OnError(ErrorContext("liftNodes.path.unref", Unreffed)), [])
      case Some(path) =>
        var step := LiftAt(v, path);
        if step.outcome.Failed? then step
        else Then(step, LiftFrom(step.view, Carry(ps, step.sent), i + 1))
  }

  /** `liftNodes(editor, { at, match })`: nothing without `at`, else the loop over the targets' refs. */
  function LiftEffect(v: EditorView, at: Option<Location>, matcher: Option<Entry -> bool>): Replayed
  {
    if at.None? then Replayed(v, Done, [])
    else match Targets(v.root, at.value, matcher)
      case Thrown(m) => Replayed(v, Failed(m), [])
      case Ok(entries) => LiftFrom(v, PathsOf(entries), 0)
  }

  /** A path of depth below 2 stops the whole run there, with nothing sent for it or for the refs after it. */
  lemma {:induction false} LiftShallowStops(v: EditorView, ps: seq<Option<Path>>, i: nat)
    requires i < |ps| && ps[i].Some? && |ps[i].value| < 2
    ensures LiftFrom(v, ps, i) == Replayed(v, Failed(TooShallow(ps[i].value)), [])
  {
    assert LiftAt(v, ps[i].value) == Replayed(v, Failed(TooShallow(ps[i].value)), []);
  }

  /**
   * An only child moves to the parent's next path, and the emptied parent
   * is then removed from where it was, unless the move failed.
   */
  lemma {:induction false} LiftOnlyChild(v: EditorView, path: Path)
    requires |path| >= 2 && NodeAt(v.root, path[..|path| - 1]).Some?
    requires |NodeAt(v.root, path[..|path| - 1]).value.children| == 1
    ensures var parentPath := path[..|path| - 1];
      var toPath := parentPath[..|parentPath| - 1] + [parentPath[|parentPath| - 1] + 1];
      var moved := MoveEffect(v, Some(PathAt(path)), toPath, None);
      LiftAt(v, path) ==
        if moved.outcome.Failed? then moved else Then(moved, RemoveEffect(moved.view, Some(PathAt(parentPath)), None))
  {
    var parentPath := path[..|path| - 1];
    assert Parent(path) == Some(parentPath);
    assert Next(parentPath) == Some(parentPath[..|parentPath| - 1] + [parentPath[|parentPath| - 1] + 1]);
  }

  /** The first of several children moves to the parent's own path, before the parent. */
  lemma {:induction false} LiftFirstChild(v: EditorView, path: Path)
    requires |path| >= 2 && NodeAt(v.root, path[..|path| - 1]).Some?
    requires |NodeAt(v.root, path[..|path| - 1]).value.children| != 1 && path[|path| - 1] == 0
    ensures LiftAt(v, path) == MoveEffect(v, Some(PathAt(path)), path[..|path| - 1], None)
  {
    assert Parent(path) == Some(path[..|path| - 1]);
  }

  /** Any later child, the last or one in between, moves to the parent's next path, after the parent. */
  lemma {:induction false} LiftLaterChild(v: EditorView, path: Path)
    requires |path| >= 2 && NodeAt(v.root, path[..|path| - 1]).Some?
    requires |NodeAt(v.root, path[..|path| - 1]).value.children| != 1 && path[|path| - 1] != 0
    ensures var parentPath := path[..|path| - 1];
      LiftAt(v, path) ==
        MoveEffect(v, Some(PathAt(path)), parentPath[..|parentPath| - 1] + [parentPath[|parentPath| - 1] + 1], None)
  {
    var parentPath := path[..|path| - 1];
    assert Parent(path) == Some(parentPath) && Next(path).Some?;
    assert Next(parentPath) == Some(parentPath[..|parentPath| - 1] + [parentPath[|parentPath| - 1] + 1]);
  }

  /**
   * `liftNodes` in the editor. It sends what `LiftEffect` describes; the
   * caller's refs follow every operation sent; the refs it takes are all
   * released again when it finishes.
   */
  method LiftNodes(e: Editor, at: Option<Location>, matcher: Option<Entry -> bool>) returns (o: Outcome)
    requires e.Valid()
    modifies e, e.refs
    ensures e.Valid() && old(e.sent) <= e.sent
    ensures Replayed(e.View(), o, e.sent[|old(e.sent)|..]) == LiftEffect(old(e.View()), at, matcher)
    ensures forall r :: r in old(e.refs) ==>
      r.current == TransformAll(old(r.current), e.sent[|old(e.sent)|..]) && (r in e.refs <==> r.current.Some?)
    ensures forall r :: r in e.refs ==> r in old(e.refs) || fresh(r)
    ensures o.Done? ==> e.refs <= old(e.refs)
  {
    if at.None? {
      return Done;
    }
    var targets := Targets(e.root, at.value, matcher);
    if targets.Thrown? {
      return Failed(targets.message);
    }
    ghost var was := map r | r in e.refs :: r.current;
    ghost var keys := e.refs;
    var rs := NewRefs(e, targets.value, was, [], keys);
    ghost var done;
    o, done := LiftEach(e, rs, was, PathsOf(targets.value), keys);
    assert e.sent[|old(e.sent)|..] == done;
    forall r | r in old(e.refs)
      ensures r.current == TransformAll(old(r.current), done) && (r in e.refs <==> r.current.Some?)
    {
      assert r in was && was[r] == old(r.current);
    }
  }

  /** The loop of `liftNodes` over refs the transform took on `ps`. */
  method LiftEach(e: Editor, rs: seq<PathRef>, ghost was: map<PathRef, Option<Path>>, ghost ps: seq<Option<Path>>,
                  ghost keys: set<PathRef>)
    returns (o: Outcome, ghost done: seq<Operation>)
    requires e.Valid() && Follows(e, was, []) && Holds(e, was, rs, 0, ps) && Within(e, keys, rs, 0)
    requires forall j :: 0 <= j < |ps| ==> ps[j].Some?
    modifies e, e.refs
    ensures e.Valid() && Follows(e, was, done) && e.sent == old(e.sent) + done
    ensures Replayed(e.View(), o, done) == LiftFrom(old(e.View()), ps, 0)
    ensures o.Done? ==> e.refs <= keys
    ensures forall r :: r in e.refs ==> r in old(e.refs) || fresh(r)
  {
    ghost var expected := LiftFrom(e.View(), ps, 0);
    ghost var ps' := ps;
    done := [];
    o := Done;
    var i := 0;
    while i < |rs| && o.Done?
      invariant i <= |rs| && e.Valid() && Follows(e, was, done) && Holds(e, was, rs, i, ps')
      invariant e.sent == old(e.sent) + done
      invariant o.Done? ==> Within(e, keys, rs, i)
      invariant o.Done? ==> Then(Replayed(e.View(), Done, done), LiftFrom(e.View(), ps', i)) == expected
      invariant o.Failed? ==> Replayed(e.View(), o, done) == expected
      invariant forall r :: r in e.refs ==> r in old(e.refs) || fresh(r)
    {
      ghost var sent;
      o, sent := LiftNext(e, rs, i, was, ps', done, keys, expected);
      SentAssoc(old(e.sent), done, sent);
      done, ps' := done + sent, Carry(ps', sent);
      i := i + 1;
    }
  }

  /** One turn of the loop: the `i`-th ref is released and the node at its path lifted. */
  method LiftNext(e: Editor, rs: seq<PathRef>, i: nat, ghost was: map<PathRef, Option<Path>>,
                  ghost ps: seq<Option<Path>>, ghost done: seq<Operation>, ghost keys: set<PathRef>,
                  ghost expected: Replayed)
    returns (o: Outcome, ghost sent: seq<Operation>)
    requires i < |rs| && e.Valid() && Follows(e, was, done) && Holds(e, was, rs, i, ps) && Within(e, keys, rs, i)
    requires Then(Replayed(e.View(), Done, done), LiftFrom(e.View(), ps, i)) == expected
    modifies e, e.refs, rs[i]
    ensures e.Valid() && Follows(e, was, done + sent) && Holds(e, was, rs, i + 1, Carry(ps, sent))
    ensures e.sent == old(e.sent) + sent
    ensures o.Done? ==> Within(e, keys, rs, i + 1) && e.refs <= old(e.refs)
    ensures o.Done? ==> Then(Replayed(e.View(), Done, done + sent), LiftFrom(e.View(), Carry(ps, sent), i + 1)) == expected
    ensures o.Failed? ==> Replayed(e.View(), o, done + sent) == expected
    ensures forall r :: r in e.refs ==> r in old(e.refs) || fresh(r)
  {
    ghost var v := e.View();
    var path := Release(e, rs, i, was, ps, done, keys);
    CarryNone(ps);
    assert done + [] == done;
    if path.None? {
      return OnError(ErrorContext("liftNodes.path.unref", Unreffed)), [];
    }
    ghost var step := LiftAt(v, path.value);
    ThenStep(v, done, step, LiftFrom(step.view, Carry(ps, step.sent), i + 1));
    o, sent := LiftStep(e, path.value, was, rs, i + 1, ps, done, keys);
  }

  /** The lift of the node at one path, as `LiftAt` describes. */
  method LiftStep(e: Editor, path: Path, ghost was: map<PathRef, Option<Path>>, ghost rs: seq<PathRef>, ghost i: nat,
                  ghost ps: seq<Option<Path>>, ghost done: seq<Operation>, ghost keys: set<PathRef>)
    returns (o: Outcome, ghost sent: seq<Operation>)
    requires e.Valid() && Follows(e, was, done) && Holds(e, was, rs, i, ps) && Within(e, keys, rs, i)
    modifies e, e.refs
    ensures e.Valid() && Follows(e, was, done + sent) && Holds(e, was, rs, i, Carry(ps, sent))
    ensures e.sent == old(e.sent) + sent
    ensures Replayed(e.View(), o, sent) == LiftAt(old(e.View()), path)
    ensures o.Done? ==> Within(e, keys, rs, i) && e.refs <= old(e.refs)
    ensures forall r :: r in e.refs ==> r in old(e.refs) || fresh(r)
  {
    CarryNone(ps);
    assert done + [] == done;
    if |path| < 2 {
      return OnError(ErrorContext("liftNodes.depth", TooShallow(path))), [];
    }
    var parentPath := Parent(path);
    if parentPath.None? {
      return OnError(ErrorContext("liftNodes.parent", NoParent(path))), [];
    }
    var entry := NodeEntry(e.root, parentPath.value, None);
    if entry.value.None? {
      return Failed(NotIterable), [];
    }
    var parent := entry.value.value.node;
    var index := Last(path).value;
    var length := |parent.children|;
    if length == 1 {
      var toPath := Next(parentPath.value);
      if toPath.None? {
        return OnError(ErrorContext("liftNodes.next", NoNextPath(path))), [];
      }
      ghost var moved;
      o, moved := MoveCarrying(e, path, toPath.value, was, rs, i, ps, done, keys);
      if o.Failed? {
        return o, moved;
      }
      ghost var removed;
      o, removed := RemoveCarrying(e, parentPath.value, was, rs, i, Carry(ps, moved), done + moved, keys);
      SentAssoc(old(e.sent), moved, removed);
      SentAssoc(done, moved, removed);
      CarryConcat(ps, moved, removed);
      sent := moved + removed;
    } else if index == 0 {
      o, sent := MoveCarrying(e, path, parentPath.value, was, rs, i, ps, done, keys);
    } else if index == length - 1 {
      var toPath := Next(parentPath.value);
      if toPath.None? {
        return OnError(ErrorContext("liftNodes.next.last", NoNextPath(path))), [];
      }
      o, sent := MoveCarrying(e, path, toPath.value, was, rs, i, ps, done, keys);
    } else {
      var splitPath := Next(path);
      var toPath := Next(parentPath.value);
      if splitPath.None? || toPath.None? {
        return OnError(ErrorContext("liftNodes.next.split", NoNextPath(path))), [];
      }
      o, sent := MoveCarrying(e, path, toPath.value, was, rs, i, ps, done, keys);
    }
  }

  /** `moveNodes` at one path while the lift's own refs are held: they follow its operations too. */
  method MoveCarrying(e: Editor, path: Path, to: Path, ghost was: map<PathRef, Option<Path>>, ghost rs: seq<PathRef>,
                      ghost i: nat, ghost ps: seq<Option<Path>>, ghost done: seq<Operation>, ghost keys: set<PathRef>)
    returns (o: Outcome, ghost sent: seq<Operation>)
    requires e.Valid() && Follows(e, was, done) && Holds(e, was, rs, i, ps) && Within(e, keys, rs, i)
    modifies e, e.refs
    ensures e.Valid() && Follows(e, was, done + sent) && Holds(e, was, rs, i, Carry(ps, sent))
    ensures e.sent == old(e.sent) + sent
    ensures Replayed(e.View(), o, sent) == MoveEffect(old(e.View()), Some(PathAt(path)), to, None)
    ensures o.Done? ==> Within(e, keys, rs, i) && e.refs <= old(e.refs)
    ensures forall r :: r in e.refs ==> r in old(e.refs) || fresh(r)
  {
    o := MoveNodes(e, Some(PathAt(path)), to, None);
    sent := e.sent[|old(e.sent)|..];
    assert e.sent == old(e.sent) + sent;
    forall r | r in was
      ensures r.current == TransformAll(was[r], done + sent) && (r in e.refs <==> r.current.Some?)
    {
      TransformAllConcat(was[r], done, sent);
      if r !in old(e.refs) {
        TransformAllGone(sent);
      }
    }
    forall j | i <= j < |rs|
      ensures rs[j].current == Carry(ps, sent)[j] && (rs[j] in e.refs <==> Carry(ps, sent)[j].Some?)
    {
      if rs[j] !in old(e.refs) {
        TransformAllGone(sent);
      }
    }
  }

  /** `removeNodes` at one path while the lift's own refs are held: they follow its operations too. */
  method RemoveCarrying(e: Editor, path: Path, ghost was: map<PathRef, Option<Path>>, ghost rs: seq<PathRef>,
                        ghost i: nat, ghost ps: seq<Option<Path>>, ghost done: seq<Operation>, ghost keys: set<PathRef>)
    returns (o: Outcome, ghost sent: seq<Operation>)
    requires e.Valid() && Follows(e, was, done) && Holds(e, was, rs, i, ps) && Within(e, keys, rs, i)
    modifies e, e.refs
    ensures e.Valid() && Follows(e, was, done + sent) && Holds(e, was, rs, i, Carry(ps, sent))
    ensures e.sent == old(e.sent) + sent
    ensures Replayed(e.View(), o, sent) == RemoveEffect(old(e.View()), Some(PathAt(path)), None)
    ensures o.Done? ==> Within(e, keys, rs, i) && e.refs <= old(e.refs)
    ensures forall r :: r in e.refs ==> r in old(e.refs) || fresh(r)
  {
    o := RemoveNodes(e, Some(PathAt(path)), None);
    sent := e.sent[|old(e.sent)|..];
    assert e.sent == old(e.sent) + sent;
    forall r | r in was
      ensures r.current == TransformAll(was[r], done + sent) && (r in e.refs <==> r.current.Some?)
    {
      TransformAllConcat(was[r], done, sent);
      if r !in old(e.refs) {
        TransformAllGone(sent);
      }
    }
    forall j | i <= j < |rs|
      ensures rs[j].current == Carry(ps, sent)[j] && (rs[j] in e.refs <==> Carry(ps, sent)[j].Some?)
    {
      if rs[j] !in old(e.refs) {
        TransformAllGone(sent);
      }
    }
  }
}
