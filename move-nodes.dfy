/**
 * `moveNodes`: a ref on the destination is taken first, then one on every
 * target; ref by ref, the target's path is released and the node there is
 * moved to where the destination ref points, which is advanced by one
 * after a move to a later sibling so that the nodes keep their order.
 */
module MoveNodesTransform {
  import opened Wrappers
  import opened Text
  import opened TreeElements
  import opened TreePaths
  import opened TreeNodes
  import opened TreeOperations
  import opened PathTransform
  import opened EditorQueries
  import opened OnErrors
  import opened Editors
  import opened TransformSupport

  /** The report when the advanced destination has no next path. */
  function NoNext(p: Path): string
  {
    "Cannot move nodes to a path " + Bracketed(p) + " because it has no next path."
  }

  /** Where the destination ref points after a `move_node`: a move never releases a ref. */
  function MovedTo(to: Path, op: Operation): (r: Path)
    requires op.MoveNode?
    ensures Transform(to, op) == Some(r)
  {
    TransformNoneIff(to, op);
    Transform(to, op).value
  }

  /** One turn of the loop: what it sends and how it ends, and where the destination ref points after it. */
  datatype Turn = Turn(step: Replayed, to: Path)

  /**
   * One turn for the path a target ref gave back: the root is not moved,
   * any other node is moved to `to`; after a move to a later sibling the
   * destination is advanced by one, and a destination without a next path
   * is reported.
   */
  function MoveAt(v: EditorView, path: Path, to: Path): Turn
  {
    var step := if |path| > 0 then ApplyEffect(v, MoveNode(path, to)) else Replayed(v, Done, []);
    if step.outcome.Failed? then Turn(step, to)
    else
      var carried := if |path| > 0 then MovedTo(to, MoveNode(path, to)) else to;
      if IsSibling(to, path) && IsAfter(to, path) then
        match Next(carried)
        case None => Turn(Replayed(step.view, OnError(ErrorContext("moveNodes.next", NoNext(carried))), step.sent), carried)
        case Some(n) => Turn(step, n)
      else Turn(step, carried)
  }

  /**
   * The loop from the `i`-th ref on; `ps` are the paths the target refs
   * hold by then, `to` the path the destination ref holds. A released
   * target ref makes `path.length` throw.
   */
  function MoveFrom(v: EditorView, ps: seq<Option<Path>>, i: nat, to: Path): Replayed
    decreases |ps| - i
  {
    if i >= |ps| then Replayed(v, Done, [])
    else match ps[i]
      case None => Replayed(v, Failed(NullLength), [])
      case Some(path) =>
        var t := MoveAt(v, path, to);
        if t.step.outcome.Failed? then t.step
        else Then(t.step, MoveFrom(t.step.view, Carry(ps, t.step.sent), i + 1, t.to))
  }

  /** `moveNodes(editor, { at, to, match })`: nothing without `at`, else the loop over the targets' refs. */
  function MoveEffect(v: EditorView, at: Option<Location>, to: Path, matcher: Option<Entry -> bool>): Replayed
  {
    if at.None? then Replayed(v, Done, [])
    else match Targets(v.root, at.value, matcher)
      case Thrown(m) => Replayed(v, Failed(m), [])
      case Ok(entries) => MoveFrom(v, PathsOf(entries), 0, to)
  }

  /**
   * Moving one node to a path that is not its later sibling sends just
   * that `move_node`; moving the root sends nothing.
   */
  lemma {:induction false} MoveSingle(v: EditorView, p: Path, to: Path)
    requires NodeAt(v.root, p).Some?
    ensures |p| > 0 && !(IsSibling(to, p) && IsAfter(to, p)) ==>
      MoveEffect(v, Some(PathAt(p)), to, None) == ApplyEffect(v, MoveNode(p, to))
    ensures |p| == 0 ==> MoveEffect(v, Some(PathAt(p)), to, None) == Replayed(v, Done, [])
  {
    SingleTarget(v.root, p);
    var ps := PathsOf([Entry(NodeAt(v.root, p).value, p)]);
    assert ps == [Some(p)];
    var t := MoveAt(v, p, to);
    if |p| == 0 {
      assert !IsSibling(to, p);
    }
    if t.step.outcome.Done? {
      assert MoveFrom(t.step.view, Carry(ps, t.step.sent), 1, t.to) == Replayed(t.step.view, Done, []);
      assert t.step.sent + [] == t.step.sent;
    }
  }

  /** One turn sends at most the `move_node` of a non-root path to the destination. */
  lemma {:induction false} MoveAtSends(v: EditorView, path: Path, to: Path)
    ensures MoveAt(v, path, to).step.sent == if |path| > 0 then [MoveNode(path, to)] else []
  {
  }

  /** Every operation the loop sends is a `move_node` of a non-root path, at most one per ref; the first goes to `to`. */
  lemma {:induction false} MoveFromSends(v: EditorView, ps: seq<Option<Path>>, i: nat, to: Path)
    requires i <= |ps|
    ensures var r := MoveFrom(v, ps, i, to);
      |r.sent| <= |ps| - i && (forall k :: 0 <= k < |r.sent| ==> r.sent[k].MoveNode? && |r.sent[k].path| > 0) &&
      (|r.sent| > 0 ==> r.sent[0].newPath == to)
    decreases |ps| - i
  {
    if i < |ps| && ps[i].Some? {
      var t := MoveAt(v, ps[i].value, to);
      MoveAtSends(v, ps[i].value, to);
      if t.step.outcome.Done? {
        MoveFromSends(t.step.view, Carry(ps, t.step.sent), i + 1, t.to);
      }
    }
  }

  /**
   * `moveNodes` in the editor. It sends what `MoveEffect` describes; the
   * caller's refs follow every operation sent; the refs it takes are all
   * released again when it finishes.
   */
  method MoveNodes(e: Editor, at: Option<Location>, to: Path, matcher: Option<Entry -> bool>) returns (o: Outcome)
    requires e.Valid()
    modifies e, e.refs
    ensures e.Valid() && old(e.sent) <= e.sent
    ensures Replayed(e.View(), o, e.sent[|old(e.sent)|..]) == MoveEffect(old(e.View()), at, to, matcher)
    ensures forall r :: r in old(e.refs) ==>
      r.current == TransformAll(old(r.current), e.sent[|old(e.sent)|..]) && (r in e.refs <==> r.current.Some?)
    ensures forall r :: r in e.refs ==> r in old(e.refs) || fresh(r)
    ensures o.Done? ==> e.refs <= old(e.refs)
  {
    if at.None? {
      return Done;
    }
    var targets := Targets(e.root, at.value, matcher);
    if targets.Thrown? {
      return Failed(targets.message);
    }
    o := MoveRun(e, targets.value, to);
  }

  /** The refs of `moveNodes`, the destination's first, and the loop over the targets' refs. */
  method MoveRun(e: Editor, entries: seq<Entry>, to: Path) returns (o: Outcome)
    requires e.Valid()
    modifies e, e.refs
    ensures e.Valid() && old(e.sent) <= e.sent
    ensures Replayed(e.View(), o, e.sent[|old(e.sent)|..]) == MoveFrom(old(e.View()), PathsOf(entries), 0, to)
    ensures forall r :: r in old(e.refs) ==>
      r.current == TransformAll(old(r.current), e.sent[|old(e.sent)|..]) && (r in e.refs <==> r.current.Some?)
    ensures forall r :: r in e.refs ==> r in old(e.refs) || fresh(r)
    ensures o.Done? ==> e.refs <= old(e.refs)
  {
    ghost var was := map r | r in e.refs :: r.current;
    ghost var keys := e.refs;
    var toRef := e.NewPathRef(to);
    var rs := NewRefs(e, entries, was, [], keys + {toRef});
    ghost var done;
    o, done := MoveEach(e, rs, toRef, was, PathsOf(entries), keys, to);
    assert e.sent[|old(e.sent)|..] == done;
    if o.Done? {
      var _ := e.Unref(toRef);
    }
    forall r | r in old(e.refs)
      ensures r.current == TransformAll(old(r.current), done) && (r in e.refs <==> r.current.Some?)
    {
      assert r in was && was[r] == old(r.current);
    }
  }

  /** The destination ref: live, holding `to`, and neither a ref of the caller nor a target ref. */
  ghost predicate Destination(e: Editor, toRef: PathRef, to: Path, was: map<PathRef, Option<Path>>, rs: seq<PathRef>)
    reads e, toRef
  {
    toRef in e.refs && toRef.current == Some(to) && toRef !in was && forall j :: 0 <= j < |rs| ==> rs[j] != toRef
  }

  /** The loop of `moveNodes` over the target refs, with the destination ref beside them. */
  method MoveEach(e: Editor, rs: seq<PathRef>, toRef: PathRef, ghost was: map<PathRef, Option<Path>>,
                  ghost ps: seq<Option<Path>>, ghost keys: set<PathRef>, ghost to: Path)
    returns (o: Outcome, ghost done: seq<Operation>)
    requires e.Valid() && Follows(e, was, []) && Holds(e, was, rs, 0, ps) && Within(e, keys + {toRef}, rs, 0)
    requires Destination(e, toRef, to, was, rs)
    requires forall j :: 0 <= j < |ps| ==> ps[j].Some?
    modifies e, e.refs
    ensures e.Valid() && Follows(e, was, done) && e.sent == old(e.sent) + done
    ensures Replayed(e.View(), o, done) == MoveFrom(old(e.View()), ps, 0, to)
    ensures o.Done? ==> e.refs <= keys + {toRef} && toRef in e.refs
    ensures forall r :: r in e.refs ==> r in old(e.refs)
  {
    ghost var expected := MoveFrom(e.View(), ps, 0, to);
    ghost var ps', to' := ps, to;
    done := [];
    o := Done;
    var i := 0;
    while i < |rs| && o.Done?
      invariant i <= |rs| && e.Valid() && Follows(e, was, done) && Holds(e, was, rs, i, ps')
      invariant e.sent == old(e.sent) + done
      invariant o.Done? ==> Within(e, keys + {toRef}, rs, i) && Destination(e, toRef, to', was, rs)
      invariant o.Done? ==> Then(Replayed(e.View(), Done, done), MoveFrom(e.View(), ps', i, to')) == expected
      invariant o.Failed? ==> Replayed(e.View(), o, done) == expected
      invariant forall r :: r in e.refs ==> r in old(e.refs)
    {
      ghost var sent, next;
      o, sent, next := MoveNext(e, rs, i, toRef, was, ps', done, keys + {toRef}, to', expected);
      SentAssoc(old(e.sent), done, sent);
      done, ps', to' := done + sent, Carry(ps', sent), next;
      i := i + 1;
    }
    if o.Done? {
      forall r | r in e.refs
        ensures r in keys + {toRef}
      {
        assert Within(e, keys + {toRef}, rs, i);
      }
    }
  }

  /** One turn of the loop: the `i`-th target ref is released, then `MoveStep` moves its node. */
  method MoveNext(e: Editor, rs: seq<PathRef>, i: nat, toRef: PathRef, ghost was: map<PathRef, Option<Path>>,
                  ghost ps: seq<Option<Path>>, ghost done: seq<Operation>, ghost keys: set<PathRef>, ghost to: Path,
                  ghost expected: Replayed)
    returns (o: Outcome, ghost sent: seq<Operation>, ghost to': Path)
    requires i < |rs| && e.Valid() && Follows(e, was, done) && Holds(e, was, rs, i, ps) && Within(e, keys, rs, i)
    requires Destination(e, toRef, to, was, rs)
    requires Then(Replayed(e.View(), Done, done), MoveFrom(e.View(), ps, i, to)) == expected
    modifies e, e.refs, rs[i]
    ensures e.Valid() && Follows(e, was, done + sent) && Holds(e, was, rs, i + 1, Carry(ps, sent))
    ensures e.sent == old(e.sent) + sent && e.refs <= old(e.refs)
    ensures o.Done? ==> Within(e, keys, rs, i + 1) && Destination(e, toRef, to', was, rs)
    ensures o.Done? ==> Then(Replayed(e.View(), Done, done + sent), MoveFrom(e.View(), Carry(ps, sent), i + 1, to')) == expected
    ensures o.Failed? ==> Replayed(e.View(), o, done + sent) == expected
  {
    ghost var v := e.View();
    var path := Release(e, rs, i, was, ps, done, keys);
    CarryNone(ps);
    assert done + [] == done;
    if path.None? {
      return Failed(NullLength), [], to;
    }
    ghost var t := MoveAt(v, path.value, to);
    ThenStep(v, done, t.step, MoveFrom(t.step.view, Carry(ps, t.step.sent), i + 1, t.to));
    o, sent, to' := MoveStep(e, path.value, toRef, was, rs, i + 1, ps, done, to);
  }

  /** The move of one target and the advance of the destination ref, as `MoveAt` describes. */
  method MoveStep(e: Editor, path: Path, toRef: PathRef, ghost was: map<PathRef, Option<Path>>, ghost rs: seq<PathRef>,
                  ghost i: nat, ghost ps: seq<Option<Path>>, ghost done: seq<Operation>, ghost to: Path)
    returns (o: Outcome, ghost sent: seq<Operation>, ghost to': Path)
    requires e.Valid() && Follows(e, was, done) && Holds(e, was, rs, i, ps) && Destination(e, toRef, to, was, rs)
    modifies e, e.refs
    ensures e.Valid() && Follows(e, was, done + sent) && Holds(e, was, rs, i, Carry(ps, sent))
    ensures e.sent == old(e.sent) + sent && e.refs <= old(e.refs)
    ensures Replayed(e.View(), o, sent) == MoveAt(old(e.View()), path, to).step && to' == MoveAt(old(e.View()), path, to).to
    ensures o.Done? ==> Destination(e, toRef, to', was, rs)
  {
    ghost var v := e.View();
    var newPath := toRef.current.value;
    CarryNone(ps);
    assert done + [] == done;
    if |path| > 0 {
      var op := MoveNode(path, newPath);
      o := ApplyCarrying(e, op, was, rs, i, ps, done);
      sent := [op];
      if o.Failed? {
        return o, sent, to;
      }
    } else {
      o, sent := Done, [];
    }
    ghost var carried := if |path| > 0 then MovedTo(to, MoveNode(path, to)) else to;
    assert toRef.current == Some(carried);
    if toRef.current.Some? && IsSibling(newPath, path) && IsAfter(newPath, path) {
      var nextPath := Next(toRef.current.value);
      if nextPath.Some? {
        toRef.current := nextPath;
        to' := nextPath.value;
      } else {
        o := OnError(ErrorContext("moveNodes.next", NoNext(toRef.current.value)));
        to' := carried;
      }
    } else {
      to' := carried;
    }
  }
}
