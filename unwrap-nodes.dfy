/**
 * `unwrapNodes`: a ref is taken on every target, and the refs are visited
 * last target first; each target that still exists has its children lifted
 * out of it by `liftNodes`, which removes the target once its only child
 * has left.
 */
module UnwrapNodesTransform {
  import opened Wrappers
  import opened Text
  import opened TreeElements
  import opened TreePaths
  import opened TreeNodes
  import opened TreeOperations
  import opened PathTransform
  import opened EditorQueries
  import opened OnErrors
  import opened Editors
  import opened TransformSupport
  import opened LiftNodesTransform

  /** The report of a target that is gone: a released ref shows as `[null]`. */
  function NotFound(path: Option<Path>): string
  {
    "Cannot unwrap node at path " + (if path.None? then "[null]" else Bracketed(path.value)) +
    " because it could not be found."
  }

  /** The paths of the targets' refs, in the order they are visited: last target first. */
  function UnwrapPaths(entries: seq<Entry>): (r: seq<Option<Path>>)
    ensures |r| == |entries|
    ensures forall k :: 0 <= k < |r| ==> r[k] == Some(entries[|entries| - 1 - k].path)
  {
    PathsOf(Reversed(entries))
  }

  /**
   * One turn for the path a target ref gave back: a target that is gone is
   * reported (the `node` lookup on it continues with `undefined` first);
   * otherwise its children, the entries one level below its path, are
   * lifted.
   */
  function UnwrapAt(v: EditorView, path: Option<Path>): Replayed
  {
    match path
    case None => Replayed(v, OnError(ErrorContext("unwrapNodes.node", NotFound(path))), [])
    case Some(p) =>
      match NodeEntry(v.root, p, None).value
      case None => Replayed(v, OnError(ErrorContext("unwrapNodes.node", NotFound(path))), [])
      case Some(entry) => LiftEffect(v, Some(PathAt(p)), Some(ChildOf(entry)))
  }

  /** The loop from the `i`-th ref on; `ps` are the paths the refs hold by then. */
  function UnwrapFrom(v: EditorView, ps: seq<Option<Path>>, i: nat): Replayed
    decreases |ps| - i
  {
    if i >= |ps| then Replayed(v, Done, [])
    else
      var step := UnwrapAt(v, ps[i]);
      if step.outcome.Failed? then step
      else Then(step, UnwrapFrom(step.view, Carry(ps, step.sent), i + 1))
  }

  /** `unwrapNodes(editor, { at, match })`: nothing without `at`, else the loop over the targets' refs. */
  function UnwrapEffect(v: EditorView, at: Option<Location>, matcher: Option<Entry -> bool>): Replayed
  {
    if at.None? then Replayed(v, Done, [])
    else match Targets(v.root, at.value, matcher)
      case Thrown(m) => Replayed(v, Failed(m), [])
      case Ok(entries) => UnwrapFrom(v, UnwrapPaths(entries), 0)
  }

  /**
   * Unwrapping the node at a path, with the default match, is lifting the
   * entries one level below that path, that is, the node's own children.
   */
  lemma {:induction false} UnwrapSingle(v: EditorView, p: Path)
    requires NodeAt(v.root, p).Some?
    ensures UnwrapEffect(v, Some(PathAt(p)), None) ==
      LiftEffect(v, Some(PathAt(p)), Some(ChildOf(Entry(NodeAt(v.root, p).value, p))))
  {
    var entry := Entry(NodeAt(v.root, p).value, p);
    SingleTarget(v.root, p);
    var ps := UnwrapPaths([entry]);
    assert ps == [Some(p)];
    assert NodeEntry(v.root, p, None).value == Some(entry);
    var step := UnwrapAt(v, Some(p));
    assert step == LiftEffect(v, Some(PathAt(p)), Some(ChildOf(entry)));
    assert UnwrapEffect(v, Some(PathAt(p)), None) == UnwrapFrom(v, ps, 0);
    if !step.outcome.Failed? {
      assert UnwrapFrom(step.view, Carry(ps, step.sent), 1) == Replayed(step.view, Done, []);
      assert step.sent + [] == step.sent;
    }
  }

  /**
   * A target that is gone when its turn comes is reported; with the
   * default `onError` that ends the run, with nothing sent for it.
   */
  lemma {:induction false} UnwrapMissingStops(v: EditorView, ps: seq<Option<Path>>, i: nat)
    requires i < |ps| && (ps[i].None? || NodeAt(v.root, ps[i].value).None?)
    ensures UnwrapFrom(v, ps, i) == Replayed(v, Failed(NotFound(ps[i])), [])
  {
    assert UnwrapAt(v, ps[i]) == Replayed(v, Failed(NotFound(ps[i])), []);
  }

  /** The unwrap match accepts an entry exactly when its path is one level below the target's. */
  lemma UnwrapMatchesChildren(target: Entry, e: Entry)
    ensures ChildOf(target)(e) <==> IsParent(target.path, e.path)
  {
    CompareZero(target.path, e.path);
  }

  /**
   * `unwrapNodes` in the editor. It sends what `UnwrapEffect` describes;
   * the caller's refs follow every operation sent; the refs it takes are
   * all released again when it finishes.
   */
  method UnwrapNodes(e: Editor, at: Option<Location>, matcher: Option<Entry -> bool>) returns (o: Outcome)
    requires e.Valid()
    modifies e, e.refs
    ensures e.Valid() && old(e.sent) <= e.sent
    ensures Replayed(e.View(), o, e.sent[|old(e.sent)|..]) == UnwrapEffect(old(e.View()), at, matcher)
    ensures forall r :: r in old(e.refs) ==>
      r.current == TransformAll(old(r.current), e.sent[|old(e.sent)|..]) && (r in e.refs <==> r.current.Some?)
    ensures forall r :: r in e.refs ==> r in old(e.refs) || fresh(r)
    ensures o.Done? ==> e.refs <= old(e.refs)
  {
    if at.None? {
      return Done;
    }
    var targets := Targets(e.root, at.value, matcher);
    if targets.Thrown? {
      return Failed(targets.message);
    }
    ghost var was := map r | r in e.refs :: r.current;
    ghost var keys := e.refs;
    var rs := NewRefs(e, Reversed(targets.value), was, [], keys);
    ghost var done;
    o, done := UnwrapEach(e, rs, was, UnwrapPaths(targets.value), keys);
    assert e.sent[|old(e.sent)|..] == done;
    forall r | r in old(e.refs)
      ensures r.current == TransformAll(old(r.current), done) && (r in e.refs <==> r.current.Some?)
    {
      assert r in was && was[r] == old(r.current);
    }
  }

  /** The loop of `unwrapNodes` over refs the transform took on `ps`. */
  method UnwrapEach(e: Editor, rs: seq<PathRef>, ghost was: map<PathRef, Option<Path>>, ghost ps: seq<Option<Path>>,
                    ghost keys: set<PathRef>)
    returns (o: Outcome, ghost done: seq<Operation>)
    requires e.Valid() && Follows(e, was, []) && Holds(e, was, rs, 0, ps) && Within(e, keys, rs, 0)
    requires forall j :: 0 <= j < |ps| ==> ps[j].Some?
    modifies e, e.refs
    ensures e.Valid() && Follows(e, was, done) && e.sent == old(e.sent) + done
    ensures Replayed(e.View(), o, done) == UnwrapFrom(old(e.View()), ps, 0)
    ensures o.Done? ==> e.refs <= keys
    ensures forall r :: r in e.refs ==> r in old(e.refs) || fresh(r)
  {
    ghost var expected := UnwrapFrom(e.View(), ps, 0);
    ghost var ps' := ps;
    done := [];
    o := Done;
    var i := 0;
    while i < |rs| && o.Done?
      invariant i <= |rs| && e.Valid() && Follows(e, was, done) && Holds(e, was, rs, i, ps')
      invariant e.sent == old(e.sent) + done
      invariant o.Done? ==> Within(e, keys, rs, i)
      invariant o.Done? ==> Then(Replayed(e.View(), Done, done), UnwrapFrom(e.View(), ps', i)) == expected
      invariant o.Failed? ==> Replayed(e.View(), o, done) == expected
      invariant forall r :: r in e.refs ==> r in old(e.refs) || fresh(r)
    {
      ghost var sent;
      o, sent := UnwrapNext(e, rs, i, was, ps', done, keys, expected);
      SentAssoc(old(e.sent), done, sent);
      done, ps' := done + sent, Carry(ps', sent);
      i := i + 1;
    }
  }

  /** One turn of the loop: the `i`-th ref is released and the node at its path unwrapped. */
  method UnwrapNext(e: Editor, rs: seq<PathRef>, i: nat, ghost was: map<PathRef, Option<Path>>,
                    ghost ps: seq<Option<Path>>, ghost done: seq<Operation>, ghost keys: set<PathRef>,
                    ghost expected: Replayed)
    returns (o: Outcome, ghost sent: seq<Operation>)
    requires i < |rs| && e.Valid() && Follows(e, was, done) && Holds(e, was, rs, i, ps) && Within(e, keys, rs, i)
    requires Then(Replayed(e.View(), Done, done), UnwrapFrom(e.View(), ps, i)) == expected
    modifies e, e.refs, rs[i]
    ensures e.Valid() && Follows(e, was, done + sent) && Holds(e, was, rs, i + 1, Carry(ps, sent))
    ensures e.sent == old(e.sent) + sent
    ensures o.Done? ==> Within(e, keys, rs, i + 1) && e.refs <= old(e.refs)
    ensures o.Done? ==> Then(Replayed(e.View(), Done, done + sent), UnwrapFrom(e.View(), Carry(ps, sent), i + 1)) == expected
    ensures o.Failed? ==> Replayed(e.View(), o, done + sent) == expected
    ensures forall r :: r in e.refs ==> r in old(e.refs) || fresh(r)
  {
    ghost var v := e.View();
    var path := Release(e, rs, i, was, ps, done, keys);
    CarryNone(ps);
    assert done + [] == done;
    ghost var step := UnwrapAt(v, path);
    ThenStep(v, done, step, UnwrapFrom(step.view, Carry(ps, step.sent), i + 1));
    if path.None? {
      return OnError(ErrorContext("unwrapNodes.node", NotFound(path))), [];
    }
    var entry := NodeEntry(e.root, path.value, None);
    if entry.value.None? {
      return OnError(ErrorContext("unwrapNodes.node", NotFound(path))), [];
    }
    o, sent := LiftCarrying(e, path.value, ChildOf(entry.value.value), was, rs, i + 1, ps, done, keys);
  }

  /** `liftNodes` at one path while the unwrap's own refs are held: they follow its operations too. */
  method LiftCarrying(e: Editor, path: Path, matcher: Entry -> bool, ghost was: map<PathRef, Option<Path>>,
                      ghost rs: seq<PathRef>, ghost i: nat, ghost ps: seq<Option<Path>>, ghost done: seq<Operation>,
                      ghost keys: set<PathRef>)
    returns (o: Outcome, ghost sent: seq<Operation>)
    requires e.Valid() && Follows(e, was, done) && Holds(e, was, rs, i, ps) && Within(e, keys, rs, i)
    modifies e, e.refs
    ensures e.Valid() && Follows(e, was, done + sent) && Holds(e, was, rs, i, Carry(ps, sent))
    ensures e.sent == old(e.sent) + sent
    ensures Replayed(e.View(), o, sent) == LiftEffect(old(e.View()), Some(PathAt(path)), Some(matcher))
    ensures o.Done? ==> Within(e, keys, rs, i) && e.refs <= old(e.refs)
    ensures forall r :: r in e.refs ==> r in old(e.refs) || fresh(r)
  {
    o := LiftNodes(e, Some(PathAt(path)), Some(matcher));
    sent := e.sent[|old(e.sent)|..];
    assert e.sent == old(e.sent) + sent;
    forall r | r in was
      ensures r.current == TransformAll(was[r], done + sent) && (r in e.refs <==> r.current.Some?)
    {
      TransformAllConcat(was[r], done, sent);
      if r !in old(e.refs) {
        TransformAllGone(sent);
      }
    }
    forall j | i <= j < |rs|
      ensures rs[j].current == Carry(ps, sent)[j] && (rs[j] in e.refs <==> Carry(ps, sent)[j].Some?)
    {
      if rs[j] !in old(e.refs) {
        TransformAllGone(sent);
      }
    }
  }
}
