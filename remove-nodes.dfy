/**
 * `removeNodes`: a ref is taken on every target first; then, ref by ref,
 * the path the ref still holds is released and the node found there is
 * removed with one `remove_node`.
 */
module RemoveNodesTransform {
  import opened Wrappers
  import opened Text
  import opened TreeElements
  import opened TreePaths
  import opened TreeNodes
  import opened TreeOperations
  import opened PathTransform
  import opened EditorQueries
  import opened OnErrors
  import opened Editors
  import opened TransformSupport

  /** The report of a ref whose path holds no node. */
  function NotFound(path: Path): string
  {
    "Cannot remove node at path " + Bracketed(path) + " because it could not be found."
  }

  /**
   * One turn of the loop, for the path a ref gave back: nothing for a
   * released ref, the `removeNodes.node` report when no node is there, and
   * otherwise the `remove_node` of the node found there.
   */
  function RemoveAt(v: EditorView, p: Option<Path>): (r: Replayed)
    ensures p.None? ==> r == Replayed(v, Done, [])
    ensures p.Some? && NodeAt(v.root, p.value).None? ==>
      r == Replayed(v, Failed(NotFound(p.value)), [])
    ensures p.Some? && NodeAt(v.root, p.value).Some? ==>
      r == ApplyEffect(v, RemoveNode(NodeAt(v.root, p.value).value, p.value))
  {
    if p.None? then Replayed(v, Done, [])
    else match NodeAt(v.root, p.value)
      case None => Replayed(v, OnError(ErrorContext("removeNodes.node", NotFound(p.value))), [])
      case Some(n) => ApplyEffect(v, RemoveNode(n, p.value))
  }

  /** The loop from the `i`-th ref on; `ps` are the paths the refs hold by then. */
  function RemoveFrom(v: EditorView, ps: seq<Option<Path>>, i: nat): Replayed
    decreases |ps| - i
  {
    if i >= |ps| then Replayed(v, Done, [])
    else
      var step := RemoveAt(v, ps[i]);
      if step.outcome.Failed? then step
      else Then(step, RemoveFrom(step.view, Carry(ps, step.sent), i + 1))
  }

  /** `removeNodes(editor, { at, match })`: nothing without `at`, else the loop over the targets' refs. */
  function RemoveEffect(v: EditorView, at: Option<Location>, matcher: Option<Entry -> bool>): Replayed
  {
    if at.None? then Replayed(v, Done, [])
    else match Targets(v.root, at.value, matcher)
      case Thrown(m) => Replayed(v, Failed(m), [])
      case Ok(entries) => RemoveFrom(v, PathsOf(entries), 0)
  }

  /**
   * Every operation the loop sends is a `remove_node`, at most one per ref,
   * of the node found at that path when it is sent.
   */
  lemma {:induction false} RemoveFromSends(v: EditorView, ps: seq<Option<Path>>, i: nat)
    requires i <= |ps|
    ensures |RemoveFrom(v, ps, i).sent| <= |ps| - i
    ensures forall k :: 0 <= k < |RemoveFrom(v, ps, i).sent| ==> RemoveFrom(v, ps, i).sent[k].RemoveNode?
    decreases |ps| - i
  {
    if i < |ps| {
      var step := RemoveAt(v, ps[i]);
      if step.outcome.Done? {
        RemoveFromSends(step.view, Carry(ps, step.sent), i + 1);
      }
    }
  }

  /** Everything `removeNodes` sends is a `remove_node`, at most one per target. */
  lemma {:induction false} RemoveSendsRemovals(v: EditorView, at: Option<Location>, matcher: Option<Entry -> bool>)
    ensures var r := RemoveEffect(v, at, matcher);
      forall k :: 0 <= k < |r.sent| ==> r.sent[k].RemoveNode?
    ensures at.Some? && Targets(v.root, at.value, matcher).Ok? ==>
      |RemoveEffect(v, at, matcher).sent| <= |Targets(v.root, at.value, matcher).value|
  {
    if at.Some? && Targets(v.root, at.value, matcher).Ok? {
      RemoveFromSends(v, PathsOf(Targets(v.root, at.value, matcher).value), 0);
    }
  }

  /**
   * With no `match`, removing at a path that holds a node sends exactly the
   * `remove_node` of that node, and ends as that one `apply` ends.
   */
  lemma {:induction false} RemoveSingle(v: EditorView, p: Path)
    requires NodeAt(v.root, p).Some?
    ensures RemoveEffect(v, Some(PathAt(p)), None) == ApplyEffect(v, RemoveNode(NodeAt(v.root, p).value, p))
  {
    var n := NodeAt(v.root, p).value;
    SingleTarget(v.root, p);
    var ps := PathsOf([Entry(n, p)]);
    assert ps == [Some(p)];
    var step := RemoveAt(v, ps[0]);
    if step.outcome.Done? {
      assert RemoveFrom(step.view, Carry(ps, step.sent), 1) == Replayed(step.view, Done, []);
      assert step.sent + [] == step.sent;
    }
  }

  /** Without a node at the path, the default `match` cannot be made: nothing is sent, and the run fails. */
  lemma {:induction false} RemoveMissing(v: EditorView, p: Path)
    requires NodeAt(v.root, p).None?
    ensures RemoveEffect(v, Some(PathAt(p)), None).outcome.Failed?
    ensures RemoveEffect(v, Some(PathAt(p)), None).sent == [] && RemoveEffect(v, Some(PathAt(p)), None).view == v
  {
  }

  /** One turn of the loop in the editor: the `i`-th ref is released and its node removed. */
  method RemoveNext(e: Editor, rs: seq<PathRef>, i: nat, ghost was: map<PathRef, Option<Path>>,
                    ghost ps: seq<Option<Path>>, ghost done: seq<Operation>, ghost keys: set<PathRef>,
                    ghost expected: Replayed)
    returns (o: Outcome, ghost sent: seq<Operation>)
    requires i < |rs| && e.Valid() && Follows(e, was, done) && Holds(e, was, rs, i, ps) && Within(e, keys, rs, i)
    requires Then(Replayed(e.View(), Done, done), RemoveFrom(e.View(), ps, i)) == expected
    modifies e, e.refs, rs[i]
    ensures e.Valid() && Follows(e, was, done + sent) && Holds(e, was, rs, i + 1, Carry(ps, sent))
    ensures e.sent == old(e.sent) + sent && Within(e, keys, rs, i + 1) && e.refs <= old(e.refs)
    ensures o.Done? ==> Then(Replayed(e.View(), Done, done + sent), RemoveFrom(e.View(), Carry(ps, sent), i + 1)) == expected
    ensures o.Failed? ==> Replayed(e.View(), o, done + sent) == expected
  {
    ghost var v := e.View();
    var path := Release(e, rs, i, was, ps, done, keys);
    ghost var step := RemoveAt(v, ps[i]);
    ThenStep(v, done, step, RemoveFrom(step.view, Carry(ps, step.sent), i + 1));
    CarryNone(ps);
    assert done + [] == done;
    if path.None? {
      return Done, [];
    }
    var entry := NodeEntry(e.root, path.value, None);
    if entry.value.None? {
      o, sent := OnError(ErrorContext("removeNodes.node", NotFound(path.value))), [];
      return;
    }
    var op := RemoveNode(entry.value.value.node, path.value);
    o := ApplyCarrying(e, op, was, rs, i + 1, ps, done);
    sent := [op];
  }

  /** The loop of `removeNodes` over refs the transform took on `ps`. */
  method RemoveEach(e: Editor, rs: seq<PathRef>, ghost was: map<PathRef, Option<Path>>, ghost ps: seq<Option<Path>>,
                    ghost keys: set<PathRef>)
    returns (o: Outcome, ghost done: seq<Operation>)
    requires e.Valid() && Follows(e, was, []) && Holds(e, was, rs, 0, ps) && Within(e, keys, rs, 0)
    requires forall j :: 0 <= j < |ps| ==> ps[j].Some?
    modifies e, e.refs
    ensures e.Valid() && Follows(e, was, done) && e.sent == old(e.sent) + done
    ensures Replayed(e.View(), o, done) == RemoveFrom(old(e.View()), ps, 0)
    ensures o.Done? ==> e.refs <= keys
    ensures forall r :: r in e.refs ==> r in old(e.refs)
  {
    ghost var expected := RemoveFrom(e.View(), ps, 0);
    ghost var ps' := ps;
    done := [];
    o := Done;
    var i := 0;
    while i < |rs| && o.Done?
      invariant i <= |rs| && e.Valid() && Follows(e, was, done) && Holds(e, was, rs, i, ps')
      invariant e.sent == old(e.sent) + done
      invariant o.Done? ==> Within(e, keys, rs, i)
      invariant o.Done? ==> Then(Replayed(e.View(), Done, done), RemoveFrom(e.View(), ps', i)) == expected
      invariant o.Failed? ==> Replayed(e.View(), o, done) == expected
      invariant forall r :: r in e.refs ==> r in old(e.refs)
    {
      ghost var sent;
      o, sent := RemoveNext(e, rs, i, was, ps', done, keys, expected);
      SentAssoc(old(e.sent), done, sent);
      done, ps' := done + sent, Carry(ps', sent);
      i := i + 1;
    }
  }

  /**
   * `removeNodes` in the editor. It sends what `RemoveEffect` describes;
   * the caller's refs follow every operation sent; the refs it takes are
   * all released again when it finishes.
   */
  method RemoveNodes(e: Editor, at: Option<Location>, matcher: Option<Entry -> bool>) returns (o: Outcome)
    requires e.Valid()
    modifies e, e.refs
    ensures e.Valid() && old(e.sent) <= e.sent
    ensures Replayed(e.View(), o, e.sent[|old(e.sent)|..]) == RemoveEffect(old(e.View()), at, matcher)
    ensures forall r :: r in old(e.refs) ==>
      r.current == TransformAll(old(r.current), e.sent[|old(e.sent)|..]) && (r in e.refs <==> r.current.Some?)
    ensures forall r :: r in e.refs ==> r in old(e.refs) || fresh(r)
    ensures o.Done? ==> e.refs <= old(e.refs)
  {
    if at.None? {
      return Done;
    }
    var targets := Targets(e.root, at.value, matcher);
    if targets.Thrown? {
      return Failed(targets.message);
    }
    ghost var was := map r | r in e.refs :: r.current;
    ghost var keys := e.refs;
    var rs := NewRefs(e, targets.value, was, [], keys);
    ghost var done;
    o, done := RemoveEach(e, rs, was, PathsOf(targets.value), keys);
    assert e.sent[|old(e.sent)|..] == done;
  }
}
