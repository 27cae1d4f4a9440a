/**
 * `wrapNodes`: for each editor node the walk over `at` passes, the nodes
 * under it that `match` accepts are found; an empty wrapper element is
 * inserted after the last of them, at the depth just below the path they
 * share, and the node(s) at `at` are moved into the wrapper's first slot.
 */
module WrapNodesTransform {
  import opened Wrappers
  import opened TreeElements
  import opened TreePaths
  import opened TreeNodes
  import opened TreeOperations
  import opened PathTransform
  import opened EditorQueries
  import opened OnErrors
  import opened Editors
  import opened TransformSupport
  import opened InsertNodesTransform
  import opened MoveNodesTransform

  /** The `match` of the roots: `isEditor`. */
  function IsEditorEntry(e: Entry): bool
  {
    e.node.Editor?
  }

  /** `{ ...element, children: [] }`: the element's properties and no children. */
  function Wrapper(element: Node): (w: Node)
    ensures w.Element? && w.props == element.props && w.children == []
  {
    Element(element.props, [])
  }

  /** What a turn does with its matches: nothing, a report, or a wrapper at a path. */
  datatype Wrapping = NoWrap | WrapFailed(report: ErrorContext) | WrapAfter(wrapperPath: Path)

  /**
   * The path the matches from `first` to `last` share: the parent of a
   * single match, the common initial segment of two.
   */
  function CommonPath(first: Path, last: Path): Option<Path>
  {
    if first == last then Parent(first) else Some(Common(first, last))
  }

  /**
   * Where the wrapper of the matches goes: nowhere when none, or only the
   * editor, match; otherwise one past the last match's ancestor just below
   * the path they share.
   */
  function WrappingOf(matches: seq<Entry>): Wrapping
  {
    if |matches| == 0 then NoWrap
    else
      var first := matches[0].path;
      var last := matches[|matches| - 1].path;
      if |first| == 0 && |last| == 0 then NoWrap
      else match CommonPath(first, last)
        case None => WrapFailed(ErrorContext("wrapNodes.commonPath", "Could not find commonPath"))
        case Some(common) =>
          match Next(SliceTo(last, |common| + 1))
          case None => WrapFailed(ErrorContext("wrapNodes.wrapperPath", "Could not find wrapperPath"))
          case Some(wrapperPath) => WrapAfter(wrapperPath)
  }

  /**
   * The wrapper is inserted at `wrapperPath`, and the nodes at `at` (with
   * the default match, not the caller's) are moved into its first slot,
   * the move only when the insertion went through.
   */
  function WrapInto(v: EditorView, wrapperPath: Path, element: Node, at: Location): Replayed
  {
    var inserted := InsertEffect(v, OneNode(Wrapper(element)), Some(wrapperPath), None);
    if inserted.outcome.Failed? then inserted
    else Then(inserted, MoveEffect(inserted.view, Some(at), wrapperPath + [0], None))
  }

  /** One turn for an editor node at `rootPath`: the walk over it with `keep`, then what its matches call for. */
  function WrapAt(v: EditorView, rootPath: Path, keep: Entry -> bool, element: Node, at: Location): Replayed
  {
    match WrappingOf(EditorNodes(v.root, Some(PathAt(rootPath)), Some(keep), false))
    case NoWrap => Replayed(v, Done, [])
    case WrapFailed(report) => Replayed(v, OnError(report), [])
    case WrapAfter(wrapperPath) => WrapInto(v, wrapperPath, element, at)
  }

  /** The loop from the `i`-th root on; each turn walks the tree as the earlier turns left it. */
  function WrapFrom(v: EditorView, roots: seq<Entry>, i: nat, keep: Entry -> bool, element: Node, at: Location): Replayed
    decreases |roots| - i
  {
    if i >= |roots| then Replayed(v, Done, [])
    else
      var step := WrapAt(v, roots[i].path, keep, element, at);
      if step.outcome.Failed? then step
      else Then(step, WrapFrom(step.view, roots, i + 1, keep, element, at))
  }

  /**
   * `wrapNodes(editor, element, { at, match })`: nothing without `at`; the
   * default match is resolved (and may throw); the roots are collected
   * once, before any turn.
   */
  function WrapEffect(v: EditorView, element: Node, at: Option<Location>, matcher: Option<Entry -> bool>): Replayed
  {
    if at.None? then Replayed(v, Done, [])
    else match DefaultMatch(v.root, at.value, matcher)
      case Thrown(m) => Replayed(v, Failed(m), [])
      case Ok(keep) =>
        WrapFrom(v, EditorNodes(v.root, Some(at.value), Some(IsEditorEntry), false), 0, keep, element, at.value)
  }

  /**
   * A single match at a path other than the root gets its wrapper just
   * after it, among its siblings.
   */
  lemma {:induction false} WrapSingle(matches: seq<Entry>)
    requires |matches| == 1 && |matches[0].path| > 0
    ensures var p := matches[0].path;
      WrappingOf(matches) == WrapAfter(p[..|p| - 1] + [p[|p| - 1] + 1])
  {
    var p := matches[0].path;
    assert CommonPath(p, p) == Some(p[..|p| - 1]);
    assert SliceTo(p, |p|) == p;
  }

  /**
   * For matches from `first` to a different `last` that is not an initial
   * segment of it, the wrapper is a child of the path they share, right
   * after the last match's ancestor at that depth.
   */
  lemma {:induction false} WrapperAfterLast(matches: seq<Entry>)
    requires |matches| > 0
    requires var first := matches[0].path; var last := matches[|matches| - 1].path;
      first != last && !IsPrefix(last, first)
    ensures var first := matches[0].path; var last := matches[|matches| - 1].path;
      var common := Common(first, last);
      WrappingOf(matches).WrapAfter? &&
      var w := WrappingOf(matches).wrapperPath;
      |w| == |common| + 1 && w[..|common|] == common && w[|common|] == last[|common|] + 1
  {
    var first := matches[0].path;
    var last := matches[|matches| - 1].path;
    var common := Common(first, last);
    CommonBelowLast(first, last);
    assert SliceTo(last, |common| + 1) == last[..|common| + 1];
    assert last[..|common| + 1][..|common|] == common;
  }

  /** The shared path of two paths, the second not a prefix of the first, is a strict prefix of the second. */
  lemma {:induction false} CommonBelowLast(first: Path, last: Path)
    requires first != last && !IsPrefix(last, first)
    ensures |Common(first, last)| < |last| && last[..|Common(first, last)|] == Common(first, last)
    decreases |first|
  {
    if |first| > 0 && |last| > 0 && first[0] == last[0] {
      SameHead(first, last);
      CommonBelowLast(first[1..], last[1..]);
      assert last[..|Common(first, last)|] == [last[0]] + last[1..][..|Common(first[1..], last[1..])|];
    }
  }

  /** Two paths with the same first index compare as their tails do. */
  lemma SameHead(a: Path, b: Path)
    requires |a| > 0 && |b| > 0 && a[0] == b[0]
    ensures a == b <==> a[1..] == b[1..]
    ensures IsPrefix(b, a) <==> IsPrefix(b[1..], a[1..])
  {
    assert a == [a[0]] + a[1..] && b == [b[0]] + b[1..];
    if |b| <= |a| {
      assert a[..|b|] == [a[0]] + a[1..][..|b| - 1];
    }
  }

  /**
   * `wrapNodes` in the editor. It sends what `WrapEffect` describes, and
   * the caller's refs follow every operation sent; it takes no refs of
   * its own, but the moves it makes release theirs only when they finish.
   */
  method WrapNodes(e: Editor, element: Node, at: Option<Location>, matcher: Option<Entry -> bool>) returns (o: Outcome)
    requires e.Valid()
    modifies e, e.refs
    ensures e.Valid() && old(e.sent) <= e.sent
    ensures Replayed(e.View(), o, e.sent[|old(e.sent)|..]) == WrapEffect(old(e.View()), element, at, matcher)
    ensures forall r :: r in old(e.refs) ==>
      r.current == TransformAll(old(r.current), e.sent[|old(e.sent)|..]) && (r in e.refs <==> r.current.Some?)
    ensures forall r :: r in e.refs ==> r in old(e.refs) || fresh(r)
    ensures o.Done? ==> e.refs <= old(e.refs)
  {
    if at.None? {
      return Done;
    }
    var keep := DefaultMatch(e.root, at.value, matcher);
    if keep.Thrown? {
      return Failed(keep.message);
    }
    var roots := EditorNodes(e.root, Some(at.value), Some(IsEditorEntry), false);
    ghost var was := map r | r in e.refs :: r.current;
    ghost var done;
    o, done := WrapEach(e, roots, keep.value, element, at.value, was);
    assert e.sent[|old(e.sent)|..] == done;
    forall r | r in old(e.refs)
      ensures r.current == TransformAll(old(r.current), done) && (r in e.refs <==> r.current.Some?)
    {
      assert r in was && was[r] == old(r.current);
    }
  }

  /** The loop of `wrapNodes` over the roots. */
  method WrapEach(e: Editor, roots: seq<Entry>, keep: Entry -> bool, element: Node, at: Location,
                  ghost was: map<PathRef, Option<Path>>)
    returns (o: Outcome, ghost done: seq<Operation>)
    requires e.Valid() && Follows(e, was, [])
    modifies e, e.refs
    ensures e.Valid() && Follows(e, was, done) && e.sent == old(e.sent) + done
    ensures Replayed(e.View(), o, done) == WrapFrom(old(e.View()), roots, 0, keep, element, at)
    ensures o.Done? ==> e.refs <= old(e.refs)
    ensures forall r :: r in e.refs ==> r in old(e.refs) || fresh(r)
  {
    ghost var expected := WrapFrom(e.View(), roots, 0, keep, element, at);
    done := [];
    o := Done;
    var i := 0;
    while i < |roots| && o.Done?
      invariant i <= |roots| && e.Valid() && Follows(e, was, done)
      invariant e.sent == old(e.sent) + done
      invariant o.Done? ==> e.refs <= old(e.refs)
      invariant o.Done? ==> Then(Replayed(e.View(), Done, done), WrapFrom(e.View(), roots, i, keep, element, at)) == expected
      invariant o.Failed? ==> Replayed(e.View(), o, done) == expected
      invariant forall r :: r in e.refs ==> r in old(e.refs) || fresh(r)
    {
      ghost var v := e.View();
      ghost var step := WrapAt(v, roots[i].path, keep, element, at);
      ThenStep(v, done, step, WrapFrom(step.view, roots, i + 1, keep, element, at));
      ghost var sent;
      o, sent := WrapStep(e, roots[i].path, keep, element, at, was, done);
      SentAssoc(old(e.sent), done, sent);
      done := done + sent;
      i := i + 1;
    }
  }

  /** One turn of the loop, as `WrapAt` describes. */
  method WrapStep(e: Editor, rootPath: Path, keep: Entry -> bool, element: Node, at: Location,
                  ghost was: map<PathRef, Option<Path>>, ghost done: seq<Operation>)
    returns (o: Outcome, ghost sent: seq<Operation>)
    requires e.Valid() && Follows(e, was, done)
    modifies e, e.refs
    ensures e.Valid() && Follows(e, was, done + sent) && e.sent == old(e.sent) + sent
    ensures Replayed(e.View(), o, sent) == WrapAt(old(e.View()), rootPath, keep, element, at)
    ensures o.Done? ==> e.refs <= old(e.refs)
    ensures forall r :: r in e.refs ==> r in old(e.refs) || fresh(r)
  {
    assert done + [] == done;
    var matches := EditorNodes(e.root, Some(PathAt(rootPath)), Some(keep), false);
    var place := WrappingOf(matches);
    if place.NoWrap? {
      return Done, [];
    }
    if place.WrapFailed? {
      return OnError(place.report), [];
    }
    o, sent := WrapIntoStep(e, place.wrapperPath, element, at, was, done);
  }

  /** The insertion of the wrapper and the move into it, as `WrapInto` describes. */
  method WrapIntoStep(e: Editor, wrapperPath: Path, element: Node, at: Location,
                      ghost was: map<PathRef, Option<Path>>, ghost done: seq<Operation>)
    returns (o: Outcome, ghost sent: seq<Operation>)
    requires e.Valid() && Follows(e, was, done)
    modifies e, e.refs
    ensures e.Valid() && Follows(e, was, done + sent) && e.sent == old(e.sent) + sent
    ensures Replayed(e.View(), o, sent) == WrapInto(old(e.View()), wrapperPath, element, at)
    ensures o.Done? ==> e.refs <= old(e.refs)
    ensures forall r :: r in e.refs ==> r in old(e.refs) || fresh(r)
  {
    ghost var inserted;
    o, inserted := InsertFollowing(e, Wrapper(element), wrapperPath, was, done);
    if o.Failed? {
      return o, inserted;
    }
    ghost var moved;
    o, moved := MoveFollowing(e, at, wrapperPath + [0], was, done + inserted);
    SentAssoc(old(e.sent), inserted, moved);
    SentAssoc(done, inserted, moved);
    sent := inserted + moved;
  }

  /** `insertNodes` of the wrapper, with the caller's refs following its operations. */
  method InsertFollowing(e: Editor, wrapper: Node, path: Path, ghost was: map<PathRef, Option<Path>>,
                         ghost done: seq<Operation>)
    returns (o: Outcome, ghost sent: seq<Operation>)
    requires e.Valid() && Follows(e, was, done)
    modifies e, e.refs
    ensures e.Valid() && Follows(e, was, done + sent) && e.sent == old(e.sent) + sent
    ensures Replayed(e.View(), o, sent) == InsertEffect(old(e.View()), OneNode(wrapper), Some(path), None)
    ensures e.refs <= old(e.refs)
  {
    o := InsertNodes(e, OneNode(wrapper), Some(path), None);
    sent := e.sent[|old(e.sent)|..];
    assert e.sent == old(e.sent) + sent;
    forall r | r in was
      ensures r.current == TransformAll(was[r], done + sent) && (r in e.refs <==> r.current.Some?)
    {
      TransformAllConcat(was[r], done, sent);
      if r !in old(e.refs) {
        TransformAllGone(sent);
      }
    }
  }

  /** `moveNodes` of the nodes at `at` into the wrapper, with the caller's refs following its operations. */
  method MoveFollowing(e: Editor, at: Location, to: Path, ghost was: map<PathRef, Option<Path>>,
                       ghost done: seq<Operation>)
    returns (o: Outcome, ghost sent: seq<Operation>)
    requires e.Valid() && Follows(e, was, done)
    modifies e, e.refs
    ensures e.Valid() && Follows(e, was, done + sent) && e.sent == old(e.sent) + sent
    ensures Replayed(e.View(), o, sent) == MoveEffect(old(e.View()), Some(at), to, None)
    ensures o.Done? ==> e.refs <= old(e.refs)
    ensures forall r :: r in e.refs ==> r in old(e.refs) || fresh(r)
  {
    o := MoveNodes(e, Some(at), to, None);
    sent := e.sent[|old(e.sent)|..];
    assert e.sent == old(e.sent) + sent;
    forall r | r in was
      ensures r.current == TransformAll(was[r], done + sent) && (r in e.refs <==> r.current.Some?)
    {
      TransformAllConcat(was[r], done, sent);
      if r !in old(e.refs) {
        TransformAllGone(sent);
      }
    }
  }
}
