/**
 * `insertNodes`: the nodes go in one `insert_node` each, in order, into
 * consecutive slots starting at the target path.
 */
module InsertNodesTransform {
  import opened Wrappers
  import opened TreeElements
  import opened TreePaths
  import opened TreeNodes
  import opened TreeOperations
  import opened PathTransform
  import opened EditorQueries
  import opened OnErrors
  import opened Editors
  import opened TransformSupport

  /** The node argument: one node or a list of them. */
  datatype NodeOrNodes = OneNode(node: Node) | NodeList(nodes: seq<Node>)

  /** `castArray`: a single node becomes a list of one. */
  function CastArray(x: NodeOrNodes): seq<Node>
  {
    match x
    case OneNode(n) => [n]
    case NodeList(ns) => ns
  }

  /**
   * Where the first node goes: `at`, `[0]` when absent; with a `match`,
   * the path of the first entry the walk over that path accepts, if any.
   */
  function InsertTarget(root: Node, at: Option<Path>, matcher: Option<Entry -> bool>): (r: Path)
    ensures matcher.None? ==> r == if at.Some? then at.value else [0]
    ensures matcher.Some? ==> var a := if at.Some? then at.value else [0];
      r == a || (NodeAt(root, r).Some? && matcher.value(Entry(NodeAt(root, r).value, r)))
  {
    var a := if at.Some? then at.value else [0];
    if matcher.None? then a
    else match FindNode(root, Some(PathAt(a)), matcher, false)
      case None => a
      case Some(entry) => entry.path
  }

  /** The `insert_node` operations: the `k`-th node at `parent ++ [index + k]`. */
  function InsertOps(nodes: seq<Node>, parent: Path, index: int): (ops: seq<Operation>)
    ensures |ops| == |nodes|
    decreases |nodes|
  {
    if |nodes| == 0 then []
    else [InsertNode(nodes[0], parent + [index])] + InsertOps(nodes[1..], parent, index + 1)
  }

  /**
   * `insertNodes(editor, nodes, { at, match })`: nothing for no nodes, the
   * `insertNodes.parent` report for the root path, and otherwise each
   * insertion in turn until one fails.
   */
  function InsertEffect(v: EditorView, nodes: NodeOrNodes, at: Option<Path>, matcher: Option<Entry -> bool>): (r: Replayed)
    ensures |CastArray(nodes)| == 0 ==> r == Replayed(v, Done, [])
    ensures var target := InsertTarget(v.root, at, matcher);
      |CastArray(nodes)| > 0 && |target| == 0 ==> r == Replayed(v, Failed("Cannot find the parent path"), [])
    ensures var target := InsertTarget(v.root, at, matcher);
      |CastArray(nodes)| > 0 && |target| > 0 ==>
        r == Replay(v, InsertOps(CastArray(nodes), target[..|target| - 1], target[|target| - 1]))
  {
    var ns := CastArray(nodes);
    if |ns| == 0 then Replayed(v, Done, [])
    else
      var target := InsertTarget(v.root, at, matcher);
      match Parent(target)
      case None => Replayed(v, OnError(ErrorContext("insertNodes.parent", "Cannot find the parent path")), [])
      case Some(parent) => Replay(v, InsertOps(ns, parent, Last(target).value))
  }

  /**
   * What the insertions send: the operations in input order, the `k`-th
   * node at `parent ++ [index + k]`, all of them unless one fails, and then
   * that one last.
   */
  lemma {:induction false} InsertRunSends(v: EditorView, ns: seq<Node>, parent: Path, index: int)
    ensures var r := Replay(v, InsertOps(ns, parent, index));
      |r.sent| <= |ns| && (r.outcome.Done? ==> |r.sent| == |ns|) &&
      forall k :: 0 <= k < |r.sent| ==> r.sent[k] == InsertNode(ns[k], parent + [index + k])
  {
    var ops := InsertOps(ns, parent, index);
    ReplaySent(v, ops, 0);
    assert ops[0..] == ops;
    var sent := Replay(v, ops).sent;
    forall k | 0 <= k < |sent|
      ensures sent[k] == InsertNode(ns[k], parent + [index + k])
    {
      PrefixAt(sent, ops, k);
      InsertOpAt(ns, parent, index, k);
    }
  }

  /** The `k`-th insertion puts the `k`-th node at `parent ++ [index + k]`. */
  lemma {:induction false} InsertOpAt(ns: seq<Node>, parent: Path, index: int, k: nat)
    requires k < |ns|
    ensures InsertOps(ns, parent, index)[k] == InsertNode(ns[k], parent + [index + k])
    decreases k
  {
    if k > 0 {
      InsertOpAt(ns[1..], parent, index + 1, k - 1);
    }
  }

  /** The same, for the index the loop keeps beside `k`. */
  lemma {:induction false} InsertOpIs(ns: seq<Node>, parent: Path, index: int, k: nat, at: int)
    requires k < |ns| && at == index + k
    ensures InsertOps(ns, parent, index)[k] == InsertNode(ns[k], parent + [at])
  {
    InsertOpAt(ns, parent, index, k);
  }

  /** A prefix agrees with the whole list on its own indices. */
  lemma PrefixAt(s: seq<Operation>, t: seq<Operation>, k: nat)
    requires s <= t && k < |s|
    ensures s[k] == t[k]
  {
  }

  /** `insertNodes` in the editor: it sends what `InsertEffect` describes, and every live ref follows. */
  method InsertNodes(e: Editor, nodes: NodeOrNodes, at: Option<Path>, matcher: Option<Entry -> bool>)
    returns (o: Outcome)
    requires e.Valid()
    modifies e, e.refs
    ensures e.Valid() && old(e.sent) <= e.sent
    ensures Replayed(e.View(), o, e.sent[|old(e.sent)|..]) == InsertEffect(old(e.View()), nodes, at, matcher)
    ensures forall r :: r in old(e.refs) ==>
      r.current == TransformAll(old(r.current), e.sent[|old(e.sent)|..]) && (r in e.refs <==> r.current.Some?)
    ensures e.refs <= old(e.refs)
  {
    var ns := CastArray(nodes);
    if |ns| == 0 {
      return Done;
    }
    var target := if at.Some? then at.value else [0];
    if matcher.Some? {
      var found := FindNode(e.root, Some(PathAt(target)), matcher, false);
      if found.Some? {
        target := found.value.path;
      }
    }
    assert target == InsertTarget(e.root, at, matcher);
    var parent := Parent(target);
    if parent.None? {
      return OnError(ErrorContext("insertNodes.parent", "Cannot find the parent path"));
    }
    // `next(at)` of a path that has a parent always exists, so the
    // `insertNodes.next` report cannot happen; `at` is not used afterwards.
    o := InsertEach(e, ns, parent.value, Last(target).value);
  }

  /** The loop of `insertNodes`: the `k`-th node goes in at `parent ++ [index + k]`. */
  method InsertEach(e: Editor, ns: seq<Node>, parent: Path, index: int) returns (o: Outcome)
    requires e.Valid()
    modifies e, e.refs
    ensures e.Valid() && old(e.sent) <= e.sent
    ensures Replayed(e.View(), o, e.sent[|old(e.sent)|..]) == Replay(old(e.View()), InsertOps(ns, parent, index))
    ensures forall r :: r in old(e.refs) ==>
      r.current == TransformAll(old(r.current), e.sent[|old(e.sent)|..]) && (r in e.refs <==> r.current.Some?)
    ensures e.refs <= old(e.refs)
  {
    var at := index;
    ghost var ops := InsertOps(ns, parent, index);
    ghost var was := map r | r in e.refs :: r.current;
    ghost var expected := Replay(e.View(), ops);
    ghost var done: seq<Operation> := [];
    assert e.Tracks(was, done);
    o := Done;
    var k := 0;
    while k < |ns| && o.Done?
      invariant k <= |ns| && at == index + k
      invariant e.Tracks(was, done) && e.sent == old(e.sent) + done
      invariant o.Done? ==> Then(Replayed(e.View(), Done, done), ReplayFrom(e.View(), ops, k)) == expected
      invariant o.Failed? ==> Replayed(e.View(), o, done) == expected
    {
      o := InsertNext(e, ns, parent, index, at, ops, k, was, done, expected);
      at := at + 1;
      SentAssoc(old(e.sent), done, [ops[k]]);
      done := done + [ops[k]];
      k := k + 1;
    }
    assert e.sent[|old(e.sent)|..] == done;
  }

  /** One turn of the loop: `editor.apply` of the `k`-th insertion, and where the run stands after it. */
  method InsertNext(e: Editor, ns: seq<Node>, parent: Path, index: int, at: int, ghost ops: seq<Operation>,
                    k: nat, ghost was: map<PathRef, Option<Path>>, ghost done: seq<Operation>, ghost expected: Replayed)
    returns (o: Outcome)
    requires k < |ns| && at == index + k && ops == InsertOps(ns, parent, index) && e.Tracks(was, done)
    requires Then(Replayed(e.View(), Done, done), ReplayFrom(e.View(), ops, k)) == expected
    modifies e, e.refs
    ensures e.Tracks(was, done + [ops[k]]) && e.sent == old(e.sent) + [ops[k]]
    ensures o.Done? ==> Then(Replayed(e.View(), Done, done + [ops[k]]), ReplayFrom(e.View(), ops, k + 1)) == expected
    ensures o.Failed? ==> Replayed(e.View(), o, done + [ops[k]]) == expected
  {
    ghost var v := e.View();
    var op := InsertNode(ns[k], parent + [at]);
    InsertOpIs(ns, parent, index, k, at);
    o := e.ApplyTracked(op, was, done);
    ReplayStep(v, ops, k, done, e.View(), o, expected);
  }
}
