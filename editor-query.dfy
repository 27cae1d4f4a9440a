/**
 * The editor's read queries: `path`, `node`, `parent`, `nodes`, `levels`,
 * `above`, `next`, `previous`, the default matcher `matchTreePath` and
 * `findNode`. Each reads a snapshot `root` of the document. A report to the
 * error policy becomes the answer the default `onError` gives: `Ok(None)`
 * (JavaScript's `undefined`) for the key `node`, a thrown error otherwise.
 */
module EditorQueries {
  import opened Wrappers
  import opened TreeElements
  import opened TreePaths
  import opened TreeNodes
  import opened TreeTraversal
  import opened OnErrors

  /** A location: a single path, or a span between two paths. */
  datatype Location = PathAt(path: Path) | SpanAt(from: Path, to: Path)

  /** A `match` option: absent, it accepts every entry. */
  function Keep(matcher: Option<Entry -> bool>): Entry -> bool
  {
    if matcher.Some? then matcher.value else (e: Entry) => true
  }

  // ----- path, node, parent -----

  /** `path(editor, at, { depth })`: `at`, cut to its first `depth` indexes when a depth is given. */
  function EditorPath(at: Path, depth: Option<int>): (r: Path)
    ensures IsPrefix(r, at)
    ensures depth.None? ==> r == at
    ensures depth.Some? && depth.value >= 0 ==> |r| == if depth.value <= |at| then depth.value else |at|
    ensures depth.Some? && depth.value < 0 ==> |r| == if |at| + depth.value < 0 then 0 else |at| + depth.value
  {
    if depth.Some? then SliceTo(at, depth.value) else at
  }

  /**
   * `node(editor, at, { depth })`: the node at the resolved path, paired
   * with that path. A missing node reports `node`, which the policy lets go
   * on with `undefined`. (The check for a missing resolved path cannot fail:
   * a path is always an array.)
   */
  function NodeEntry(root: Node, at: Path, depth: Option<int>): (r: Result<Option<Entry>>)
    ensures r.Ok?
    ensures r.value.Some? <==> NodeAt(root, EditorPath(at, depth)).Some?
    ensures r.value.Some? ==> r.value.value.path == EditorPath(at, depth) && IsPrefix(r.value.value.path, at)
    ensures r.value.Some? ==> NodeAt(root, r.value.value.path) == Some(r.value.value.node)
    ensures at == [] ==> r == Ok(Some(Entry(root, [])))
  {
    var path := EditorPath(at, depth);
    match NodeAt(root, path)
    case None => Report("node", "Cannot get the node")
    case Some(n) => Ok(Some(Entry(n, path)))
  }

  /**
   * `parent(editor, at, { depth })`: the entry at the parent of the
   * resolved path. The root path has no parent: that reports `parent`,
   * which throws.
   */
  function ParentEntry(root: Node, at: Path, depth: Option<int>): (r: Result<Option<Entry>>)
    ensures r.Thrown? <==> |EditorPath(at, depth)| == 0
    ensures r.Thrown? ==> r.message == "Cannot find the parent path"
    ensures r.Ok? && r.value.Some? ==>
      |r.value.value.path| + 1 == |EditorPath(at, depth)| && IsPrefix(r.value.value.path, EditorPath(at, depth))
    ensures r.Ok? && r.value.Some? ==> NodeAt(root, r.value.value.path) == Some(r.value.value.node)
    ensures r == Ok(None) <==>
      |EditorPath(at, depth)| > 0 && NodeAt(root, EditorPath(at, depth)[..|EditorPath(at, depth)| - 1]).None?
  {
    var path := EditorPath(at, depth);
    match TreePaths.Parent(path)
    case None => Report("parent", "Cannot find the parent path")
    case Some(q) => NodeEntry(root, q, None)
  }

  // ----- nodes -----

  /** Where the walk for a location starts: the path itself, or the span's first end. */
  function FromOf(at: Option<Location>): Path
  {
    match at
    case None => []
    case Some(PathAt(p)) => p
    case Some(SpanAt(f, _)) => f
  }

  /** Where the walk for a location ends: the path itself, or the span's second end. */
  function ToOf(at: Option<Location>): Path
  {
    match at
    case None => []
    case Some(PathAt(p)) => p
    case Some(SpanAt(_, t)) => t
  }

  /**
   * What the walk needs to end: in reverse, no negative index in the
   * starting path (with one, `nodes` would count down forever).
   */
  predicate ReadyAt(at: Option<Location>, reverse: bool)
  {
    reverse ==> forall j :: 0 <= j < |FromOf(at)| ==> FromOf(at)[j] >= 0
  }

  /** The options of the underlying walk: the location's bounds, and a `pass` that never prunes. */
  function NodesFor(at: Option<Location>, reverse: bool): (o: NodesOptions)
    ensures ReadyAt(at, reverse) ==> Ready(o)
    ensures forall e :: !o.pass(e)
  {
    NodesOptions(FromOf(at), Some(ToOf(at)), reverse, (e: Entry) => false)
  }

  /**
   * `nodes(editor, { at, matcher, reverse })`: the entries of the walk over
   * the location that `match` accepts. Each is a node at its own path, in
   * strictly increasing pre-order (so no path twice), inside the bounds;
   * for a single path that means the path's ancestors, itself and nodes
   * below it.
   */
  function EditorNodes(root: Node, at: Option<Location>, matcher: Option<Entry -> bool>, reverse: bool): (r: seq<Entry>)
    requires ReadyAt(at, reverse)
    ensures forall e :: e in r ==> NodeAt(root, e.path) == Some(e.node) && Keep(matcher)(e)
    ensures forall e :: e in Nodes(root, NodesFor(at, reverse)) && Keep(matcher)(e) ==> e in r
    ensures Ordered(reverse, r)
    ensures forall e :: e in r ==>
      if reverse then !IsAfter(e.path, FromOf(at)) && !IsBefore(e.path, ToOf(at))
      else !IsBefore(e.path, FromOf(at)) && !IsAfter(e.path, ToOf(at))
  {
    var o := NodesFor(at, reverse);
    NodesGuarantees(root, o);
    FilterOrdered(reverse, Nodes(root, o), Keep(matcher));
    Filter(Nodes(root, o), Keep(matcher))
  }

  /** For a single path, every entry lies on the line through it: an ancestor, the path, or below it. */
  lemma EditorNodesAtPath(root: Node, p: Path, matcher: Option<Entry -> bool>, reverse: bool, e: Entry)
    requires ReadyAt(Some(PathAt(p)), reverse)
    requires e in EditorNodes(root, Some(PathAt(p)), matcher, reverse)
    ensures IsPrefix(e.path, p) || IsPrefix(p, e.path)
  {
    CompareSwap(e.path, p);
    CompareZero(e.path, p);
  }

  /** With every entry accepted, filtering is the identity. */
  lemma {:induction false} FilterAll(s: seq<Entry>, keep: Entry -> bool)
    requires forall e :: keep(e)
    ensures Filter(s, keep) == s
  {
    if |s| > 0 {
      FilterAll(s[1..], keep);
    }
  }

  /** The first accepted entry of a list is the first entry of its filter. */
  lemma {:induction false} FilterFirst(s: seq<Entry>, keep: Entry -> bool, k: nat)
    requires k < |s| && keep(s[k])
    requires forall j :: 0 <= j < k ==> !keep(s[j])
    ensures |Filter(s, keep)| > 0 && Filter(s, keep)[0] == s[k]
    decreases k
  {
    if k > 0 {
      assert s[1..][k - 1] == s[k];
      assert forall j :: 0 <= j < k - 1 ==> s[1..][j] == s[j + 1];
      FilterFirst(s[1..], keep, k - 1);
    }
  }

  /**
   * For an existing path and no `match`, `nodes` begins with the levels of
   * the path: the root, the path's ancestors, then the path itself.
   */
  lemma EditorNodesBegin(root: Node, p: Path, reverse: bool)
    requires NodeAt(root, p).Some?
    ensures ReadyAt(Some(PathAt(p)), reverse)
    ensures |EditorNodes(root, Some(PathAt(p)), None, reverse)| > |p|
    ensures EditorNodes(root, Some(PathAt(p)), None, reverse)[..|p| + 1] == LevelEntries(root, p, false)
  {
    ExistingIndexes(root, p);
    var o := NodesFor(Some(PathAt(p)), reverse);
    NoPrefixStopped(o);
    NodesReachFrom(root, o);
    FilterAll(Nodes(root, o), Keep(None));
  }

  /** No prefix of `from` is past a bound equal to `from` or to the root path. */
  lemma NoPrefixStopped(o: NodesOptions)
    requires o.to.Some? && (o.to.value == o.from || o.to.value == [])
    ensures forall j :: 0 <= j <= |o.from| ==> !Stopped(o, o.from[..j])
  {
    forall j | 0 <= j <= |o.from|
      ensures !Stopped(o, o.from[..j])
    {
      CompareZero(o.from[..j], o.to.value);
    }
  }

  // ----- levels and above -----

  /** The entries of `levels` are exactly the existing prefixes of the path, shortest first. */
  lemma LevelEntriesAre(root: Node, p: Path)
    ensures forall e :: e in LevelEntries(root, p, false) <==> IsPrefix(e.path, p) && NodeAt(root, e.path) == Some(e.node)
    ensures Ordered(false, LevelEntries(root, p, false))
  {
    var r := LevelEntries(root, p, false);
    LevelEntriesDown(root, p);
    LevelsOrder(p, false);
    forall e: Entry | IsPrefix(e.path, p) && NodeAt(root, e.path) == Some(e.node)
      ensures e in r
    {
      var k := |e.path|;
      assert e.path == p[..k];
      NodeAtLonger(root, p, |r|, k);
      assert r[k] == e;
    }
    forall i, j | 0 <= i < j < |r|
      ensures PreLt(false, r[i].path, r[j].path)
    {
      CompareZero(p[..i], p[..j]);
    }
  }

  /**
   * `levels(editor, { at, matcher, reverse })`: the existing prefixes of
   * `at` that `match` accepts, shortest first, or deepest first under
   * `reverse`. Without `at`, nothing.
   */
  function EditorLevels(root: Node, at: Option<Path>, matcher: Option<Entry -> bool>, reverse: bool): (r: seq<Entry>)
    ensures at.None? ==> r == []
    ensures forall e :: e in r <==>
      at.Some? && IsPrefix(e.path, at.value) && NodeAt(root, e.path) == Some(e.node) && Keep(matcher)(e)
    ensures forall i, j :: 0 <= i < j < |r| ==>
      if reverse then |r[j].path| < |r[i].path| else |r[i].path| < |r[j].path|
  {
    if at.None? then []
    else
      var path := EditorPath(at.value, None);
      var all := LevelEntries(root, path, false);
      var levels := Filter(all, Keep(matcher));
      LevelEntriesAre(root, path);
      FilterOrdered(false, all, Keep(matcher));
      PrefixesDeepen(path, levels);
      ReversedMembers(levels);
      if reverse then Reversed(levels) else levels
  }

  /** Entries ordered along the prefixes of one path grow strictly longer. */
  lemma PrefixesDeepen(path: Path, s: seq<Entry>)
    requires Ordered(false, s) && forall e :: e in s ==> IsPrefix(e.path, path)
    ensures forall i, j :: 0 <= i < j < |s| ==> |s[i].path| < |s[j].path|
  {
    forall i, j | 0 <= i < j < |s|
      ensures |s[i].path| < |s[j].path|
    {
      assert s[i] in s && s[j] in s;
      CompareZero(s[i].path, s[j].path);
    }
  }

  /** How many entries at the start of `s` lie at `at` itself. */
  function LeadingAt(s: seq<Entry>, at: Path): (k: nat)
    ensures k <= |s|
    ensures forall j :: 0 <= j < k ==> s[j].path == at
    ensures k < |s| ==> s[k].path != at
  {
    if |s| == 0 || s[0].path != at then 0
    else
      var k := LeadingAt(s[1..], at);
      assert forall j :: 1 <= j < k + 1 ==> s[j] == s[1..][j - 1];
      k + 1
  }

  /** In a list getting shallower, the first entry past the leading `at` ones is the deepest other than `at`. */
  lemma LeadingDeepest(s: seq<Entry>, at: Path)
    requires forall i, j :: 0 <= i < j < |s| ==> |s[j].path| < |s[i].path|
    ensures LeadingAt(s, at) < |s| ==> forall e :: e in s && e.path != at ==> |e.path| <= |s[LeadingAt(s, at)].path|
    ensures LeadingAt(s, at) == |s| ==> forall e :: e in s ==> e.path == at
  {
    var k := LeadingAt(s, at);
    forall e | e in s
      ensures e.path != at ==> k < |s| && |e.path| <= |s[k].path|
    {
      var m :| 0 <= m < |s| && s[m] == e;
    }
  }

  /**
   * `above(editor, { at, match })`: the deepest existing strict ancestor
   * of `at` that `match` accepts (the first of the levels, deepest first,
   * whose path is not `at`); none without `at` or when there is none.
   */
  function Above(root: Node, at: Option<Path>, matcher: Option<Entry -> bool>): (r: Option<Entry>)
    ensures at.None? ==> r.None?
    ensures r.Some? ==> at.Some? && IsPrefix(r.value.path, at.value) && r.value.path != at.value
    ensures r.Some? ==> NodeAt(root, r.value.path) == Some(r.value.node) && Keep(matcher)(r.value)
    ensures at.Some? ==> forall e: Entry ::
      (IsPrefix(e.path, at.value) && e.path != at.value && NodeAt(root, e.path) == Some(e.node) && Keep(matcher)(e)) ==>
        r.Some? && |e.path| <= |r.value.path|
  {
    if at.None? then None
    else
      var levels := EditorLevels(root, at, matcher, true);
      var k := LeadingAt(levels, at.value);
      LeadingDeepest(levels, at.value);
      if k < |levels| then
        assert levels[k] in levels;
        Some(levels[k])
      else
        None
  }

  // ----- next and previous -----

  /** The default match of `next`/`previous`: the node is one of the parent's children. */
  function ChildOf(parent: Entry): Entry -> bool
  {
    (e: Entry) => |e.path| == |parent.path| + 1 && e.path[..|parent.path|] == parent.path
  }

  /** The first entry of a list, `undefined` for an empty one (`const [x] = list`). */
  function FirstOf(s: seq<Entry>): (r: Option<Entry>)
    ensures r.Some? <==> |s| > 0
    ensures r.Some? ==> r.value == s[0]
  {
    if |s| == 0 then None else Some(s[0])
  }

  /**
   * The `match` that `next`/`previous` use: the given one, or else the
   * children of the parent of `at`; none when that parent is missing.
   */
  function SiblingMatch(root: Node, at: Path, matcher: Option<Entry -> bool>): (r: Option<Entry -> bool>)
    requires |at| > 0
    ensures matcher.Some? ==> r == Some(matcher.value)
    ensures matcher.None? && NodeAt(root, at[..|at| - 1]).Some? ==>
      r == Some(ChildOf(Entry(NodeAt(root, at[..|at| - 1]).value, at[..|at| - 1])))
    ensures matcher.None? && NodeAt(root, at[..|at| - 1]).None? ==> r.None?
  {
    if matcher.Some? then Some(matcher.value)
    else
      match ParentEntry(root, at, None)
      case Ok(Some(parent)) => Some(ChildOf(parent))
      case _ => None
  }

  /**
   * `next(editor, { at, match })`: the first entry that `match` accepts
   * in the forward walk over the span from `at` to the path of
   * `last(editor, [])`, which is the root path, so the span has no end.
   * The walk starts at `at` itself. The root path reports `next.root`,
   * which throws.
   */
  function NextEntry(root: Node, at: Option<Path>, matcher: Option<Entry -> bool>): (r: Result<Option<Entry>>)
    ensures at.None? ==> r == Ok(None)
    ensures at.Some? && |at.value| == 0 ==> r == Thrown("Cannot get the next node")
    ensures at.Some? && |at.value| > 0 && matcher.None? && NodeAt(root, at.value[..|at.value| - 1]).None? ==>
      r == Thrown("Cannot get the parent node")
    ensures r.Ok? && r.value.Some? ==> at.Some? && NodeAt(root, r.value.value.path) == Some(r.value.value.node)
    ensures r.Ok? && r.value.Some? ==> !IsBefore(r.value.value.path, at.value)
    ensures r.Ok? && r.value.Some? && matcher.None? ==>
      |r.value.value.path| == |at.value| && r.value.value.path[..|at.value| - 1] == at.value[..|at.value| - 1]
  {
    if at.None? then Ok(None)
    else
      match NodeEntry(root, [], None)
      case Thrown(m) => Thrown(m)
      case Ok(None) => Report("next.last", "Cannot get the last node")
      case Ok(Some(toEntry)) =>
        var span := SpanAt(at.value, toEntry.path);
        if |at.value| == 0 then Report("next.root", "Cannot get the next node")
        else
          match SiblingMatch(root, at.value, matcher)
          case None => Report("next.parent", "Cannot get the parent node")
          case Some(keep) =>
            var found := FirstOf(EditorNodes(root, Some(span), Some(keep), false));
            assert found.Some? ==> found.value in EditorNodes(root, Some(span), Some(keep), false);
            Ok(found)
  }

  /**
   * `previous(editor, { at, match })`: as `next`, over the reverse walk
   * from `at` to the path of `first(editor, [])`, the root path. The root
   * path reports `previous.root`, which throws.
   */
  function PreviousEntry(root: Node, at: Option<Path>, matcher: Option<Entry -> bool>): (r: Result<Option<Entry>>)
    requires at.Some? ==> forall j :: 0 <= j < |at.value| ==> at.value[j] >= 0
    ensures at.None? ==> r == Ok(None)
    ensures at.Some? && |at.value| == 0 ==> r == Thrown("Cannot get the previous node from the root node!")
    ensures at.Some? && |at.value| > 0 && matcher.None? && NodeAt(root, at.value[..|at.value| - 1]).None? ==>
      r == Thrown("Cannot get the parent node")
    ensures r.Ok? && r.value.Some? ==> at.Some? && NodeAt(root, r.value.value.path) == Some(r.value.value.node)
    ensures r.Ok? && r.value.Some? ==> !IsAfter(r.value.value.path, at.value)
    ensures r.Ok? && r.value.Some? && matcher.None? ==>
      |r.value.value.path| == |at.value| && r.value.value.path[..|at.value| - 1] == at.value[..|at.value| - 1]
  {
    if at.None? then Ok(None)
    else
      match NodeEntry(root, [], None)
      case Thrown(m) => Thrown(m)
      case Ok(None) => Report("previous.first", "Cannot get the first node")
      case Ok(Some(firstEntry)) =>
        var span := SpanAt(at.value, firstEntry.path);
        if |at.value| == 0 then Report("previous.root", "Cannot get the previous node from the root node!")
        else
          match SiblingMatch(root, at.value, matcher)
          case None => Report("previous.parent", "Cannot get the parent node")
          case Some(keep) =>
            var found := FirstOf(EditorNodes(root, Some(span), Some(keep), true));
            assert found.Some? ==> found.value in EditorNodes(root, Some(span), Some(keep), true);
            Ok(found)
  }

  /**
   * With the default matcher, `next` of an existing non-root path is the
   * node at that path itself: the walk reaches `at` before any other
   * child of its parent.
   */
  lemma NextFindsAtItself(root: Node, at: Path)
    requires |at| > 0 && NodeAt(root, at).Some?
    ensures NextEntry(root, Some(at), None) == Ok(Some(Entry(NodeAt(root, at).value, at)))
  {
    SearchFindsAt(root, at, false);
  }

  /** In reverse too, `previous` of an existing non-root path is the node at that path itself. */
  lemma PreviousFindsAtItself(root: Node, at: Path)
    requires |at| > 0 && NodeAt(root, at).Some?
    ensures forall j :: 0 <= j < |at| ==> at[j] >= 0
    ensures PreviousEntry(root, Some(at), None) == Ok(Some(Entry(NodeAt(root, at).value, at)))
  {
    ExistingIndexes(root, at);
    SearchFindsAt(root, at, true);
  }

  /** The walk over the span from `at` to the root path, filtered to the children of `at`'s parent, finds `at` first. */
  lemma SearchFindsAt(root: Node, at: Path, reverse: bool)
    requires |at| > 0 && NodeAt(root, at).Some?
    ensures ReadyAt(Some(SpanAt(at, [])), reverse)
    ensures NodeAt(root, at[..|at| - 1]).Some?
    ensures var parent := Entry(NodeAt(root, at[..|at| - 1]).value, at[..|at| - 1]);
      FirstOf(EditorNodes(root, Some(SpanAt(at, [])), Some(ChildOf(parent)), reverse)) ==
        Some(Entry(NodeAt(root, at).value, at))
  {
    ExistingIndexes(root, at);
    NodeAtPrefix(root, at, |at| - 1);
    var parent := Entry(NodeAt(root, at[..|at| - 1]).value, at[..|at| - 1]);
    var keep := ChildOf(parent);
    var o := NodesFor(Some(SpanAt(at, [])), reverse);
    NoPrefixStopped(o);
    NodesReachFrom(root, o);
    LevelsFirstChild(root, at);
    FilterFirstOfPrefix(Nodes(root, o), LevelEntries(root, at, false), keep, |at|);
  }

  /** Along the levels of `at`, the first child of `at`'s parent is `at` itself. */
  lemma LevelsFirstChild(root: Node, at: Path)
    requires |at| > 0 && NodeAt(root, at).Some?
    ensures NodeAt(root, at[..|at| - 1]).Some?
    ensures var levels := LevelEntries(root, at, false);
      var keep := ChildOf(Entry(NodeAt(root, at[..|at| - 1]).value, at[..|at| - 1]));
      |levels| == |at| + 1 && levels[|at|] == Entry(NodeAt(root, at).value, at) && keep(levels[|at|]) &&
      forall j :: 0 <= j < |at| ==> !keep(levels[j])
  {
    NodeAtPrefix(root, at, |at| - 1);
    LevelEntriesDown(root, at);
    assert at[..|at|] == at;
  }

  /** When a list begins with `levels`, its filter begins with the first accepted level. */
  lemma FilterFirstOfPrefix(s: seq<Entry>, levels: seq<Entry>, keep: Entry -> bool, k: nat)
    requires k < |levels| <= |s| && s[..|levels|] == levels
    requires keep(levels[k]) && forall j :: 0 <= j < k ==> !keep(levels[j])
    ensures |Filter(s, keep)| > 0 && Filter(s, keep)[0] == levels[k]
  {
    assert forall j :: 0 <= j < |levels| ==> s[j] == s[..|levels|][j];
    FilterFirst(s, keep, k);
  }

  // ----- matchers and findNode -----

  /** The message of destructuring `undefined` as an entry. */
  const NotIterable := "undefined is not iterable (cannot read property Symbol(Symbol.iterator))"

  /**
   * `matchTreePath(editor, path)`: a matcher for the node found at `path`
   * when the matcher is made. Nodes are identified by their path in the
   * snapshot, so the matcher accepts exactly the entry at that path. A
   * missing node makes the destructuring of `undefined` throw.
   */
  function MatchTreePath(root: Node, path: Path): (r: Result<Entry -> bool>)
    ensures r.Ok? <==> NodeAt(root, path).Some?
    ensures r.Ok? ==> forall e :: r.value(e) <==> e.path == path
  {
    match NodeEntry(root, path, None)
    case Ok(Some(target)) => Ok((e: Entry) => e.path == target.path)
    case _ => Thrown(NotIterable)
  }

  /**
   * `findNode(editor, options)`: the first entry `nodes` gives for the same
   * options, or none.
   */
  function FindNode(root: Node, at: Option<Location>, matcher: Option<Entry -> bool>, reverse: bool): (r: Option<Entry>)
    requires ReadyAt(at, reverse)
    ensures r.Some? ==> NodeAt(root, r.value.path) == Some(r.value.node) && Keep(matcher)(r.value)
    ensures r.Some? ==> forall e :: e in EditorNodes(root, at, matcher, reverse) && e != r.value ==>
      PreLt(reverse, r.value.path, e.path)
    ensures r.None? <==> forall e :: e in Nodes(root, NodesFor(at, reverse)) ==> !Keep(matcher)(e)
  {
    var entries := EditorNodes(root, at, matcher, reverse);
    var r := FirstOf(entries);
    assert r.Some? ==> r.value in entries;
    assert r.Some? ==> forall e :: e in entries && e != r.value ==> PreLt(reverse, r.value.path, e.path) by {
      if r.Some? {
        forall e | e in entries && e != r.value
          ensures PreLt(reverse, r.value.path, e.path)
        {
          var m :| 0 <= m < |entries| && entries[m] == e;
        }
      }
    }
    r
  }
}
