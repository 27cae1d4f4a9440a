/**
 * `TreeNodes`: reading the tree by path. A path addresses a node by the
 * chain of child indexes leading to it from the root.
 */
module TreeNodes {
  import opened Wrappers
  import opened TreeElements
  import opened TreePaths

  /** `TreeNodeEntry`: a node together with its path. */
  datatype Entry = Entry(node: Node, path: Path)

  /**
   * The node at `path`: undefined as soon as an index does not name a child
   * (`node.children[i]` is `undefined` for a negative or too large index).
   */
  function NodeAt(root: Node, path: Path): Option<Node>
    decreases |path|
  {
    if |path| == 0 then Some(root)
    else if 0 <= path[0] < |root.children| then NodeAt(root.children[path[0]], path[1..])
    else None
  }

  /** `get`, walking down one index at a time. */
  method Get(root: Node, path: Path) returns (r: Option<Node>)
    ensures r == NodeAt(root, path)
  {
    var node := root;
    for i := 0 to |path|
      invariant NodeAt(root, path) == NodeAt(node, path[i..])
    {
      assert path[i..][1..] == path[i + 1..];
      if !(0 <= path[i] < |node.children|) {
        return None;
      }
      node := node.children[path[i]];
    }
    return Some(node);
  }

  /** `has`, the same walk answering only whether a node was found. */
  method Has(root: Node, path: Path) returns (r: bool)
    ensures r <==> NodeAt(root, path).Some?
  {
    var node := root;
    for i := 0 to |path|
      invariant NodeAt(root, path) == NodeAt(node, path[i..])
    {
      assert path[i..][1..] == path[i + 1..];
      if !(0 <= path[i] < |node.children|) {
        return false;
      }
      node := node.children[path[i]];
    }
    return true;
  }

  /** Looking up `a + b` is looking up `a`, then `b` from there. */
  lemma {:induction false} NodeAtConcat(root: Node, a: Path, b: Path)
    ensures NodeAt(root, a + b) == if NodeAt(root, a).None? then None else NodeAt(NodeAt(root, a).value, b)
    decreases |a|
  {
    if |a| == 0 {
      assert a + b == b;
    } else {
      assert (a + b)[0] == a[0] && (a + b)[1..] == a[1..] + b;
      if 0 <= a[0] < |root.children| {
        NodeAtConcat(root.children[a[0]], a[1..], b);
      }
    }
  }

  /** `get(root, [])` is the root, and a path below a missing node is missing too. */
  lemma NodeAtPrefix(root: Node, path: Path, i: nat)
    requires i <= |path|
    ensures NodeAt(root, []) == Some(root)
    ensures NodeAt(root, path[..i]).None? ==> NodeAt(root, path).None?
  {
    assert path == path[..i] + path[i..];
    NodeAtConcat(root, path[..i], path[i..]);
  }

  /** Below a missing prefix of a path, every longer prefix is missing too. */
  lemma NodeAtLonger(root: Node, path: Path, i: nat, j: nat)
    ensures i <= j <= |path| && NodeAt(root, path[..i]).None? ==> NodeAt(root, path[..j]).None?
  {
    if i <= j <= |path| {
      assert path[..j][..i] == path[..i];
      NodeAtPrefix(root, path[..j], i);
    }
  }

  /** One step down: the node at `path + [i]` is child `i` of the node at `path`. */
  lemma NodeAtChild(root: Node, path: Path, i: int)
    ensures NodeAt(root, path + [i]) ==
      if NodeAt(root, path).None? then None else Child(NodeAt(root, path).value, i)
  {
    NodeAtConcat(root, path, [i]);
    if NodeAt(root, path).Some? {
      assert [i][1..] == [];
    }
  }

  /** `child`: the child at `index`, undefined out of range. */
  function Child(node: Node, index: int): (r: Option<Node>)
    ensures r.Some? <==> 0 <= index < |node.children|
    ensures r.Some? ==> r.value == node.children[index]
  {
    if 0 <= index < |node.children| then Some(node.children[index]) else None
  }

  /** `ancestor`: the node at a path, looked up with `get`. */
  function Ancestor(root: Node, path: Path): Option<Node>
  {
    NodeAt(root, path)
  }

  /** `descendant`: the node at a path unless that is the editor root. */
  function Descendant(root: Node, path: Path): (r: Option<Node>)
    ensures r.Some? <==> NodeAt(root, path).Some? && !NodeAt(root, path).value.Editor?
    ensures r.Some? ==> r == NodeAt(root, path)
  {
    var n := NodeAt(root, path);
    if n.Some? && n.value.Editor? then None else n
  }

  /**
   * The entries `children` yields: child `i` of the node at `path` with path
   * `path + [i]`, by increasing index, or by decreasing index under
   * `reverse`; nothing when there is no node at `path`.
   */
  function ChildEntries(root: Node, path: Path, reverse: bool): (r: seq<Entry>)
    ensures NodeAt(root, path).None? ==> r == []
    ensures NodeAt(root, path).Some? ==> |r| == |NodeAt(root, path).value.children|
    ensures forall k :: 0 <= k < |r| ==>
      var i := if reverse then |r| - 1 - k else k;
      r[k].path == path + [i] && NodeAt(root, r[k].path) == Some(r[k].node)
  {
    match NodeAt(root, path)
    case None => []
    case Some(n) =>
      var len := |n.children|;
      var r := seq(len, k requires 0 <= k < len =>
        var i := if reverse then len - 1 - k else k;
        Entry(n.children[i], path + [i]));
      assert forall k :: 0 <= k < len ==> NodeAt(root, r[k].path) == Some(r[k].node) by {
        forall k | 0 <= k < len
          ensures NodeAt(root, r[k].path) == Some(r[k].node)
        {
          NodeAtChild(root, path, if reverse then len - 1 - k else k);
        }
      }
      r
  }

  /** The counting loop of `children`. */
  method Children(root: Node, path: Path, reverse: bool) returns (entries: seq<Entry>)
    ensures entries == ChildEntries(root, path, reverse)
  {
    var ancestor := Get(root, path);
    if ancestor.None? {
      return [];
    }
    var children := ancestor.value.children;
    var index := if reverse then |children| - 1 else 0;
    entries := [];
    while (if reverse then index >= 0 else index < |children|)
      invariant -1 <= index <= |children|
      invariant |entries| == if reverse then |children| - 1 - index else index
      invariant forall k :: 0 <= k < |entries| ==> entries[k] == ChildEntries(root, path, reverse)[k]
      decreases if reverse then index + 1 else |children| - index
    {
      var child := Child(ancestor.value, index);
      entries := entries + [Entry(child.value, path + [index])];
      index := if reverse then index - 1 else index + 1;
    }
  }

  /**
   * The leftmost path below a node: index 0 at every step down to a node
   * without children.
   */
  function Leftmost(n: Node): (r: Path)
    ensures forall i :: 0 <= i < |r| ==> r[i] == 0
    ensures NodeAt(n, r).Some? && NodeAt(n, r).value.children == []
    decreases n
  {
    if |n.children| == 0 then [] else [0] + Leftmost(n.children[0])
  }

  /**
   * The rightmost path below a node: the last index at every step down to a
   * node without children.
   */
  function Rightmost(n: Node): (r: Path)
    ensures NodeAt(n, r).Some? && NodeAt(n, r).value.children == []
    ensures forall i :: 0 <= i < |r| ==>
      NodeAt(n, r[..i]).Some? && r[i] == |NodeAt(n, r[..i]).value.children| - 1
    decreases n
  {
    if |n.children| == 0 then []
    else
      var k := |n.children| - 1;
      var s := Rightmost(n.children[k]);
      var r := [k] + s;
      assert r[1..] == s;
      forall i | 0 < i < |r|
        ensures NodeAt(n, r[..i]) == NodeAt(n.children[k], s[..i - 1])
      {
        assert r[..i][0] == k && r[..i][1..] == s[..i - 1];
      }
      r
  }

  /** `first`: the node at `path`, then its first child repeatedly until a leaf. */
  function FirstEntry(root: Node, path: Path): Option<Entry>
  {
    match NodeAt(root, path)
    case None => None
    case Some(n) => Some(Entry(NodeAt(n, Leftmost(n)).value, path + Leftmost(n)))
  }

  /** `last`: the node at `path`, then its last child repeatedly until a leaf. */
  function LastEntry(root: Node, path: Path): Option<Entry>
  {
    match NodeAt(root, path)
    case None => None
    case Some(n) => Some(Entry(NodeAt(n, Rightmost(n)).value, path + Rightmost(n)))
  }

  /**
   * What `first` and `last` promise: the result extends `path` with only 0s
   * (first) or only last indexes (last), is the node stored there, and has
   * no children.
   */
  lemma FirstLastLeaves(root: Node, path: Path)
    ensures FirstEntry(root, path).Some? <==> NodeAt(root, path).Some?
    ensures LastEntry(root, path).Some? <==> NodeAt(root, path).Some?
    ensures FirstEntry(root, path).Some? ==>
      var e := FirstEntry(root, path).value;
      IsPrefix(path, e.path) && NodeAt(root, e.path) == Some(e.node) && e.node.children == [] &&
      forall i :: |path| <= i < |e.path| ==> e.path[i] == 0
    ensures LastEntry(root, path).Some? ==>
      var e := LastEntry(root, path).value;
      IsPrefix(path, e.path) && NodeAt(root, e.path) == Some(e.node) && e.node.children == [] &&
      forall i :: |path| <= i < |e.path| ==>
        NodeAt(root, e.path[..i]).Some? && e.path[i] == |NodeAt(root, e.path[..i]).value.children| - 1
  {
    if NodeAt(root, path).Some? {
      var n := NodeAt(root, path).value;
      var f := Leftmost(n);
      var l := Rightmost(n);
      NodeAtConcat(root, path, f);
      NodeAtConcat(root, path, l);
      assert (path + f)[..|path|] == path && (path + l)[..|path|] == path;
      assert forall i :: |path| <= i < |path + f| ==> (path + f)[i] == f[i - |path|];
      forall i | |path| <= i < |path + l|
        ensures NodeAt(root, (path + l)[..i]).Some?
        ensures (path + l)[i] == |NodeAt(root, (path + l)[..i]).value.children| - 1
      {
        assert (path + l)[..i] == path + l[..i - |path|];
        NodeAtConcat(root, path, l[..i - |path|]);
      }
    }
  }

  /** The walk of `first`, proved to reach `FirstEntry`. */
  method FirstLeaf(root: Node, path: Path) returns (r: Option<Entry>)
    ensures r == FirstEntry(root, path)
  {
    var found := Get(root, path);
    if found.None? {
      return None;
    }
    var n := found.value;
    var p := path;
    while |n.children| != 0
      invariant NodeAt(root, path).Some?
      invariant p + Leftmost(n) == path + Leftmost(NodeAt(root, path).value)
      invariant NodeAt(n, Leftmost(n)) == NodeAt(NodeAt(root, path).value, Leftmost(NodeAt(root, path).value))
      decreases n
    {
      assert Leftmost(n) == [0] + Leftmost(n.children[0]);
      assert p + Leftmost(n) == (p + [0]) + Leftmost(n.children[0]);
      n := n.children[0];
      p := p + [0];
    }
    assert Leftmost(n) == [] && p + [] == p;
    return Some(Entry(n, p));
  }

  /** The walk of `last`, proved to reach `LastEntry`. */
  method LastLeaf(root: Node, path: Path) returns (r: Option<Entry>)
    ensures r == LastEntry(root, path)
  {
    var found := Get(root, path);
    if found.None? {
      return None;
    }
    var n := found.value;
    var p := path;
    while |n.children| != 0
      invariant NodeAt(root, path).Some?
      invariant p + Rightmost(n) == path + Rightmost(NodeAt(root, path).value)
      invariant NodeAt(n, Rightmost(n)) == NodeAt(NodeAt(root, path).value, Rightmost(NodeAt(root, path).value))
      decreases n
    {
      var i := |n.children| - 1;
      assert Rightmost(n) == [i] + Rightmost(n.children[i]);
      assert p + Rightmost(n) == (p + [i]) + Rightmost(n.children[i]);
      n := n.children[i];
      p := p + [i];
    }
    assert Rightmost(n) == [] && p + [] == p;
    return Some(Entry(n, p));
  }

  /**
   * The entries for a list of paths up to the first one with no node (the
   * loop of `levels` stops there).
   */
  function UntilMissing(root: Node, paths: seq<Path>): (r: seq<Entry>)
    ensures |r| <= |paths|
    ensures forall i :: 0 <= i < |r| ==> r[i].path == paths[i] && NodeAt(root, paths[i]) == Some(r[i].node)
    ensures |r| < |paths| ==> NodeAt(root, paths[|r|]).None?
  {
    if |paths| == 0 then []
    else match NodeAt(root, paths[0])
      case None => []
      case Some(n) => [Entry(n, paths[0])] + UntilMissing(root, paths[1..])
  }

  /** The entries for a list of paths, skipping the ones with no node (the loop of `ancestors`). */
  function ExistingOnly(root: Node, paths: seq<Path>): (r: seq<Entry>)
    ensures forall e :: e in r <==> e.path in paths && NodeAt(root, e.path) == Some(e.node)
  {
    if |paths| == 0 then []
    else
      var rest := ExistingOnly(root, paths[1..]);
      assert forall q :: q in paths <==> q == paths[0] || q in paths[1..];
      match NodeAt(root, paths[0])
      case None => rest
      case Some(n) => [Entry(n, paths[0])] + rest
  }

  /** `levels`: the nodes on the way down to `path` (up from it under `reverse`), stopping at the first missing one. */
  function LevelEntries(root: Node, path: Path, reverse: bool): seq<Entry>
  {
    UntilMissing(root, TreePaths.Levels(path, reverse))
  }

  /** `ancestors`: the nodes at the strict ancestors of `path`, skipping missing ones. */
  function AncestorEntries(root: Node, path: Path, reverse: bool): seq<Entry>
  {
    ExistingOnly(root, TreePaths.Ancestors(path, reverse))
  }

  /**
   * Going down, `levels` gives one entry per existing prefix of `path`, the
   * root first; when `path` itself exists, that is every level.
   */
  lemma LevelEntriesDown(root: Node, path: Path)
    ensures forall i :: 0 <= i < |LevelEntries(root, path, false)| ==>
      LevelEntries(root, path, false)[i] == Entry(NodeAt(root, path[..i]).value, path[..i])
    ensures |LevelEntries(root, path, false)| <= |path| ==> NodeAt(root, path).None?
    ensures NodeAt(root, path).Some? ==> |LevelEntries(root, path, false)| == |path| + 1
  {
    var r := LevelEntries(root, path, false);
    LevelsOrder(path, false);
    if |r| <= |path| {
      NodeAtPrefix(root, path, |r|);
    }
  }

  /** Going up, `levels` yields nothing at all when `path` has no node. */
  lemma LevelEntriesUpMissing(root: Node, path: Path)
    requires NodeAt(root, path).None?
    ensures LevelEntries(root, path, true) == []
  {
    LevelsOrder(path, true);
    assert TreePaths.Levels(path, true)[0] == path[..|path|] == path;
  }

  /** `ancestors` yields exactly the existing strict ancestors of `path`. */
  lemma AncestorEntriesAre(root: Node, path: Path, reverse: bool, e: Entry)
    ensures e in AncestorEntries(root, path, reverse) <==>
      IsAncestor(e.path, path) && NodeAt(root, e.path) == Some(e.node)
  {
    AncestorsAreAncestors(path, reverse, e.path);
  }

  /** `common`: the node at the longest shared prefix of two paths, if there is one. */
  function CommonEntry(root: Node, path: Path, another: Path): (r: Option<Entry>)
    ensures r.Some? ==> IsPrefix(r.value.path, path) && IsPrefix(r.value.path, another)
    ensures r.Some? ==> NodeAt(root, r.value.path) == Some(r.value.node)
  {
    var p := TreePaths.Common(path, another);
    match NodeAt(root, p)
    case None => None
    case Some(n) => Some(Entry(n, p))
  }

  /** When both paths have nodes, `common` finds the deepest shared ancestor-or-self. */
  lemma CommonEntryDeepest(root: Node, path: Path, another: Path, c: Path)
    requires NodeAt(root, path).Some?
    requires IsPrefix(c, path) && IsPrefix(c, another)
    ensures CommonEntry(root, path, another).Some?
    ensures IsPrefix(c, CommonEntry(root, path, another).value.path)
  {
    var p := TreePaths.Common(path, another);
    NodeAtPrefix(root, path, |p|);
    assert path[..|p|] == p;
    CommonIsLongest(path, another, c);
  }

  /** `parent`: the node at the parent path; none for the root path. */
  function ParentNode(root: Node, path: Path): (r: Option<Node>)
    ensures |path| == 0 ==> r.None?
    ensures |path| > 0 ==> r == NodeAt(root, path[..|path| - 1])
  {
    match TreePaths.Parent(path)
    case None => None
    case Some(q) => NodeAt(root, q)
  }

  /**
   * `matches`: an element whose properties agree with `props`, provided
   * `props` describes an element (has `children`).
   */
  predicate NodeMatches(node: Node, props: Props)
  {
    IsElement(node) && IsElementProps(props) && TreeElements.Matches(node, props)
  }

  /** `isLeaf`. */
  predicate IsLeaf(node: Node)
  {
    |node.children| == 0
  }
}
