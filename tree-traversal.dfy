/**
 * `TreeNodes.nodes`: the depth-first pre-order walk over the tree, bounded
 * below by `from` and above by `to`, forwards or in reverse, with a `pass`
 * callback that can keep the walk out of a node's children.
 *
 * The walk is a state machine over a cursor: the current path `p`, the path
 * `at` of the current node `n` (`p` itself, or its parent when `p` names no
 * node), and the set of visited nodes. Nodes are identified by their path.
 */
module TreeTraversal {
  import opened Wrappers
  import opened TreeElements
  import opened TreePaths
  import opened TreeNodes

  /** `TreeNodeNodesOptions`. A `pass` of `null` behaves as one that always answers false. */
  datatype NodesOptions = NodesOptions(from: Path, to: Option<Path>, reverse: bool, pass: Entry -> bool)

  datatype Cursor = Cursor(p: Path, at: Path, visited: set<Path>)

  // ----- measures -----

  /** Every path that names a node. */
  function AllPaths(n: Node): set<Path>
    decreases n
  {
    {[]} + set i, q | 0 <= i < |n.children| && q in AllPaths(n.children[i]) :: [i] + q
  }

  lemma {:induction false} AllPathsIff(n: Node, p: Path)
    ensures p in AllPaths(n) <==> NodeAt(n, p).Some?
    decreases |p|
  {
    if |p| > 0 {
      if 0 <= p[0] < |n.children| {
        AllPathsIff(n.children[p[0]], p[1..]);
        assert p == [p[0]] + p[1..];
      }
      if p in AllPaths(n) {
        var i, q :| 0 <= i < |n.children| && q in AllPaths(n.children[i]) && p == [i] + q;
        assert p[0] == i && p[1..] == q;
      }
    }
  }

  function MaxOf(s: seq<nat>): (m: nat)
    ensures forall i :: 0 <= i < |s| ==> s[i] <= m
  {
    if |s| == 0 then 0 else var r := MaxOf(s[1..]); if s[0] > r then s[0] else r
  }

  /** The largest number of children of any node. */
  function MaxWidth(n: Node): (w: nat)
    ensures |n.children| <= w
    ensures forall i :: 0 <= i < |n.children| ==> MaxWidth(n.children[i]) <= w
    decreases n
  {
    var ws := seq(|n.children|, i requires 0 <= i < |n.children| => MaxWidth(n.children[i]));
    var m := MaxOf(ws);
    assert forall i :: 0 <= i < |n.children| ==> ws[i] == MaxWidth(n.children[i]);
    if |n.children| > m then |n.children| else m
  }

  /** Every index on a path that names a node is below `MaxWidth`. */
  lemma {:induction false} ExistingIndexes(n: Node, p: Path)
    requires NodeAt(n, p).Some?
    ensures forall j :: 0 <= j < |p| ==> 0 <= p[j] < MaxWidth(n)
    decreases |p|
  {
    if |p| > 0 {
      ExistingIndexes(n.children[p[0]], p[1..]);
      assert forall j :: 0 < j < |p| ==> p[j] == p[1..][j - 1];
    }
  }

  function MaxEntry(p: Path): (m: nat)
    ensures forall j :: 0 <= j < |p| ==> p[j] <= m
  {
    if |p| == 0 then 0 else var r := MaxEntry(p[1..]); if p[0] > r then p[0] else r
  }

  /** An index bound above every index a forward walk can reach. */
  function Width(root: Node, o: NodesOptions): nat
  {
    MaxWidth(root) + MaxEntry(o.from) + 1
  }

  predicate Bounded(root: Node, o: NodesOptions, p: Path)
  {
    forall j :: 0 <= j < |p| ==> if o.reverse then 0 <= p[j] else p[j] < Width(root, o)
  }

  /**
   * Forwards, how far every index still is from `Width`; in reverse, how far
   * it is from -1. Moving to a later sibling or going up lowers it.
   */
  function Gap(root: Node, o: NodesOptions, p: Path): nat
    requires Bounded(root, o, p)
    decreases |p|
  {
    if |p| == 0 then 0
    else
      var k := |p| - 1;
      (if o.reverse then p[k] + 1 else Width(root, o) - p[k]) + Gap(root, o, p[..k])
  }

  // ----- the state machine -----

  /** What the walk needs: in reverse, the indexes of `from` are not negative. */
  predicate Ready(o: NodesOptions)
  {
    o.reverse ==> forall j :: 0 <= j < |o.from| ==> o.from[j] >= 0
  }

  /** `b` comes after `a` and everything below `a`, in the walk's direction. */
  predicate Ahead(reverse: bool, a: Path, b: Path)
  {
    if reverse then IsAfter(a, b) else IsBefore(a, b)
  }

  /** `b` comes strictly later than `a` in the walk's pre-order. */
  predicate PreLt(reverse: bool, a: Path, b: Path)
  {
    IsAncestor(a, b) || Ahead(reverse, a, b)
  }

  /** The bound check at the top of the loop. */
  predicate Stopped(o: NodesOptions, p: Path)
  {
    o.to.Some? && (if o.reverse then IsBefore(p, o.to.value) else IsAfter(p, o.to.value))
  }

  predicate CursorOk(root: Node, o: NodesOptions, c: Cursor)
  {
    NodeAt(root, c.at).Some? &&
    (c.p == c.at ||
     (c.at in c.visited && NodeAt(root, c.p).None? && |c.p| == |c.at| + 1 && c.p[..|c.at|] == c.at)) &&
    Bounded(root, o, c.p) &&
    !Ahead(o.reverse, c.p, o.from)
  }

  /** The node at `at` has not been visited: the walk yields it. */
  predicate Fresh(c: Cursor)
  {
    c.at !in c.visited
  }

  /** The walk goes down into the current node's children. */
  predicate Descends(root: Node, o: NodesOptions, c: Cursor)
    requires NodeAt(root, c.at).Some?
  {
    var n := NodeAt(root, c.at).value;
    Fresh(c) && |n.children| > 0 && !o.pass(Entry(n, c.p))
  }

  /**
   * One turn of the loop after the bound check and the yield: down into the
   * children (to `from`'s index along `from`), else to the next sibling
   * (forwards) or previous sibling (in reverse), else up. None is `break`.
   */
  function Step(root: Node, o: NodesOptions, c: Cursor): Option<Cursor>
    requires Ready(o) && CursorOk(root, o, c)
  {
    var n := NodeAt(root, c.at).value;
    if Descends(root, o, c) then
      var k := if IsAncestor(c.p, o.from) then o.from[|c.p|] else if o.reverse then |n.children| - 1 else 0;
      var q := c.p + [k];
      Some(Cursor(q, if NodeAt(root, q).Some? then q else c.at, c.visited + {c.at}))
    else if |c.p| == 0 then None
    else if !o.reverse && NodeAt(root, Next(c.p).value).Some? then
      Some(Cursor(Next(c.p).value, Next(c.p).value, c.visited))
    else if o.reverse && TreePaths.Last(c.p) != Some(0) then
      var q := Previous(c.p).value;
      Some(Cursor(q, if NodeAt(root, q).Some? then q else c.at, c.visited))
    else
      var q := Parent(c.p).value;
      if NodeAt(root, q).None? then None else Some(Cursor(q, q, c.visited + {q}))
  }

  /** Taking out more of a set leaves fewer elements. */
  lemma {:induction false} FewerLeft(a: set<Path>, v: set<Path>, w: set<Path>, x: Path)
    requires v <= w && x in a && x !in v && x in w
    ensures |a - w| < |a - v|
  {
    assert a - w <= (a - v) - {x};
    SubsetSize(a - w, (a - v) - {x});
  }

  lemma AddOne(a: set<Path>, v: set<Path>, x: Path)
    requires x in a
    ensures |a - (v + {x})| < |a - v| || v + {x} == v
  {
    if x !in v {
      FewerLeft(a, v, v + {x}, x);
    }
  }

  lemma {:induction false} SubsetSize(s: set<Path>, t: set<Path>)
    requires s <= t
    ensures |s| <= |t|
    decreases |t|
  {
    if s != {} {
      var x :| x in s;
      SubsetSize(s - {x}, t - {x});
    }
  }

  lemma GapParent(root: Node, o: NodesOptions, p: Path)
    requires |p| > 0 && Bounded(root, o, p)
    ensures Bounded(root, o, p[..|p| - 1])
    ensures Gap(root, o, p[..|p| - 1]) < Gap(root, o, p)
  {
  }

  lemma GapSibling(root: Node, o: NodesOptions, p: Path, q: Path)
    requires |p| > 0 && |q| == |p| && q[..|p| - 1] == p[..|p| - 1]
    requires Bounded(root, o, p) && Bounded(root, o, q)
    requires if o.reverse then q[|p| - 1] < p[|p| - 1] else q[|p| - 1] > p[|p| - 1]
    ensures Gap(root, o, q) < Gap(root, o, p)
  {
  }

  /** The measure `Run` decreases by. */
  predicate Lower(root: Node, o: NodesOptions, c: Cursor, d: Cursor)
    requires Bounded(root, o, c.p) && Bounded(root, o, d.p)
  {
    c.visited <= d.visited &&
    (|AllPaths(root) - d.visited| < |AllPaths(root) - c.visited| ||
     (|AllPaths(root) - d.visited| == |AllPaths(root) - c.visited| && Gap(root, o, d.p) < Gap(root, o, c.p)))
  }

  /** A step stays in the invariant and lowers the measure. */
  lemma StepKeeps(root: Node, o: NodesOptions, c: Cursor)
    requires Ready(o) && CursorOk(root, o, c) && Step(root, o, c).Some?
    ensures CursorOk(root, o, Step(root, o, c).value)
    ensures Lower(root, o, c, Step(root, o, c).value)
  {
    var d := Step(root, o, c).value;
    var n := NodeAt(root, c.at).value;
    if Descends(root, o, c) {
      var k := if IsAncestor(c.p, o.from) then o.from[|c.p|] else if o.reverse then |n.children| - 1 else 0;
      DescendKeeps(root, o, c, k, d);
    } else if !o.reverse && NodeAt(root, Next(c.p).value).Some? {
      NextKeeps(root, o, c, d);
    } else if o.reverse && TreePaths.Last(c.p) != Some(0) {
      PreviousKeeps(root, o, c, d);
    } else {
      UpKeeps(root, o, c, d);
    }
  }

  lemma DescendKeeps(root: Node, o: NodesOptions, c: Cursor, k: int, d: Cursor)
    requires Ready(o) && CursorOk(root, o, c) && Descends(root, o, c)
    requires k == if IsAncestor(c.p, o.from) then o.from[|c.p|]
      else if o.reverse then |NodeAt(root, c.at).value.children| - 1 else 0
    requires d == Cursor(c.p + [k], if NodeAt(root, c.p + [k]).Some? then c.p + [k] else c.at, c.visited + {c.at})
    ensures CursorOk(root, o, d) && Lower(root, o, c, d)
  {
    DescendCursorOk(root, o, c, k, d);
    AllPathsIff(root, c.at);
    FewerLeft(AllPaths(root), c.visited, d.visited, c.at);
  }

  lemma DescendCursorOk(root: Node, o: NodesOptions, c: Cursor, k: int, d: Cursor)
    requires Ready(o) && CursorOk(root, o, c) && Descends(root, o, c)
    requires k == if IsAncestor(c.p, o.from) then o.from[|c.p|]
      else if o.reverse then |NodeAt(root, c.at).value.children| - 1 else 0
    requires d == Cursor(c.p + [k], if NodeAt(root, c.p + [k]).Some? then c.p + [k] else c.at, c.visited + {c.at})
    ensures CursorOk(root, o, d)
  {
    assert c.p == c.at;
    assert (c.p + [k])[..|c.p|] == c.p;
    ExistingIndexes(root, c.p);
    DescendBounded(root, o, c.p, k);
    DescendNotAhead(o, c.p, k);
  }

  lemma DescendBounded(root: Node, o: NodesOptions, p: Path, k: int)
    requires Ready(o) && NodeAt(root, p).Some? && Bounded(root, o, p) && |NodeAt(root, p).value.children| > 0
    requires k == if IsAncestor(p, o.from) then o.from[|p|]
      else if o.reverse then |NodeAt(root, p).value.children| - 1 else 0
    ensures Bounded(root, o, p + [k])
  {
    var q := p + [k];
    if IsAncestor(p, o.from) {
      assert k <= MaxEntry(o.from);
      assert o.reverse ==> k >= 0;
    } else {
      NodeAtChild(root, p, k);
      ExistingIndexes(root, q);
      assert q[|p|] == k;
    }
    assert k < Width(root, o) && (o.reverse ==> 0 <= k);
    assert forall j :: 0 <= j < |q| ==> q[j] == if j < |p| then p[j] else k;
  }

  lemma NextKeeps(root: Node, o: NodesOptions, c: Cursor, d: Cursor)
    requires Ready(o) && CursorOk(root, o, c) && !o.reverse && |c.p| > 0
    requires NodeAt(root, Next(c.p).value).Some?
    requires d == Cursor(Next(c.p).value, Next(c.p).value, c.visited)
    ensures CursorOk(root, o, d) && Lower(root, o, c, d)
  {
    var q := Next(c.p).value;
    PrefixSteps(o.reverse, c.p);
    ExistingIndexes(root, q);
    GapSibling(root, o, c.p, q);
    NotAheadSibling(o.reverse, c.p, q, o.from);
  }

  lemma PreviousKeeps(root: Node, o: NodesOptions, c: Cursor, d: Cursor)
    requires Ready(o) && CursorOk(root, o, c) && o.reverse && |c.p| > 0
    requires TreePaths.Last(c.p) != Some(0)
    requires Previous(c.p).Some?
    requires d == Cursor(Previous(c.p).value,
      if NodeAt(root, Previous(c.p).value).Some? then Previous(c.p).value else c.at, c.visited)
    ensures CursorOk(root, o, d) && Lower(root, o, c, d)
  {
    var q := Previous(c.p).value;
    PrefixSteps(o.reverse, c.p);
    GapSibling(root, o, c.p, q);
    NotAheadSibling(o.reverse, c.p, q, o.from);
    SiblingExists(root, c.p, q);
    if NodeAt(root, q).None? {
      assert q[..|c.at|] == c.p[..|c.at|];
    }
  }

  /** A sibling with a smaller index of a node that exists exists too. */
  lemma SiblingExists(root: Node, p: Path, q: Path)
    ensures (NodeAt(root, p).Some? && |p| > 0 && |q| == |p| && q[..|p| - 1] == p[..|p| - 1] &&
             0 <= q[|p| - 1] <= p[|p| - 1]) ==> NodeAt(root, q).Some?
  {
    if NodeAt(root, p).Some? && |p| > 0 && |q| == |p| && q[..|p| - 1] == p[..|p| - 1] &&
      0 <= q[|p| - 1] <= p[|p| - 1] {
      var k := |p| - 1;
      assert p == p[..k] + [p[k]] && q == p[..k] + [q[k]];
      NodeAtChild(root, p[..k], p[k]);
      NodeAtChild(root, p[..k], q[k]);
    }
  }

  lemma UpKeeps(root: Node, o: NodesOptions, c: Cursor, d: Cursor)
    requires Ready(o) && CursorOk(root, o, c) && |c.p| > 0
    requires NodeAt(root, Parent(c.p).value).Some?
    requires d == Cursor(Parent(c.p).value, Parent(c.p).value, c.visited + {Parent(c.p).value})
    ensures CursorOk(root, o, d) && Lower(root, o, c, d)
  {
    var q := Parent(c.p).value;
    assert q == c.p[..|c.p| - 1];
    GapParent(root, o, c.p);
    NotAheadParent(o.reverse, c.p, o.from);
    UpLower(root, o, c, d);
  }

  lemma UpLower(root: Node, o: NodesOptions, c: Cursor, d: Cursor)
    requires |c.p| > 0 && Bounded(root, o, c.p) && Bounded(root, o, d.p)
    requires d.p == c.p[..|c.p| - 1] && NodeAt(root, d.p).Some? && d.visited == c.visited + {d.p}
    requires Gap(root, o, d.p) < Gap(root, o, c.p)
    ensures Lower(root, o, c, d)
  {
    AllPathsIff(root, d.p);
    AddOne(AllPaths(root), c.visited, d.p);
  }

  // ----- the order facts the proofs use -----

  lemma AheadTransitive(reverse: bool, a: Path, b: Path, c: Path)
    requires Ahead(reverse, a, b) && Ahead(reverse, b, c)
    ensures Ahead(reverse, a, c)
  {
    if reverse {
      Converses(b, a);
      Converses(c, b);
      Converses(c, a);
      BeforeTransitive(c, b, a);
    } else {
      BeforeTransitive(a, b, c);
    }
  }

  lemma AheadExtends(reverse: bool, a: Path, b: Path, c: Path)
    requires Ahead(reverse, a, b) && IsPrefix(b, c)
    ensures Ahead(reverse, a, c)
  {
    if reverse {
      Converses(b, a);
      Converses(c, a);
      BeforeFromPrefix(b, c, a);
    } else {
      BeforeExtends(a, b, c);
    }
  }

  lemma AheadFromPrefix(reverse: bool, a: Path, b: Path, c: Path)
    requires Ahead(reverse, a, c) && IsPrefix(a, b)
    ensures Ahead(reverse, b, c)
  {
    if reverse {
      Converses(c, a);
      Converses(c, b);
      BeforeExtends(c, a, b);
    } else {
      BeforeFromPrefix(a, b, c);
    }
  }

  /** `Ahead` never holds along a line of ancestors. */
  lemma AheadNotPrefix(reverse: bool, a: Path, b: Path)
    ensures Ahead(reverse, a, b) ==> !IsPrefix(a, b) && !IsPrefix(b, a) && a != b
  {
    CompareZero(a, b);
  }

  /** The sibling steps: forwards to `next`, in reverse to `previous`. */
  lemma PrefixSteps(reverse: bool, p: Path)
    ensures |p| > 0 && !reverse ==> Ahead(reverse, p, Next(p).value) && IsSibling(p, Next(p).value)
    ensures Previous(p).Some? && reverse ==> Ahead(reverse, p, Previous(p).value) && IsSibling(p, Previous(p).value)
    ensures |p| > 0 ==> IsPrefix(Parent(p).value, p)
  {
    if |p| > 0 && !reverse {
      NextIsLaterSibling(p);
    }
    if Previous(p).Some? && reverse {
      var q := Previous(p).value;
      NextPrevious(p);
      NextIsLaterSibling(q);
      Converses(q, p);
      SiblingIff(q, p);
    }
  }

  /** Below a path lies wholly ahead of `y` at most what is ahead of the path, or below it. */
  lemma ChildAhead(reverse: bool, p: Path, k: int, y: Path)
    requires Ahead(reverse, p + [k], y)
    ensures IsAncestor(p, y) || Ahead(reverse, p, y)
  {
    var q := p + [k];
    assert q[..|p|] == p;
    AheadNotPrefix(reverse, q, y);
    Trichotomy(p, y);
    AncestorIsStrictPrefix(p, y);
    if !IsPrefix(y, p) && !IsPrefix(p, y) {
      if reverse && IsBefore(p, y) {
        BeforeFromPrefix(p, q, y);
      } else if !reverse && IsAfter(p, y) {
        Converses(y, p);
        Converses(y, q);
        BeforeExtends(y, p, q);
      }
    }
  }

  lemma DescendNotAhead(o: NodesOptions, p: Path, k: int)
    requires !Ahead(o.reverse, p, o.from)
    requires IsAncestor(p, o.from) ==> k == o.from[|p|]
    ensures !Ahead(o.reverse, p + [k], o.from)
  {
    AncestorIsStrictPrefix(p, o.from);
    if IsAncestor(p, o.from) {
      assert o.from[..|p| + 1] == o.from[..|p|] + [o.from[|p|]];
      AheadNotPrefix(o.reverse, p + [k], o.from);
    } else if Ahead(o.reverse, p + [k], o.from) {
      ChildAhead(o.reverse, p, k, o.from);
    }
  }

  lemma NotAheadSibling(reverse: bool, p: Path, q: Path, from: Path)
    requires Ahead(reverse, p, q) && !Ahead(reverse, p, from)
    ensures !Ahead(reverse, q, from)
  {
    if Ahead(reverse, q, from) {
      AheadTransitive(reverse, p, q, from);
    }
  }

  lemma NotAheadParent(reverse: bool, p: Path, from: Path)
    requires |p| > 0 && !Ahead(reverse, p, from)
    ensures !Ahead(reverse, Parent(p).value, from)
  {
    PrefixSteps(reverse, p);
    if Ahead(reverse, Parent(p).value, from) {
      AheadFromPrefix(reverse, Parent(p).value, p, from);
    }
  }

  // ----- the walk -----

  /** The entries the walk yields from cursor `c` on. */
  function Run(root: Node, o: NodesOptions, c: Cursor): seq<Entry>
    requires Ready(o) && CursorOk(root, o, c)
    decreases |AllPaths(root) - c.visited|, Gap(root, o, c.p)
  {
    if Stopped(o, c.p) then []
    else
      var head := if Fresh(c) then [Entry(NodeAt(root, c.at).value, c.p)] else [];
      match Step(root, o, c)
      case None => head
      case Some(d) => StepKeeps(root, o, c); head + Run(root, o, d)
  }

  function Start(): Cursor
  {
    Cursor([], [], {})
  }

  /** `nodes(root, options)`. */
  function Nodes(root: Node, o: NodesOptions): seq<Entry>
    requires Ready(o)
  {
    Run(root, o, Start())
  }

  /** The yielded entries are pairs of a node and its own path, inside the bounds, never wholly before `from`. */
  lemma {:induction false} RunSound(root: Node, o: NodesOptions, c: Cursor)
    requires Ready(o) && CursorOk(root, o, c)
    ensures forall e :: e in Run(root, o, c) ==>
      NodeAt(root, e.path) == Some(e.node) && !Stopped(o, e.path) && !Ahead(o.reverse, e.path, o.from)
    decreases |AllPaths(root) - c.visited|, Gap(root, o, c.p)
  {
    if !Stopped(o, c.p) && Step(root, o, c).Some? {
      StepKeeps(root, o, c);
      RunSound(root, o, Step(root, o, c).value);
    }
  }

  /**
   * Where the entries from cursor `c` on lie relative to `c.p`: the first
   * may be `c.p` itself (when fresh), below it only while descending, and
   * every other one after it and its subtree.
   */
  predicate Placed(root: Node, o: NodesOptions, c: Cursor, y: Path)
    requires NodeAt(root, c.at).Some?
  {
    (Fresh(c) && y == c.p) || (Descends(root, o, c) && IsAncestor(c.p, y)) || Ahead(o.reverse, c.p, y)
  }

  predicate Ordered(reverse: bool, r: seq<Entry>)
  {
    forall i, j :: 0 <= i < j < |r| ==> PreLt(reverse, r[i].path, r[j].path)
  }

  /** Where a step lands, relative to the cursor it leaves. */
  lemma StepPlaces(root: Node, o: NodesOptions, c: Cursor, y: Path)
    requires Ready(o) && CursorOk(root, o, c) && Step(root, o, c).Some?
    requires CursorOk(root, o, Step(root, o, c).value)
    requires Placed(root, o, Step(root, o, c).value, y)
    ensures (Descends(root, o, c) && IsAncestor(c.p, y)) || Ahead(o.reverse, c.p, y)
  {
    var d := Step(root, o, c).value;
    PrefixSteps(o.reverse, c.p);
    if Descends(root, o, c) {
      assert |d.p| == |c.p| + 1 && d.p[..|c.p|] == c.p;
      AncestorIsStrictPrefix(c.p, d.p);
      if y == d.p {
      } else if IsAncestor(d.p, y) {
        AncestorIsStrictPrefix(d.p, y);
        assert y[..|c.p|] == d.p[..|c.p|];
        AncestorIsStrictPrefix(c.p, y);
      } else {
        ChildAhead(o.reverse, c.p, d.p[|c.p|], y);
      }
    } else if (!o.reverse && NodeAt(root, Next(c.p).value).Some?) ||
              (o.reverse && TreePaths.Last(c.p) != Some(0)) {
      if y == d.p {
      } else if IsAncestor(d.p, y) {
        AncestorIsStrictPrefix(d.p, y);
        AheadExtends(o.reverse, c.p, d.p, y);
      } else {
        AheadTransitive(o.reverse, c.p, d.p, y);
      }
    } else {
      assert !Fresh(d);
      AheadFromPrefix(o.reverse, d.p, c.p, y);
    }
  }

  /**
   * The walk from `c` yields entries in strictly increasing pre-order (so
   * each path at most once), each placed relative to `c.p` as `Placed` says.
   */
  lemma {:induction false} RunOrdered(root: Node, o: NodesOptions, c: Cursor)
    requires Ready(o) && CursorOk(root, o, c)
    ensures forall e :: e in Run(root, o, c) ==> Placed(root, o, c, e.path)
    ensures Ordered(o.reverse, Run(root, o, c))
    decreases |AllPaths(root) - c.visited|, Gap(root, o, c.p)
  {
    if !Stopped(o, c.p) && Step(root, o, c).Some? {
      var d := Step(root, o, c).value;
      StepKeeps(root, o, c);
      RunOrdered(root, o, d);
      var head := if Fresh(c) then [Entry(NodeAt(root, c.at).value, c.p)] else [];
      var tail := Run(root, o, d);
      assert Run(root, o, c) == head + tail;
      forall e | e in tail
        ensures (Descends(root, o, c) && IsAncestor(c.p, e.path)) || Ahead(o.reverse, c.p, e.path)
      {
        StepPlaces(root, o, c, e.path);
      }
      OrderedCons(o.reverse, c.p, head, tail);
    }
  }

  lemma OrderedCons(reverse: bool, p: Path, head: seq<Entry>, tail: seq<Entry>)
    requires |head| <= 1 && (|head| == 1 ==> head[0].path == p)
    requires Ordered(reverse, tail)
    requires forall e :: e in tail ==> PreLt(reverse, p, e.path)
    ensures Ordered(reverse, head + tail)
  {
    var r := head + tail;
    forall i, j | 0 <= i < j < |r|
      ensures PreLt(reverse, r[i].path, r[j].path)
    {
      assert r[j] == tail[j - |head|];
      if i >= |head| {
        assert r[i] == tail[i - |head|];
      }
    }
  }

  /** The root comes first. */
  lemma NodesStartAtRoot(root: Node, o: NodesOptions)
    requires Ready(o)
    ensures |Nodes(root, o)| > 0 && Nodes(root, o)[0] == Entry(root, [])
  {
    var c := Start();
    if o.to.Some? {
      CompareZero([], o.to.value);
    }
  }

  /**
   * The `nodes` guarantees: each entry is a node with its own path; the
   * entries come in strictly increasing pre-order of the walk's direction,
   * so no path comes twice; none lies beyond `to`; none lies wholly before
   * `from`.
   */
  lemma NodesGuarantees(root: Node, o: NodesOptions)
    requires Ready(o)
    ensures forall e :: e in Nodes(root, o) ==> NodeAt(root, e.path) == Some(e.node)
    ensures forall e :: e in Nodes(root, o) && o.to.Some? ==>
      if o.reverse then !IsBefore(e.path, o.to.value) else !IsAfter(e.path, o.to.value)
    ensures forall e :: e in Nodes(root, o) ==> !Ahead(o.reverse, e.path, o.from)
    ensures Ordered(o.reverse, Nodes(root, o))
    ensures forall i, j :: 0 <= i < j < |Nodes(root, o)| ==> Nodes(root, o)[i].path != Nodes(root, o)[j].path
  {
    var r := Nodes(root, o);
    RunSound(root, o, Start());
    RunOrdered(root, o, Start());
    forall i, j | 0 <= i < j < |r|
      ensures r[i].path != r[j].path
    {
      AheadNotPrefix(o.reverse, r[i].path, r[j].path);
    }
  }

  /**
   * `pass` answering true for an entry keeps every node below it out of the
   * walk.
   */
  lemma {:induction false} RunVeto(root: Node, o: NodesOptions, c: Cursor)
    requires Ready(o) && CursorOk(root, o, c)
    ensures Vetoed(o.pass, Run(root, o, c))
    decreases |AllPaths(root) - c.visited|, Gap(root, o, c.p)
  {
    if !Stopped(o, c.p) && Step(root, o, c).Some? {
      var d := Step(root, o, c).value;
      StepKeeps(root, o, c);
      RunVeto(root, o, d);
      RunOrdered(root, o, d);
      var head := if Fresh(c) then [Entry(NodeAt(root, c.at).value, c.p)] else [];
      var tail := Run(root, o, d);
      assert Run(root, o, c) == head + tail;
      forall f | f in tail
        ensures !IsAncestor(f.path, c.p)
        ensures !Descends(root, o, c) ==> !IsAncestor(c.p, f.path)
      {
        StepPlaces(root, o, c, f.path);
        AheadNotPrefix(o.reverse, c.p, f.path);
        AncestorIsStrictPrefix(f.path, c.p);
        AncestorIsStrictPrefix(c.p, f.path);
      }
      VetoCons(o.pass, c.p, head, tail, Descends(root, o, c));
    }
  }

  /** No entry lies below an entry that `pass` approves. */
  predicate Vetoed(pass: Entry -> bool, r: seq<Entry>)
  {
    forall e, f :: e in r && f in r && pass(e) ==> !IsAncestor(e.path, f.path)
  }

  lemma VetoCons(pass: Entry -> bool, p: Path, head: seq<Entry>, tail: seq<Entry>, descends: bool)
    requires |head| <= 1 && (|head| == 1 ==> head[0].path == p && (pass(head[0]) ==> !descends))
    requires Vetoed(pass, tail)
    requires forall f :: f in tail ==> !IsAncestor(f.path, p) && (!descends ==> !IsAncestor(p, f.path))
    ensures Vetoed(pass, head + tail)
  {
    forall e, f | e in head + tail && f in head + tail && pass(e)
      ensures !IsAncestor(e.path, f.path)
    {
      if e in head {
        assert e == head[0];
      }
      if f in head {
        assert f == head[0];
      }
    }
  }

  /** No node below an entry `pass` approved is yielded. */
  lemma NodesVeto(root: Node, o: NodesOptions)
    requires Ready(o)
    ensures forall e, f :: e in Nodes(root, o) && f in Nodes(root, o) && o.pass(e) ==> !IsAncestor(e.path, f.path)
  {
    RunVeto(root, o, Start());
  }

  /** One turn of `Run`: the entry at the cursor, if fresh, then the run from the next cursor. */
  lemma RunUnfold(root: Node, o: NodesOptions, c: Cursor)
    requires Ready(o) && CursorOk(root, o, c) && !Stopped(o, c.p)
    ensures var head := if Fresh(c) then [Entry(NodeAt(root, c.at).value, c.p)] else [];
      match Step(root, o, c)
      case None => Run(root, o, c) == head
      case Some(d) => CursorOk(root, o, d) && Lower(root, o, c, d) && Run(root, o, c) == head + Run(root, o, d)
  {
    if Step(root, o, c).Some? {
      StepKeeps(root, o, c);
    }
  }

  lemma ConcatAssoc(a: seq<Entry>, b: seq<Entry>, c: seq<Entry>)
    ensures (a + b) + c == a + (b + c)
  {
  }

  /** The `while (true)` loop of `nodes`, collecting what it yields. */
  method Walk(root: Node, o: NodesOptions) returns (entries: seq<Entry>)
    requires Ready(o)
    ensures entries == Nodes(root, o)
  {
    var visited: set<Path> := {};
    var p: Path := [];
    var at: Path := [];
    var n := root;
    entries := [];
    while true
      invariant CursorOk(root, o, Cursor(p, at, visited))
      invariant NodeAt(root, at) == Some(n)
      invariant entries + Run(root, o, Cursor(p, at, visited)) == Nodes(root, o)
      decreases |AllPaths(root) - visited|, Gap(root, o, p)
    {
      if o.to.Some? && (if o.reverse then IsBefore(p, o.to.value) else IsAfter(p, o.to.value)) {
        return;
      }
      ghost var c := Cursor(p, at, visited);
      ghost var before := entries;
      if at !in visited {
        entries := entries + [Entry(n, p)];
      }
      var stop;
      stop, p, at, n, visited := Turn(root, o, p, at, n, visited);
      WalkOn(root, o, c, before, entries, stop, Cursor(p, at, visited));
      if stop {
        return;
      }
    }
  }

  /** One turn of `Walk`: what it yields joins the entries, and the rest of the walk goes on from the next cursor. */
  lemma {:induction false} WalkOn(root: Node, o: NodesOptions, c: Cursor, before: seq<Entry>, entries: seq<Entry>,
                                  stop: bool, d: Cursor)
    requires Ready(o) && CursorOk(root, o, c) && !Stopped(o, c.p)
    requires before + Run(root, o, c) == Nodes(root, o)
    requires entries == before + if Fresh(c) then [Entry(NodeAt(root, c.at).value, c.p)] else []
    requires stop <==> Step(root, o, c).None?
    requires !stop ==> Step(root, o, c) == Some(d)
    ensures stop ==> entries == Nodes(root, o)
    ensures !stop ==> CursorOk(root, o, d) && Lower(root, o, c, d) && entries + Run(root, o, d) == Nodes(root, o)
  {
    RunUnfold(root, o, c);
    if !stop {
      ConcatAssoc(before, entries[|before|..], Run(root, o, d));
      assert entries == before + entries[|before|..];
    }
  }

  /**
   * The rest of one turn of the loop, after the yield: down, along, or up.
   * `stop` is the loop's `break`.
   */
  method Turn(root: Node, o: NodesOptions, p: Path, at: Path, n: Node, visited: set<Path>)
    returns (stop: bool, p': Path, at': Path, n': Node, visited': set<Path>)
    requires Ready(o) && CursorOk(root, o, Cursor(p, at, visited)) && NodeAt(root, at) == Some(n)
    ensures stop <==> Step(root, o, Cursor(p, at, visited)).None?
    ensures !stop ==> Step(root, o, Cursor(p, at, visited)) == Some(Cursor(p', at', visited'))
    ensures !stop ==> NodeAt(root, at') == Some(n')
  {
    if at !in visited && |n.children| > 0 && !o.pass(Entry(n, p)) {
      stop := false;
      p', at', n', visited' := Down(root, o, p, at, n, visited);
    } else {
      stop, p', at', n', visited' := Along(root, o, p, at, n, visited);
    }
  }

  /** Going down: to `from`'s index along `from`, else to the first (last in reverse) child. */
  method Down(root: Node, o: NodesOptions, p: Path, at: Path, n: Node, visited: set<Path>)
    returns (p': Path, at': Path, n': Node, visited': set<Path>)
    requires Ready(o) && CursorOk(root, o, Cursor(p, at, visited)) && NodeAt(root, at) == Some(n)
    requires at !in visited && |n.children| > 0 && !o.pass(Entry(n, p))
    ensures Step(root, o, Cursor(p, at, visited)) == Some(Cursor(p', at', visited'))
    ensures NodeAt(root, at') == Some(n')
  {
    at', n' := at, n;
    visited' := visited + {at};
    var nextIndex := if o.reverse then |n.children| - 1 else 0;
    if IsAncestor(p, o.from) {
      nextIndex := o.from[|p|];
    }
    p' := p + [nextIndex];
    var node := Get(root, p');
    if node.None? {
      return;
    }
    n' := node.value;
    at' := p';
  }

  /** Not going down: the next sibling forwards, the previous one in reverse, else up. */
  method Along(root: Node, o: NodesOptions, p: Path, at: Path, n: Node, visited: set<Path>)
    returns (stop: bool, p': Path, at': Path, n': Node, visited': set<Path>)
    requires Ready(o) && CursorOk(root, o, Cursor(p, at, visited)) && NodeAt(root, at) == Some(n)
    requires !(at !in visited && |n.children| > 0 && !o.pass(Entry(n, p)))
    ensures stop <==> Step(root, o, Cursor(p, at, visited)).None?
    ensures !stop ==> Step(root, o, Cursor(p, at, visited)) == Some(Cursor(p', at', visited'))
    ensures !stop ==> NodeAt(root, at') == Some(n')
  {
    stop, p', at', n', visited' := false, p, at, n, visited;
    ghost var c := Cursor(p, at, visited);
    assert !Descends(root, o, c);
    if |p| == 0 {
      stop := true;
      return;
    }
    if !o.reverse {
      var newPath := Next(p);
      var has := Has(root, newPath.value);
      if has {
        p' := newPath.value;
        var node := Get(root, p');
        n' := node.value;
        at' := p';
        return;
      }
    }
    if o.reverse && TreePaths.Last(p) != Some(0) {
      // `previous` is defined here: the indexes are never negative in reverse.
      p' := Previous(p).value;
      var node := Get(root, p');
      if node.None? {
        return;
      }
      n' := node.value;
      at' := p';
      return;
    }
    p' := Parent(p).value;
    var node := Get(root, p');
    if node.None? {
      stop := true;
      return;
    }
    n' := node.value;
    at' := p';
    visited' := visited + {at'};
  }

  /** The entries of `s` that `keep` accepts, in their order. */
  function Filter(s: seq<Entry>, keep: Entry -> bool): (r: seq<Entry>)
    ensures forall e :: e in r <==> e in s && keep(e)
    ensures |r| <= |s|
  {
    if |s| == 0 then []
    else
      var rest := Filter(s[1..], keep);
      assert forall e :: e in s <==> e == s[0] || e in s[1..];
      if keep(s[0]) then [s[0]] + rest else rest
  }

  /** Filtering keeps the walk's order. */
  lemma {:induction false} FilterOrdered(reverse: bool, s: seq<Entry>, keep: Entry -> bool)
    requires Ordered(reverse, s)
    ensures Ordered(reverse, Filter(s, keep))
  {
    if |s| > 0 {
      assert Ordered(reverse, s[1..]) by {
        forall i, j | 0 <= i < j < |s[1..]|
          ensures PreLt(reverse, s[1..][i].path, s[1..][j].path)
        {
          assert s[1..][i] == s[i + 1] && s[1..][j] == s[j + 1];
        }
      }
      FilterOrdered(reverse, s[1..], keep);
      var rest := Filter(s[1..], keep);
      if keep(s[0]) {
        forall e | e in rest
          ensures PreLt(reverse, s[0].path, e.path)
        {
          var j :| 0 <= j < |s[1..]| && s[1..][j] == e;
          assert s[j + 1] == e;
        }
        OrderedCons(reverse, s[0].path, [s[0]], rest);
      }
    }
  }

  /** `descendants`: the entries of `nodes` other than the root. */
  function Descendants(root: Node, o: NodesOptions): (r: seq<Entry>)
    requires Ready(o)
    ensures forall e :: e in r <==> e in Nodes(root, o) && |e.path| > 0
  {
    Filter(Nodes(root, o), (e: Entry) => |e.path| > 0)
  }

  /** `elements`: the entries of `nodes` whose node is an element. */
  function Elements(root: Node, o: NodesOptions): (r: seq<Entry>)
    requires Ready(o)
    ensures forall e :: e in r <==> e in Nodes(root, o) && IsElement(e.node)
  {
    Filter(Nodes(root, o), (e: Entry) => IsElement(e.node))
  }

  /** Below the root, every node is an element (the editor sits only at the root). */
  ghost predicate WellNested(root: Node)
  {
    forall p :: |p| > 0 && NodeAt(root, p).Some? ==> NodeAt(root, p).value.Element?
  }

  /** `descendants` keeps the walk's order, and on a well-nested tree it is `elements`. */
  lemma DescendantsAreElements(root: Node, o: NodesOptions)
    requires Ready(o)
    ensures Ordered(o.reverse, Descendants(root, o)) && Ordered(o.reverse, Elements(root, o))
    ensures root.Editor? && WellNested(root) ==>
      forall e :: e in Descendants(root, o) <==> e in Elements(root, o)
  {
    NodesGuarantees(root, o);
    FilterOrdered(o.reverse, Nodes(root, o), (e: Entry) => |e.path| > 0);
    FilterOrdered(o.reverse, Nodes(root, o), (e: Entry) => IsElement(e.node));
    if root.Editor? && WellNested(root) {
      assert forall e :: e in Nodes(root, o) ==> (|e.path| > 0 <==> IsElement(e.node));
    }
  }

  // ----- the descent along `from` -----

  /**
   * A cursor of the walk after it has gone `i` levels down along `from`: at
   * `from`'s prefix of length `i`, having left only shorter paths.
   */
  predicate Descending(from: Path, i: nat, c: Cursor)
  {
    i <= |from| && c.p == from[..i] && c.at == c.p && forall q :: q in c.visited ==> |q| < i
  }

  /** Every cursor of the descent along an existing `from` is a valid, fresh cursor. */
  lemma DescentOk(root: Node, o: NodesOptions, i: nat, c: Cursor)
    requires Ready(o) && Descending(o.from, i, c) && NodeAt(root, o.from).Some?
    ensures CursorOk(root, o, c) && Fresh(c)
  {
    NodeAtPrefix(root, o.from, i);
    assert forall j :: 0 <= j < |c.p| ==> c.p[j] == o.from[j];
    AheadNotPrefix(o.reverse, c.p, o.from);
  }

  lemma PrefixSnoc(s: Path, i: nat)
    requires i < |s|
    ensures s[..i + 1] == s[..i] + [s[i]]
  {
  }

  /** Above `from`, the walk goes one level down along `from`. */
  lemma DescentStep(root: Node, o: NodesOptions, i: nat, c: Cursor)
    requires Ready(o) && Descending(o.from, i, c) && i < |o.from| && NodeAt(root, o.from).Some?
    requires forall e :: !o.pass(e)
    requires CursorOk(root, o, c) && Fresh(c)
    ensures Step(root, o, c).Some? && Descending(o.from, i + 1, Step(root, o, c).value)
  {
    var from := o.from;
    PrefixSnoc(from, i);
    NodeAtChild(root, c.p, from[i]);
    NodeAtPrefix(root, from, i + 1);
    CompareZero(c.p, from);
    assert Descends(root, o, c);
    var q := c.p + [from[i]];
    assert Step(root, o, c) == Some(Cursor(q, q, c.visited + {c.at}));
  }

  /**
   * When the node at `from` exists, nothing is vetoed and no prefix of
   * `from` is past the bound, the walk from depth `i` first yields the
   * nodes along `from`, from depth `i` down to `from` itself.
   */
  lemma {:induction false} RunAlongFrom(root: Node, o: NodesOptions, i: nat, c: Cursor)
    requires Ready(o) && Descending(o.from, i, c) && NodeAt(root, o.from).Some?
    requires forall e :: !o.pass(e)
    requires forall j :: i <= j <= |o.from| ==> !Stopped(o, o.from[..j])
    ensures CursorOk(root, o, c)
    ensures |Run(root, o, c)| >= |o.from| + 1 - i && |LevelEntries(root, o.from, false)| == |o.from| + 1
    ensures Run(root, o, c)[..|o.from| + 1 - i] == LevelEntries(root, o.from, false)[i..]
    decreases |o.from| - i
  {
    var from := o.from;
    var levels := LevelEntries(root, from, false);
    LevelEntriesDown(root, from);
    DescentOk(root, o, i, c);
    if i < |from| {
      var d := RunAlongStep(root, o, i, c);
      RunAlongFrom(root, o, i + 1, d);
      ConsPrefix(levels[i], Run(root, o, d), levels, i);
    } else {
      assert levels[i] == Entry(NodeAt(root, from[..i]).value, from[..i]);
      RunAlongEnd(root, o, c, levels[i]);
      assert levels[i..] == [levels[i]];
    }
  }

  /** One level of the descent: the cursor at depth `i` yields its node and steps one level down along `from`. */
  lemma RunAlongStep(root: Node, o: NodesOptions, i: nat, c: Cursor) returns (d: Cursor)
    requires Ready(o) && Descending(o.from, i, c) && NodeAt(root, o.from).Some? && i < |o.from|
    requires forall e :: !o.pass(e)
    requires !Stopped(o, o.from[..i])
    ensures CursorOk(root, o, c) && Descending(o.from, i + 1, d) && CursorOk(root, o, d)
    ensures Run(root, o, c) == [Entry(NodeAt(root, o.from[..i]).value, o.from[..i])] + Run(root, o, d)
  {
    DescentOk(root, o, i, c);
    DescentStep(root, o, i, c);
    d := Step(root, o, c).value;
    RunShifts(root, o, c, d);
  }

  /** At `from` itself the walk yields the node at `from` first. */
  lemma RunAlongEnd(root: Node, o: NodesOptions, c: Cursor, head: Entry)
    requires Ready(o) && CursorOk(root, o, c) && Fresh(c) && !Stopped(o, c.p)
    requires head == Entry(NodeAt(root, c.at).value, c.p)
    ensures |Run(root, o, c)| >= 1 && Run(root, o, c)[..1] == [head]
  {
    RunHead(root, o, c);
    var r := Run(root, o, c);
    assert r[..1] == [r[0]];
  }

  /** Putting the entry at depth `i` in front of the entries below it gives the entries from depth `i`. */
  lemma ConsPrefix(head: Entry, tail: seq<Entry>, levels: seq<Entry>, i: nat)
    requires i + 1 < |levels| && head == levels[i]
    requires |tail| >= |levels| - (i + 1) && tail[..|levels| - (i + 1)] == levels[i + 1..]
    ensures ([head] + tail)[..|levels| - i] == levels[i..]
  {
    assert levels[i..] == [levels[i]] + levels[i + 1..];
  }

  /** A fresh cursor inside the bound that steps to `d` yields its own node, then the run from `d`. */
  lemma RunShifts(root: Node, o: NodesOptions, c: Cursor, d: Cursor)
    requires Ready(o) && CursorOk(root, o, c) && !Stopped(o, c.p) && Fresh(c)
    requires Step(root, o, c) == Some(d)
    ensures CursorOk(root, o, d)
    ensures Run(root, o, c) == [Entry(NodeAt(root, c.at).value, c.p)] + Run(root, o, d)
  {
    RunUnfold(root, o, c);
  }

  /** A fresh cursor inside the bound yields its own node first. */
  lemma RunHead(root: Node, o: NodesOptions, c: Cursor)
    requires Ready(o) && CursorOk(root, o, c) && !Stopped(o, c.p) && Fresh(c)
    ensures |Run(root, o, c)| > 0 && Run(root, o, c)[0] == Entry(NodeAt(root, c.at).value, c.p)
  {
    RunUnfold(root, o, c);
    match Step(root, o, c)
    case None =>
    case Some(d) =>
  }

  /**
   * With no veto and no prefix of `from` past the bound, `nodes` begins with
   * the nodes on the way down to `from`, the root first and `from` last: the
   * entries `levels(from)` gives.
   */
  lemma NodesReachFrom(root: Node, o: NodesOptions)
    requires Ready(o) && NodeAt(root, o.from).Some?
    requires forall e :: !o.pass(e)
    requires forall j :: 0 <= j <= |o.from| ==> !Stopped(o, o.from[..j])
    ensures |Nodes(root, o)| > |o.from| && |LevelEntries(root, o.from, false)| == |o.from| + 1
    ensures Nodes(root, o)[..|o.from| + 1] == LevelEntries(root, o.from, false)
  {
    RunAlongFrom(root, o, 0, Start());
  }

  // ----- completeness -----

  /** The options of a plain `nodes(node)`: the whole tree, forwards, nothing skipped. */
  function WholeTree(): (o: NodesOptions)
    ensures Ready(o)
  {
    NodesOptions([], None, false, (e: Entry) => false)
  }

  /** No index of the path is negative. */
  predicate NonNegative(p: Path)
  {
    forall j :: 0 <= j < |p| ==> p[j] >= 0
  }

  /**
   * A node the walk has to reach: it exists, lies inside the `to` bound and
   * not wholly before `from`, and `pass` approves none of its strict
   * ancestors.
   */
  predicate Due(root: Node, o: NodesOptions, y: Path)
  {
    NodeAt(root, y).Some? && !Stopped(o, y) && !Ahead(o.reverse, y, o.from) &&
    forall j :: 0 <= j < |y| && NodeAt(root, y[..j]).Some? ==> !o.pass(Entry(NodeAt(root, y[..j]).value, y[..j]))
  }

  /**
   * The walk has not passed `y` yet: `y` is the current fresh node or lies
   * below it, or `y` lies ahead of the current path.
   */
  predicate Pending(o: NodesOptions, c: Cursor, y: Path)
  {
    (Fresh(c) && IsPrefix(c.p, y)) || Ahead(o.reverse, c.p, y)
  }

  /**
   * What the visited set holds relative to the cursor: no visited node lies
   * ahead of the current path, and none below it while it is fresh.
   */
  predicate Unseen(o: NodesOptions, c: Cursor)
  {
    forall v :: v in c.visited ==> !Ahead(o.reverse, c.p, v) && (Fresh(c) ==> !IsAncestor(c.p, v))
  }

  /** The walk's invariant: `Unseen`, on a path of indexes that are not negative. */
  predicate Behind(o: NodesOptions, c: Cursor)
  {
    NonNegative(c.p) && Unseen(o, c)
  }

  /** Where the bound stops the walk, it would stop at every path at or after that one. */
  lemma StoppedLater(o: NodesOptions, p: Path, y: Path)
    ensures Stopped(o, p) && (IsPrefix(p, y) || Ahead(o.reverse, p, y)) ==> Stopped(o, y)
  {
    if Stopped(o, p) && (IsPrefix(p, y) || Ahead(o.reverse, p, y)) {
      var t := o.to.value;
      assert Ahead(!o.reverse, p, t);
      if Ahead(o.reverse, p, y) {
        Converses(p, y);
        Converses(y, p);
        AheadTransitive(!o.reverse, y, p, t);
      } else {
        AheadFromPrefix(!o.reverse, p, y, t);
      }
    }
  }

  /** Paths that agree up to `i` and differ there are ordered by their entries at `i`. */
  lemma Fork(a: Path, b: Path, i: nat)
    requires i < |a| && i < |b| && a[..i] == b[..i] && a[i] < b[i]
    ensures IsBefore(a, b) && IsAfter(b, a)
  {
    CompareNegative(a, b);
    Converses(a, b);
  }

  /** The index where a path before another first differs from it. */
  lemma ForkOf(a: Path, b: Path) returns (i: nat)
    requires IsBefore(a, b)
    ensures i < |a| && i < |b| && a[..i] == b[..i] && a[i] < b[i]
  {
    CompareNegative(a, b);
    var k :| 0 <= k < |a| && k < |b| && a[..k] == b[..k] && a[k] < b[k];
    i := k;
  }

  /** Replacing the last index of a non-negative path by a non-negative one keeps it non-negative. */
  lemma SiblingNonNegative(p: Path, q: Path)
    requires NonNegative(p) && |p| > 0 && |q| == |p| && q[..|p| - 1] == p[..|p| - 1] && q[|p| - 1] >= 0
    ensures NonNegative(q)
  {
    forall j | 0 <= j < |q| ensures q[j] >= 0 {
      if j < |p| - 1 {
        assert q[j] == q[..|p| - 1][j];
      }
    }
  }

  /** Going down from a fresh cursor keeps the visited set behind. */
  lemma DownBehind(o: NodesOptions, c: Cursor, d: Cursor, k: int)
    requires Behind(o, c) && Fresh(c) && c.p == c.at && k >= 0
    requires d.p == c.p + [k] && d.visited == c.visited + {c.at}
    ensures Behind(o, d)
  {
    var m := |c.p|;
    assert d.p[..m] == c.p;
    forall j | 0 <= j < |d.p| ensures d.p[j] >= 0 {
      if j < m {
        assert d.p[j] == c.p[j];
      }
    }
    forall v | v in d.visited
      ensures !Ahead(o.reverse, d.p, v) && !IsAncestor(d.p, v)
    {
      AncestorIsStrictPrefix(d.p, v);
      if v == c.at {
        AheadNotPrefix(o.reverse, d.p, v);
      } else {
        if Ahead(o.reverse, d.p, v) {
          ChildAhead(o.reverse, c.p, k, v);
        }
        if IsAncestor(d.p, v) {
          assert v[..m] == d.p[..m];
          AncestorIsStrictPrefix(c.p, v);
        }
      }
    }
  }

  /** Moving to a path ahead, with the same visited set, keeps it behind. */
  lemma SideBehind(o: NodesOptions, c: Cursor, d: Cursor)
    requires Behind(o, c) && Ahead(o.reverse, c.p, d.p) && d.visited == c.visited && NonNegative(d.p)
    ensures Behind(o, d)
  {
    forall v | v in d.visited
      ensures !Ahead(o.reverse, d.p, v) && !IsAncestor(d.p, v)
    {
      if Ahead(o.reverse, d.p, v) {
        AheadTransitive(o.reverse, c.p, d.p, v);
      }
      if IsAncestor(d.p, v) {
        AncestorIsStrictPrefix(d.p, v);
        AheadExtends(o.reverse, c.p, d.p, v);
      }
    }
  }

  /** Going up to a prefix, which becomes visited, keeps the visited set behind. */
  lemma UpBehind(o: NodesOptions, c: Cursor, d: Cursor)
    requires Behind(o, c) && IsPrefix(d.p, c.p) && d.at == d.p && d.visited == c.visited + {d.p}
    ensures Behind(o, d)
  {
    forall j | 0 <= j < |d.p| ensures d.p[j] >= 0 {
      assert d.p[j] == c.p[j];
    }
    forall v | v in d.visited
      ensures !Ahead(o.reverse, d.p, v)
    {
      if v == d.p {
        AheadNotPrefix(o.reverse, d.p, v);
      } else if Ahead(o.reverse, d.p, v) {
        AheadFromPrefix(o.reverse, d.p, c.p, v);
      }
    }
  }

  /** Forwards, moving to the next sibling or up keeps the visited set behind. */
  lemma AcrossBehind(o: NodesOptions, c: Cursor, d: Cursor)
    requires Behind(o, c) && !o.reverse && |c.p| > 0
    requires (d.p == Next(c.p).value && d.visited == c.visited) ||
             (d.p == Parent(c.p).value && d.at == d.p && d.visited == c.visited + {d.p})
    ensures Behind(o, d)
  {
    SiblingsOf(c.p);
    PrefixSteps(false, c.p);
    if |d.p| == |c.p| {
      SiblingNonNegative(c.p, d.p);
      SideBehind(o, c, d);
    } else {
      UpBehind(o, c, d);
    }
  }

  /** In reverse, moving to the previous sibling or up keeps the visited set behind. */
  lemma BackBehind(o: NodesOptions, c: Cursor, d: Cursor)
    requires Behind(o, c) && o.reverse && |c.p| > 0
    requires (Previous(c.p).Some? && d.p == Previous(c.p).value && d.visited == c.visited) ||
             (d.p == Parent(c.p).value && d.at == d.p && d.visited == c.visited + {d.p})
    ensures Behind(o, d)
  {
    SiblingsOf(c.p);
    PrefixSteps(true, c.p);
    if |d.p| == |c.p| {
      SiblingNonNegative(c.p, d.p);
      SideBehind(o, c, d);
    } else {
      UpBehind(o, c, d);
    }
  }

  /** Every step keeps the visited set behind the cursor. */
  lemma StepBehind(root: Node, o: NodesOptions, c: Cursor)
    requires Ready(o) && NonNegative(o.from) && CursorOk(root, o, c) && Behind(o, c) && Step(root, o, c).Some?
    ensures Behind(o, Step(root, o, c).value)
  {
    var d := Step(root, o, c).value;
    if Descends(root, o, c) {
      var n := NodeAt(root, c.at).value;
      var k := if IsAncestor(c.p, o.from) then o.from[|c.p|] else if o.reverse then |n.children| - 1 else 0;
      StepDown(root, o, c);
      DownBehind(o, c, d, k);
    } else if o.reverse {
      StepBack(root, o, c);
      BackBehind(o, c, d);
    } else {
      StepAcross(root, o, c);
      AcrossBehind(o, c, d);
    }
  }

  /** A path ahead of a cursor that stayed behind has not been visited. */
  lemma NotVisited(o: NodesOptions, c: Cursor, v: Path)
    requires Unseen(o, c) && Ahead(o.reverse, c.p, v)
    ensures v !in c.visited
  {
  }

  /** Where a cursor goes when it goes down. */
  lemma StepDown(root: Node, o: NodesOptions, c: Cursor)
    requires Ready(o) && CursorOk(root, o, c) && Descends(root, o, c)
    ensures var n := NodeAt(root, c.at).value;
      var k := if IsAncestor(c.p, o.from) then o.from[|c.p|] else if o.reverse then |n.children| - 1 else 0;
      var q := c.p + [k];
      Step(root, o, c) == Some(Cursor(q, if NodeAt(root, q).Some? then q else c.at, c.visited + {c.at}))
  {
  }

  /** A fresh cursor above a due node goes down, towards it or to a path before it. */
  lemma DescendPending(root: Node, o: NodesOptions, c: Cursor, y: Path)
    requires NodeAt(root, y).Some? && !Ahead(o.reverse, y, o.from) && Unseen(o, c)
    requires Fresh(c) && c.at == c.p && IsAncestor(c.p, y) && NodeAt(root, c.p).Some?
    ensures var n := NodeAt(root, c.p).value;
      |n.children| > 0 &&
      var k := if IsAncestor(c.p, o.from) then o.from[|c.p|] else if o.reverse then |n.children| - 1 else 0;
      var q := c.p + [k];
      Pending(o, Cursor(q, if NodeAt(root, q).Some? then q else c.at, c.visited + {c.at}), y)
  {
    var m := |c.p|;
    var n := NodeAt(root, c.p).value;
    AncestorIsStrictPrefix(c.p, y);
    assert y[..m] == c.p;
    var j := y[m];
    NodeAtPrefix(root, y, m + 1);
    assert y[..m + 1] == c.p + [j];
    NodeAtChild(root, c.p, j);
    var k := if IsAncestor(c.p, o.from) then o.from[m] else if o.reverse then |n.children| - 1 else 0;
    var q := c.p + [k];
    var d := Cursor(q, if NodeAt(root, q).Some? then q else c.at, c.visited + {c.at});
    assert d.p[..m] == y[..m];
    if k == j {
      AncestorIsStrictPrefix(c.p, d.p);
      assert d.at == d.p && Fresh(d);
    } else {
      if IsAncestor(c.p, o.from) {
        AncestorIsStrictPrefix(c.p, o.from);
        if o.reverse && k < j {
          Fork(o.from, y, m);
        } else if !o.reverse && k > j {
          Fork(y, o.from, m);
        }
      }
      if o.reverse {
        Fork(y, d.p, m);
      } else {
        Fork(d.p, y, m);
      }
    }
  }

  /** A cursor that goes down keeps every path ahead of it ahead. */
  lemma DescendAhead(root: Node, o: NodesOptions, c: Cursor, y: Path)
    requires Ready(o) && CursorOk(root, o, c) && Descends(root, o, c) && Ahead(o.reverse, c.p, y)
    ensures Step(root, o, c).Some? && Ahead(o.reverse, Step(root, o, c).value.p, y)
  {
    var d := Step(root, o, c).value;
    assert d.p[..|c.p|] == c.p;
    AheadFromPrefix(o.reverse, c.p, d.p, y);
  }

  /** `next`, `previous` and `parent` of a non-empty path, spelled out. */
  lemma SiblingsOf(p: Path)
    requires |p| > 0
    ensures var m := |p| - 1;
      Parent(p) == Some(p[..m]) && Next(p) == Some(p[..m] + [p[m] + 1]) && TreePaths.Last(p) == Some(p[m]) &&
      (p[m] > 0 ==> Previous(p) == Some(p[..m] + [p[m] - 1]))
  {
  }

  /** Forwards, the next sibling of a path before `y` is `y`'s own ancestor-or-self, or still before `y`. */
  lemma NextToward(p: Path, y: Path, i: nat)
    requires |p| > 0 && i < |p| && i < |y| && p[..i] == y[..i] && p[i] < y[i]
    ensures var nx := p[..|p| - 1] + [p[|p| - 1] + 1]; IsPrefix(nx, y) || IsBefore(nx, y)
  {
    var m := |p| - 1;
    var nx := p[..m] + [p[m] + 1];
    if i < m {
      assert nx[..i] == p[..i];
      Fork(nx, y, i);
    } else if y[m] == nx[m] {
      assert y[..m + 1] == nx;
    } else {
      assert nx[..m] == y[..m];
      Fork(nx, y, m);
    }
  }

  /** In reverse, the previous sibling of a path after `y` is `y`'s own ancestor-or-self, or still after `y`. */
  lemma PreviousToward(p: Path, y: Path, i: nat)
    requires |p| > 0 && i < |p| && i < |y| && p[..i] == y[..i] && y[i] < p[i]
    ensures var pv := p[..|p| - 1] + [p[|p| - 1] - 1]; IsPrefix(pv, y) || IsAfter(pv, y)
  {
    var m := |p| - 1;
    var pv := p[..m] + [p[m] - 1];
    if i < m {
      assert pv[..i] == p[..i];
      Fork(y, pv, i);
    } else if y[m] == pv[m] {
      assert y[..m + 1] == pv;
    } else {
      assert pv[..m] == y[..m];
      Fork(y, pv, m);
    }
  }

  /** The parent of an existing cursor's path exists. */
  lemma CursorParent(root: Node, c: Cursor)
    requires NodeAt(root, c.at).Some? && |c.p| > 0
    requires c.p == c.at || (|c.p| == |c.at| + 1 && c.p[..|c.at|] == c.at)
    ensures NodeAt(root, c.p[..|c.p| - 1]).Some?
  {
    if c.p == c.at {
      NodeAtPrefix(root, c.p, |c.p| - 1);
    } else {
      assert c.p[..|c.p| - 1] == c.at;
    }
  }

  /** Forwards, a cursor that does not go down moves to an existing next sibling. */
  lemma StepNext(root: Node, o: NodesOptions, c: Cursor)
    requires Ready(o) && CursorOk(root, o, c) && !Descends(root, o, c) && |c.p| > 0 && !o.reverse
    requires NodeAt(root, Next(c.p).value).Some?
    ensures Step(root, o, c) == Some(Cursor(Next(c.p).value, Next(c.p).value, c.visited))
  {
  }

  /** In reverse, a cursor that does not go down and is not a first child moves to its previous sibling. */
  lemma StepPrevious(root: Node, o: NodesOptions, c: Cursor)
    requires Ready(o) && CursorOk(root, o, c) && !Descends(root, o, c) && |c.p| > 0 && o.reverse
    requires TreePaths.Last(c.p) != Some(0)
    ensures var q := Previous(c.p).value;
      Step(root, o, c) == Some(Cursor(q, if NodeAt(root, q).Some? then q else c.at, c.visited))
  {
  }

  /** A cursor with no sibling to move to goes up to its existing parent. */
  lemma StepUp(root: Node, o: NodesOptions, c: Cursor)
    requires Ready(o) && CursorOk(root, o, c) && !Descends(root, o, c) && |c.p| > 0
    requires if o.reverse then TreePaths.Last(c.p) == Some(0) else NodeAt(root, Next(c.p).value).None?
    requires NodeAt(root, Parent(c.p).value).Some?
    ensures var q := Parent(c.p).value; Step(root, o, c) == Some(Cursor(q, q, c.visited + {q}))
  {
  }

  /** Forwards, a cursor before `y` that moves to its next sibling or up keeps `y` pending. */
  lemma ForwardPending(root: Node, o: NodesOptions, c: Cursor, y: Path)
    requires NodeAt(root, y).Some? && Unseen(o, c) && !o.reverse
    requires IsBefore(c.p, y) && c.p[|c.p| - 1] >= 0
    ensures var nx := Next(c.p).value; var q := Parent(c.p).value;
      if NodeAt(root, nx).Some? then Pending(o, Cursor(nx, nx, c.visited), y)
      else Pending(o, Cursor(q, q, c.visited + {q}), y)
  {
    var i := ForkOf(c.p, y);
    var m := |c.p| - 1;
    var q := c.p[..m];
    var nx := q + [c.p[m] + 1];
    SiblingsOf(c.p);
    if NodeAt(root, nx).Some? {
      NextToward(c.p, y, i);
      PrefixSteps(false, c.p);
      NotVisited(o, c, nx);
    } else {
      assert i < m by {
        if i == m {
          NodeAtPrefix(root, y, m + 1);
          SiblingExists(root, y[..m + 1], nx);
        }
      }
      assert q[..i] == c.p[..i];
      Fork(q, y, i);
    }
  }

  /** In reverse, a cursor after `y` that moves to its previous sibling or up keeps `y` pending. */
  lemma ReversePending(root: Node, o: NodesOptions, c: Cursor, y: Path)
    requires NodeAt(root, y).Some? && Unseen(o, c) && o.reverse
    requires IsAfter(c.p, y)
    ensures var q := Parent(c.p).value;
      if c.p[|c.p| - 1] > 0 then
        var pv := Previous(c.p).value;
        Pending(o, Cursor(pv, if NodeAt(root, pv).Some? then pv else c.at, c.visited), y)
      else c.p[|c.p| - 1] == 0 ==> Pending(o, Cursor(q, q, c.visited + {q}), y)
  {
    Converses(y, c.p);
    var i := ForkOf(y, c.p);
    SiblingsOf(c.p);
    if c.p[|c.p| - 1] > 0 {
      BackToward(root, o, c, y, i);
    } else if c.p[|c.p| - 1] == 0 {
      BackUp(root, o, c, y, i);
    }
  }

  /** In reverse, the previous sibling of a cursor after `y` has `y` pending. */
  lemma BackToward(root: Node, o: NodesOptions, c: Cursor, y: Path, i: nat)
    requires NodeAt(root, y).Some? && Unseen(o, c) && o.reverse
    requires i < |c.p| && i < |y| && c.p[..i] == y[..i] && y[i] < c.p[i] && c.p[|c.p| - 1] > 0
    ensures var pv := c.p[..|c.p| - 1] + [c.p[|c.p| - 1] - 1];
      Pending(o, Cursor(pv, if NodeAt(root, pv).Some? then pv else c.at, c.visited), y)
  {
    var m := |c.p| - 1;
    var pv := c.p[..m] + [c.p[m] - 1];
    PreviousToward(c.p, y, i);
    if IsPrefix(pv, y) {
      NodeAtPrefix(root, y, m + 1);
      assert y[..m + 1] == pv;
      SiblingsOf(c.p);
      PrefixSteps(true, c.p);
      NotVisited(o, c, pv);
    }
  }

  /** The indexes of a path that names a node are not negative. */
  lemma IndexNotNegative(root: Node, y: Path, j: nat)
    requires NodeAt(root, y).Some? && j < |y|
    ensures y[j] >= 0
  {
    ExistingIndexes(root, y);
  }

  /** In reverse, the parent of a first child after `y` is after `y`. */
  lemma BackUp(root: Node, o: NodesOptions, c: Cursor, y: Path, i: nat)
    requires NodeAt(root, y).Some?
    requires i < |c.p| && i < |y| && c.p[..i] == y[..i] && y[i] < c.p[i] && c.p[|c.p| - 1] == 0
    ensures var q := c.p[..|c.p| - 1]; IsAfter(q, y)
  {
    var m := |c.p| - 1;
    var q := c.p[..m];
    IndexNotNegative(root, y, i);
    assert q[..i] == c.p[..i];
    Fork(y, q, i);
  }

  /** Forwards, where a cursor goes when it does not go down. */
  lemma StepAcross(root: Node, o: NodesOptions, c: Cursor)
    requires Ready(o) && CursorOk(root, o, c) && !Descends(root, o, c) && |c.p| > 0 && !o.reverse
    ensures var nx := Next(c.p).value; var q := Parent(c.p).value;
      Step(root, o, c) == if NodeAt(root, nx).Some? then Some(Cursor(nx, nx, c.visited))
                          else Some(Cursor(q, q, c.visited + {q}))
  {
    CursorParent(root, c);
    SiblingsOf(c.p);
    if NodeAt(root, Next(c.p).value).Some? {
      StepNext(root, o, c);
    } else {
      StepUp(root, o, c);
    }
  }

  /** In reverse, where a cursor goes when it does not go down. */
  lemma StepBack(root: Node, o: NodesOptions, c: Cursor)
    requires Ready(o) && CursorOk(root, o, c) && !Descends(root, o, c) && |c.p| > 0 && o.reverse
    ensures c.p[|c.p| - 1] >= 0
    ensures var q := Parent(c.p).value;
      Step(root, o, c) ==
        if c.p[|c.p| - 1] > 0 then
          var pv := Previous(c.p).value;
          Some(Cursor(pv, if NodeAt(root, pv).Some? then pv else c.at, c.visited))
        else Some(Cursor(q, q, c.visited + {q}))
  {
    CursorParent(root, c);
    SiblingsOf(c.p);
    if c.p[|c.p| - 1] != 0 {
      StepPrevious(root, o, c);
    } else {
      StepUp(root, o, c);
    }
  }

  /** Unless the cursor yields `y` now, it steps on with `y` still pending. */
  lemma PendingStep(root: Node, o: NodesOptions, c: Cursor, y: Path) returns (d: Cursor)
    requires Ready(o) && CursorOk(root, o, c) && Behind(o, c) && Due(root, o, y)
    requires Pending(o, c, y) && !(Fresh(c) && c.p == y)
    ensures Step(root, o, c) == Some(d) && Pending(o, d, y)
  {
    if Fresh(c) && IsPrefix(c.p, y) {
      AncestorIsStrictPrefix(c.p, y);
      assert c.p == y[..|c.p|] && c.at == c.p;
      DescendPending(root, o, c, y);
      StepDown(root, o, c);
    } else if Descends(root, o, c) {
      DescendAhead(root, o, c, y);
    } else if o.reverse {
      StepBack(root, o, c);
      ReversePending(root, o, c, y);
    } else {
      StepAcross(root, o, c);
      ForwardPending(root, o, c, y);
    }
    d := Step(root, o, c).value;
  }

  /** From a cursor with the visited set behind it, the walk yields every due node still pending. */
  lemma {:induction false} RunComplete(root: Node, o: NodesOptions, c: Cursor, y: Path)
    requires Ready(o) && NonNegative(o.from) && CursorOk(root, o, c) && Behind(o, c)
    requires Due(root, o, y) && Pending(o, c, y)
    ensures Entry(NodeAt(root, y).value, y) in Run(root, o, c)
    decreases |AllPaths(root) - c.visited|, Gap(root, o, c.p)
  {
    StoppedLater(o, c.p, y);
    if Fresh(c) && c.p == y {
      RunHead(root, o, c);
      assert Run(root, o, c)[0] in Run(root, o, c);
    } else {
      var d := PendingStep(root, o, c, y);
      StepKeeps(root, o, c);
      StepBehind(root, o, c);
      RunComplete(root, o, d, y);
      RunUnfold(root, o, c);
    }
  }

  /**
   * `nodes` reaches every due node: each node inside the `to` bound, not
   * wholly before `from`, with no strict ancestor approved by `pass`.
   */
  lemma NodesComplete(root: Node, o: NodesOptions, y: Path)
    requires Ready(o) && NonNegative(o.from) && Due(root, o, y)
    ensures Entry(NodeAt(root, y).value, y) in Nodes(root, o)
  {
    AheadNotPrefix(o.reverse, [], o.from);
    RunComplete(root, o, Start(), y);
  }

  /** The strict ancestors of a yielded node are none of them approved by `pass`. */
  lemma {:induction false} NoVetoAbove(root: Node, o: NodesOptions, y: Path, j: nat)
    requires Ready(o) && NonNegative(o.from) && j <= |y|
    requires NodeAt(root, y).Some? && !Stopped(o, y) && !Ahead(o.reverse, y, o.from)
    requires Entry(NodeAt(root, y).value, y) in Nodes(root, o)
    ensures forall i :: 0 <= i < j && NodeAt(root, y[..i]).Some? ==> !o.pass(Entry(NodeAt(root, y[..i]).value, y[..i]))
  {
    if j > 0 {
      NoVetoAbove(root, o, y, j - 1);
      var a := y[..j - 1];
      NodeAtPrefix(root, y, j - 1);
      var e := Entry(NodeAt(root, a).value, a);
      assert Due(root, o, a) by {
        StoppedLater(o, a, y);
        if Ahead(o.reverse, a, o.from) {
          AheadFromPrefix(o.reverse, a, y, o.from);
        }
        assert forall i :: 0 <= i < |a| ==> a[..i] == y[..i];
      }
      NodesComplete(root, o, a);
      NodesVeto(root, o);
      AncestorIsStrictPrefix(a, y);
      assert !o.pass(e);
    }
  }

  /**
   * Soundness and completeness together: with a non-negative `from`, a
   * path is among those `nodes` yields exactly when its node is due.
   */
  lemma NodesYieldIff(root: Node, o: NodesOptions, y: Path)
    requires Ready(o) && NonNegative(o.from)
    ensures (exists e :: e in Nodes(root, o) && e.path == y) <==> Due(root, o, y)
  {
    if exists e :: e in Nodes(root, o) && e.path == y {
      var e :| e in Nodes(root, o) && e.path == y;
      NodesGuarantees(root, o);
      NoVetoAbove(root, o, y, |y|);
    }
    if Due(root, o, y) {
      NodesComplete(root, o, y);
    }
  }

  /** With no `from`, no `to` and no `pass`, `nodes` yields the path of every node of the tree. */
  lemma WholeTreePaths(root: Node)
    ensures (set e | e in Nodes(root, WholeTree()) :: e.path) == AllPaths(root)
  {
    var o := WholeTree();
    var s := set e | e in Nodes(root, o) :: e.path;
    forall y ensures y in s <==> y in AllPaths(root) {
      AllPathsIff(root, y);
      NodesYieldIff(root, o, y);
      AheadNotPrefix(false, y, []);
    }
  }

}
