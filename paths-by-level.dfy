/**
 * `pathsByLevel`: the paths of the tree grouped by depth, found by a
 * breadth-first walk with a first-in first-out queue, up to an optional
 * maximum depth.
 */
module PathsByLevels {
  import opened Wrappers
  import opened TreeElements
  import opened TreePaths
  import opened TreeNodes

  // ----- the levels of a tree -----

  /** The depth of the deepest node below `n` (0 for a node without children). */
  function Height(n: Node): nat
    decreases n, |n.children| + 1
  {
    Tallest(n, 0)
  }

  /** One more than the greatest height of the children of `n` from index `k` on; 0 when there are none. */
  function Tallest(n: Node, k: nat): nat
    decreases n, |n.children| - k
  {
    if k >= |n.children| then 0
    else
      var h := 1 + Height(n.children[k]);
      var rest := Tallest(n, k + 1);
      if h > rest then h else rest
  }

  /** Every child is lower than its parent. */
  lemma {:induction false} ChildLower(n: Node, k: nat, i: nat)
    requires k <= i < |n.children|
    ensures Height(n.children[i]) < Tallest(n, k)
    decreases i - k
  {
    if k < i {
      ChildLower(n, k + 1, i);
    }
  }

  /** No existing path is longer than the height of the tree. */
  lemma {:induction false} PathWithinHeight(n: Node, p: Path)
    requires NodeAt(n, p).Some?
    ensures |p| <= Height(n)
    decreases |p|
  {
    if |p| > 0 {
      PathWithinHeight(n.children[p[0]], p[1..]);
      ChildLower(n, 0, p[0]);
    }
  }

  /** The children of an entry with their paths, in index order: what the `forEach` enqueues. */
  function Offspring(e: Entry): (r: seq<Entry>)
    ensures |r| == |e.node.children|
    ensures forall k :: 0 <= k < |r| ==> r[k] == Entry(e.node.children[k], e.path + [k])
  {
    seq(|e.node.children|, k requires 0 <= k < |e.node.children| => Entry(e.node.children[k], e.path + [k]))
  }

  /** The children of a list of entries, each entry's children in turn. */
  function Kids(s: seq<Entry>): seq<Entry>
  {
    if |s| == 0 then [] else Offspring(s[0]) + Kids(s[1..])
  }

  /** The entries at depth `d`, in the order the queue gives them. */
  function Level(root: Node, d: nat): seq<Entry>
    decreases d, 0
  {
    if d == 0 then [Entry(root, [])] else Below(root, d - 1)
  }

  /** The entries one level below those at depth `d`. */
  function Below(root: Node, d: nat): seq<Entry>
    decreases d, 1
  {
    Kids(Level(root, d))
  }

  /** The paths of a list of entries. */
  function PathsOf(s: seq<Entry>): (r: seq<Path>)
    ensures |r| == |s|
    ensures forall i :: 0 <= i < |s| ==> r[i] == s[i].path
  {
    seq(|s|, i requires 0 <= i < |s| => s[i].path)
  }

  /** The paths of every level down to the height of the tree; every deeper level is empty. */
  function Rows(root: Node): (r: seq<seq<Path>>)
    ensures |r| == Height(root) + 1
  {
    seq(Height(root) + 1, d requires 0 <= d <= Height(root) => PathsOf(Level(root, d)))
  }

  /** The paths of the levels above depth `n`, the root's first. */
  function LevelsAbove(root: Node, n: nat): (r: seq<seq<Path>>)
    ensures |r| == n
  {
    if n == 0 then [] else LevelsAbove(root, n - 1) + [PathsOf(Level(root, n - 1))]
  }

  /** The levels above depth `n` are the first `n` rows. */
  lemma {:induction false} LevelsAboveRows(root: Node, n: nat)
    requires n <= Height(root) + 1
    ensures LevelsAbove(root, n) == Rows(root)[..n]
  {
    if n > 0 {
      LevelsAboveRows(root, n - 1);
      assert Rows(root)[..n] == Rows(root)[..n - 1] + [Rows(root)[n - 1]];
    }
  }

  /** A non-empty level lies within the height of the tree. */
  lemma LevelWithinHeight(root: Node, d: nat)
    ensures |Level(root, d)| > 0 ==> d <= Height(root)
  {
    if |Level(root, d)| > 0 {
      LevelSound(root, d);
      var e := Level(root, d)[0];
      PathWithinHeight(root, e.path);
    }
  }

  /** Row `n` is one `pathsByLevel` keeps: it has paths and lies within `maxDepth`. */
  predicate Takes(rows: seq<seq<Path>>, maxDepth: Option<int>, n: nat)
  {
    n < |rows| && |rows[n]| > 0 && (maxDepth.None? || n <= maxDepth.value)
  }

  /** Where `pathsByLevel` stops: at a row that is missing, empty or beyond `maxDepth`. */
  predicate Stops(rows: seq<seq<Path>>, maxDepth: Option<int>, n: nat)
  {
    !Takes(rows, maxDepth, n)
  }

  /** The rows from depth `d` on, while they have paths and lie within `maxDepth`. */
  function Gather(rows: seq<seq<Path>>, maxDepth: Option<int>, d: nat): seq<seq<Path>>
    decreases |rows| - d
  {
    if Stops(rows, maxDepth, d) then [] else [rows[d]] + Gather(rows, maxDepth, d + 1)
  }

  /**
   * What `pathsByLevel` returns: one list of paths per depth, from the
   * root's down to `maxDepth` or the deepest level. With a negative
   * `maxDepth` the root is not even recorded: the result is the initial
   * single empty level.
   */
  function ByLevel(root: Node, maxDepth: Option<int>): seq<seq<Path>>
  {
    if maxDepth.Some? && maxDepth.value < 0 then [[]] else Gather(Rows(root), maxDepth, 0)
  }

  // ----- properties of the levels -----

  /** The children of entries at depth `d` that exist are entries at depth `d + 1` that exist. */
  lemma {:induction false} KidsSound(root: Node, s: seq<Entry>, d: nat)
    requires forall x :: x in s ==> |x.path| == d && NodeAt(root, x.path) == Some(x.node)
    ensures forall y :: y in Kids(s) ==> |y.path| == d + 1 && NodeAt(root, y.path) == Some(y.node)
  {
    if |s| > 0 {
      assert s[0] in s;
      KidsSound(root, s[1..], d);
      forall k | 0 <= k < |s[0].node.children|
        ensures NodeAt(root, s[0].path + [k]) == Some(s[0].node.children[k])
      {
        NodeAtChild(root, s[0].path, k);
      }
    }
  }

  /** Every entry of a level has the level's depth and is the node at its path. */
  lemma {:induction false} LevelSound(root: Node, d: nat)
    ensures forall e :: e in Level(root, d) ==> |e.path| == d && NodeAt(root, e.path) == Some(e.node)
  {
    if d > 0 {
      LevelSound(root, d - 1);
      KidsSound(root, Level(root, d - 1), d - 1);
    }
  }

  /** Each child of an entry of `s` is among the children of `s`. */
  lemma {:induction false} KidsComplete(s: seq<Entry>, x: Entry, k: nat)
    requires x in s && k < |x.node.children|
    ensures Entry(x.node.children[k], x.path + [k]) in Kids(s)
  {
    if s[0] == x {
      assert Offspring(x)[k] == Entry(x.node.children[k], x.path + [k]);
    } else {
      KidsComplete(s[1..], x, k);
    }
  }

  /** Every existing path has its entry in the level of its length. */
  lemma {:induction false} LevelComplete(root: Node, p: Path)
    requires NodeAt(root, p).Some?
    ensures Entry(NodeAt(root, p).value, p) in Level(root, |p|)
    decreases |p|
  {
    if |p| > 0 {
      var q := p[..|p| - 1];
      var k := p[|p| - 1];
      assert p == q + [k];
      NodeAtChild(root, q, k);
      LevelComplete(root, q);
      KidsComplete(Level(root, |q|), Entry(NodeAt(root, q).value, q), k);
    }
  }

  /** The entries' paths are in strictly increasing lexicographic order. */
  predicate Sorted(s: seq<Entry>)
  {
    forall i, j :: 0 <= i < j < |s| ==> IsBefore(s[i].path, s[j].path)
  }

  /** The children of two paths compare as the parents do at the parents' first difference. */
  lemma {:induction false} SiblingsInOrder(p: Path, i: int, j: int)
    requires i < j
    ensures IsBefore(p + [i], p + [j])
    decreases |p|
  {
    if |p| > 0 {
      assert (p + [i])[1..] == p[1..] + [i] && (p + [j])[1..] == p[1..] + [j];
      SiblingsInOrder(p[1..], i, j);
    }
  }

  /** Below entries that all come after `a`, every child comes after `a` too. */
  lemma {:induction false} KidsAfter(s: seq<Entry>, a: Path)
    requires forall x :: x in s ==> IsBefore(a, x.path)
    ensures forall y :: y in Kids(s) ==> IsBefore(a, y.path)
  {
    if |s| > 0 {
      assert s[0] in s;
      KidsAfter(s[1..], a);
      forall k | 0 <= k < |s[0].node.children|
        ensures IsBefore(a, s[0].path + [k])
      {
        BeforeExtends(a, s[0].path, s[0].path + [k]);
      }
    }
  }

  /** Two sorted lists, all of the first before all of the second, make a sorted list. */
  lemma SortedConcat(a: seq<Entry>, b: seq<Entry>)
    requires Sorted(a) && Sorted(b)
    requires forall x, y :: x in a && y in b ==> IsBefore(x.path, y.path)
    ensures Sorted(a + b)
  {
    var c := a + b;
    forall i, j | 0 <= i < j < |c|
      ensures IsBefore(c[i].path, c[j].path)
    {
      if j < |a| {
        assert c[i] == a[i] && c[j] == a[j];
      } else if i >= |a| {
        assert c[i] == b[i - |a|] && c[j] == b[j - |a|];
      } else {
        assert c[i] == a[i] && c[j] == b[j - |a|];
        assert a[i] in a && b[j - |a|] in b;
      }
    }
  }

  /** The children of a sorted list come out sorted. */
  lemma {:induction false} KidsSorted(s: seq<Entry>)
    requires Sorted(s)
    ensures Sorted(Kids(s))
  {
    if |s| > 0 {
      assert Sorted(s[1..]) by {
        forall i, j | 0 <= i < j < |s[1..]|
          ensures IsBefore(s[1..][i].path, s[1..][j].path)
        {
          assert s[1..][i] == s[i + 1] && s[1..][j] == s[j + 1];
        }
      }
      KidsSorted(s[1..]);
      var own := Offspring(s[0]);
      assert Sorted(own) by {
        forall i, j | 0 <= i < j < |own|
          ensures IsBefore(own[i].path, own[j].path)
        {
          SiblingsInOrder(s[0].path, i, j);
        }
      }
      assert forall x :: x in s[1..] ==> IsBefore(s[0].path, x.path) by {
        forall x | x in s[1..]
          ensures IsBefore(s[0].path, x.path)
        {
          var j :| 0 <= j < |s[1..]| && s[1..][j] == x;
          assert s[j + 1] == x;
        }
      }
      KidsAfter(s[1..], s[0].path);
      forall x, y | x in own && y in Kids(s[1..])
        ensures IsBefore(x.path, y.path)
      {
        var k :| 0 <= k < |own| && own[k] == x;
        BeforeFromPrefix(s[0].path, x.path, y.path);
      }
      SortedConcat(own, Kids(s[1..]));
    }
  }

  /** Every level is sorted. */
  lemma {:induction false} LevelSorted(root: Node, d: nat)
    ensures Sorted(Level(root, d))
  {
    if d > 0 {
      LevelSorted(root, d - 1);
      KidsSorted(Level(root, d - 1));
    }
  }

  /** `Gather` from depth `d` lists the rows `d` to `count - 1`, when those are the ones it takes. */
  lemma {:induction false} GatherAll(rows: seq<seq<Path>>, maxDepth: Option<int>, d: nat, count: nat)
    requires d <= count <= |rows|
    requires forall k :: d <= k < count ==> Takes(rows, maxDepth, k)
    requires Stops(rows, maxDepth, count)
    ensures Gather(rows, maxDepth, d) == rows[d..count]
    decreases count - d
  {
    if d < count {
      assert Takes(rows, maxDepth, d);
      GatherAll(rows, maxDepth, d + 1, count);
      assert rows[d..count] == [rows[d]] + rows[d + 1..count];
    }
  }

  /** Entry `k` of `Gather` from depth `d` is row `d + k`, which it takes. */
  lemma {:induction false} GatherAt(rows: seq<seq<Path>>, maxDepth: Option<int>, d: nat, k: nat)
    requires k < |Gather(rows, maxDepth, d)|
    ensures Takes(rows, maxDepth, d + k)
    ensures Gather(rows, maxDepth, d)[k] == rows[d + k]
    decreases k
  {
    if k > 0 {
      GatherAt(rows, maxDepth, d + 1, k - 1);
    }
  }

  /** `Gather` from depth `d` stops at the first row that is missing, empty or beyond `maxDepth`. */
  lemma {:induction false} GatherEnd(rows: seq<seq<Path>>, maxDepth: Option<int>, d: nat)
    ensures Stops(rows, maxDepth, d + |Gather(rows, maxDepth, d)|)
    decreases |rows| - d
  {
    if Takes(rows, maxDepth, d) {
      GatherEnd(rows, maxDepth, d + 1);
    }
  }

  /** A level `pathsByLevel` records: it has nodes and lies within `maxDepth`. */
  predicate Recorded(root: Node, maxDepth: Option<int>, n: nat)
  {
    |Level(root, n)| > 0 && (maxDepth.None? || n <= maxDepth.value)
  }

  /** The rows of a tree are taken exactly where the level has nodes and lies within `maxDepth`. */
  lemma RowsTake(root: Node, maxDepth: Option<int>, n: nat)
    ensures Takes(Rows(root), maxDepth, n) <==> Recorded(root, maxDepth, n)
  {
    LevelWithinHeight(root, n);
    if n <= Height(root) {
      assert Rows(root)[n] == PathsOf(Level(root, n));
    }
  }

  /**
   * The level of depth `d` of `pathsByLevel`: every path in it has length
   * `d` and names a node; the paths are in strictly increasing
   * lexicographic order, so none comes twice.
   */
  lemma ByLevelLevels(root: Node, maxDepth: Option<int>, d: nat)
    requires d < |ByLevel(root, maxDepth)|
    ensures forall p :: p in ByLevel(root, maxDepth)[d] ==> |p| == d && NodeAt(root, p).Some?
    ensures forall i, j :: 0 <= i < j < |ByLevel(root, maxDepth)[d]| ==>
      IsBefore(ByLevel(root, maxDepth)[d][i], ByLevel(root, maxDepth)[d][j])
  {
    if !(maxDepth.Some? && maxDepth.value < 0) {
      GatherAt(Rows(root), maxDepth, 0, d);
      assert Rows(root)[d] == PathsOf(Level(root, d));
      var level := Level(root, d);
      var paths := PathsOf(level);
      assert ByLevel(root, maxDepth)[d] == paths;
      LevelSound(root, d);
      LevelSorted(root, d);
      forall p | p in paths
        ensures |p| == d && NodeAt(root, p).Some?
      {
        var i :| 0 <= i < |level| && paths[i] == p;
        assert level[i] in level;
      }
      forall i, j | 0 <= i < j < |paths|
        ensures IsBefore(paths[i], paths[j])
      {
        assert paths[i] == level[i].path && paths[j] == level[j].path;
      }
    }
  }

  /**
   * `pathsByLevel` starts with the root's level, `[[]]`; with a negative
   * `maxDepth` that level stays empty.
   */
  lemma ByLevelRoot(root: Node, maxDepth: Option<int>)
    ensures |ByLevel(root, maxDepth)| > 0
    ensures ByLevel(root, maxDepth)[0] == if maxDepth.Some? && maxDepth.value < 0 then [] else [[]]
  {
    if !(maxDepth.Some? && maxDepth.value < 0) {
      assert Rows(root)[0] == PathsOf(Level(root, 0));
      assert Takes(Rows(root), maxDepth, 0);
      assert Rows(root)[0] == [[]];
    }
  }

  /**
   * Up to `maxDepth`, every path that names a node is in the level of its
   * length; and no level deeper than `maxDepth` is present.
   */
  lemma ByLevelComplete(root: Node, maxDepth: Option<int>, p: Path)
    requires NodeAt(root, p).Some? && (maxDepth.None? || |p| <= maxDepth.value)
    ensures |p| < |ByLevel(root, maxDepth)| && p in ByLevel(root, maxDepth)[|p|]
  {
    GatherEnd(Rows(root), maxDepth, 0);
    var n := |Gather(Rows(root), maxDepth, 0)|;
    LevelsReach(root, p, n);
    RowsTake(root, maxDepth, n);
    assert |p| < n;
    GatherAt(Rows(root), maxDepth, 0, |p|);
    PathWithinHeight(root, p);
    assert Rows(root)[|p|] == PathsOf(Level(root, |p|));
    var level := Level(root, |p|);
    var paths := PathsOf(level);
    assert ByLevel(root, maxDepth)[|p|] == paths;
    LevelComplete(root, p);
    var i :| 0 <= i < |level| && level[i] == Entry(NodeAt(root, p).value, p);
    assert paths[i] == p;
  }

  /** Down to the length of an existing path, no level is empty. */
  lemma LevelsReach(root: Node, p: Path, n: nat)
    ensures n <= |p| && NodeAt(root, p).Some? ==> |Level(root, n)| > 0
  {
    if n <= |p| && NodeAt(root, p).Some? {
      NodeAtPrefix(root, p, n);
      LevelComplete(root, p[..n]);
      assert |p[..n]| == n;
    }
  }

  /** No level deeper than `maxDepth` is present. */
  lemma ByLevelBounded(root: Node, maxDepth: Option<int>)
    requires maxDepth.Some? && maxDepth.value >= 0
    ensures |ByLevel(root, maxDepth)| <= maxDepth.value + 1
  {
    var n := |Gather(Rows(root), maxDepth, 0)|;
    if n > 0 {
      GatherAt(Rows(root), maxDepth, 0, n - 1);
    }
  }

  // ----- the breadth-first walk -----

  /** `s[..i + 1]` has the children of `s[..i]`, then those of `s[i]`. */
  lemma KidsSnoc(s: seq<Entry>, i: nat)
    requires i < |s|
    ensures Kids(s[..i + 1]) == Kids(s[..i]) + Offspring(s[i])
  {
    KidsAppend(s[..i], [s[i]]);
    assert s[..i + 1] == s[..i] + [s[i]];
    assert Kids([s[i]]) == Offspring(s[i]) + Kids([]);
  }

  /** The children of two lists, one after the other. */
  lemma {:induction false} KidsAppend(a: seq<Entry>, b: seq<Entry>)
    ensures Kids(a + b) == Kids(a) + Kids(b)
  {
    if |a| > 0 {
      assert (a + b)[0] == a[0] && (a + b)[1..] == a[1..] + b;
      KidsAppend(a[1..], b);
    } else {
      assert a + b == b;
    }
  }

  /** The queue at entry `i` of a level: the rest of the level, then the children of the entries taken. */
  ghost predicate QueueAt(level: seq<Entry>, i: nat, queue: seq<Entry>)
  {
    i <= |level| && queue == level[i..] + Kids(level[..i])
  }

  /**
   * The output at entry `i` of a level: the earlier levels, then the
   * paths taken from this one; the list for a level other than the root's
   * is only created with its first path.
   */
  ghost predicate OutAt(prefix: seq<seq<Path>>, level: seq<Entry>, i: nat, levels: seq<seq<Path>>)
  {
    i <= |level| && levels == prefix + (if i == 0 && |prefix| > 0 then [] else [PathsOf(level[..i])])
  }

  /** What the walk holds at entry `i` of level `L`. */
  ghost predicate Walking(root: Node, maxDepth: Option<int>, L: nat, i: nat, queue: seq<Entry>, levels: seq<seq<Path>>)
  {
    L <= Height(root) + 1 &&
    (forall d :: 0 <= d < L ==> Recorded(root, maxDepth, d)) &&
    (i < |Level(root, L)| || (i == 0 && |Level(root, L)| == 0)) &&
    (i > 0 ==> maxDepth.None? || L <= maxDepth.value) &&
    QueueAt(Level(root, L), i, queue) &&
    OutAt(LevelsAbove(root, L), Level(root, L), i, levels)
  }

  /** Taking the front of the queue: it is entry `i`, and its children go to the back. */
  lemma QueueStep(level: seq<Entry>, i: nat, queue: seq<Entry>)
    requires QueueAt(level, i, queue) && |queue| > 0
    requires i < |level| || (i == 0 && |level| == 0)
    ensures i < |level| && queue[0] == level[i]
    ensures QueueAt(level, i + 1, queue[1..] + Offspring(level[i]))
  {
    assert Kids(level[..0]) == [];
    assert i < |level|;
    assert level[i..] == [level[i]] + level[i + 1..];
    KidsSnoc(level, i);
    ConcatAssoc(level[i + 1..], Kids(level[..i]), Offspring(level[i]));
  }

  lemma ConcatAssoc(a: seq<Entry>, b: seq<Entry>, c: seq<Entry>)
    ensures (a + b) + c == a + (b + c)
  {
  }

  /** At the end of a level, the queue holds exactly the next level. */
  lemma QueueNext(level: seq<Entry>, queue: seq<Entry>)
    requires QueueAt(level, |level|, queue)
    ensures QueueAt(Kids(level), 0, queue)
  {
    assert level[..|level|] == level;
    assert Kids(level)[..0] == [];
    assert Kids([]) == [];
  }

  /** Recording entry `i`: the output gains its path, in a new list when it is the level's first. */
  lemma OutStep(prefix: seq<seq<Path>>, level: seq<Entry>, i: nat, levels: seq<seq<Path>>)
    requires OutAt(prefix, level, i, levels) && i < |level|
    ensures var next := levels + (if |prefix| < |levels| then [] else [[]]);
      OutAt(prefix, level, i + 1, next[|prefix| := next[|prefix|] + [level[i].path]])
  {
    assert PathsOf(level[..0]) == [];
    assert PathsOf(level[..i + 1]) == PathsOf(level[..i]) + [level[i].path];
  }

  /** At the end of a level, the output holds the earlier levels and this one. */
  lemma OutNext(prefix: seq<seq<Path>>, level: seq<Entry>, levels: seq<seq<Path>>)
    requires OutAt(prefix, level, |level|, levels) && |level| > 0
    ensures OutAt(prefix + [PathsOf(level)], Kids(level), 0, levels)
  {
    assert level[..|level|] == level;
  }

  /** When the walk returns, its output is `ByLevel`. */
  lemma Finished(root: Node, maxDepth: Option<int>, L: nat, levels: seq<seq<Path>>)
    requires L <= Height(root) + 1
    requires forall d :: 0 <= d < L ==> Recorded(root, maxDepth, d)
    requires !Recorded(root, maxDepth, L)
    requires OutAt(LevelsAbove(root, L), Level(root, L), 0, levels)
    ensures levels == ByLevel(root, maxDepth)
  {
    var rows := Rows(root);
    if L == 0 {
      assert PathsOf(Level(root, 0)[..0]) == [];
      assert maxDepth.Some? && maxDepth.value < 0;
    } else {
      assert Recorded(root, maxDepth, 0);
      forall k | 0 <= k < L
        ensures Takes(rows, maxDepth, k)
      {
        assert Recorded(root, maxDepth, k);
        RowsTake(root, maxDepth, k);
      }
      RowsTake(root, maxDepth, L);
      GatherAll(rows, maxDepth, 0, L);
      LevelsAboveRows(root, L);
    }
  }

  /** The front of the queue during the walk: entry `i` of level `L`, at depth `L`. */
  lemma WalkHead(root: Node, maxDepth: Option<int>, L: nat, i: nat, queue: seq<Entry>, levels: seq<seq<Path>>)
    requires Walking(root, maxDepth, L, i, queue, levels) && |queue| > 0
    ensures i < |Level(root, L)| && queue[0] == Level(root, L)[i] && |queue[0].path| == L
    ensures |levels| == (if i == 0 && L > 0 then L else L + 1)
  {
    var lv := Level(root, L);
    QueueStep(lv, i, queue);
    LevelSound(root, L);
    assert lv[i] in lv;
  }

  /** The walk ends, with an empty queue or at an entry deeper than `maxDepth`, holding `ByLevel`. */
  lemma WalkDone(root: Node, maxDepth: Option<int>, L: nat, i: nat, queue: seq<Entry>, levels: seq<seq<Path>>)
    requires Walking(root, maxDepth, L, i, queue, levels)
    requires |queue| == 0 || (maxDepth.Some? && |queue[0].path| > maxDepth.value)
    ensures levels == ByLevel(root, maxDepth)
  {
    var lv := Level(root, L);
    if |queue| == 0 {
      assert |queue| == |lv[i..]| + |Kids(lv[..i])|;
    } else {
      WalkHead(root, maxDepth, L, i, queue, levels);
    }
    Finished(root, maxDepth, L, levels);
  }

  /** One entry of level `L` taken and recorded, with more of the level to come. */
  lemma WalkOn(root: Node, maxDepth: Option<int>, L: nat, i: nat, queue: seq<Entry>, levels: seq<seq<Path>>,
               next: seq<seq<Path>>, queue': seq<Entry>, levels': seq<seq<Path>>)
    requires Walking(root, maxDepth, L, i, queue, levels) && |queue| > 0
    requires maxDepth.None? || L <= maxDepth.value
    requires queue' == queue[1..] + Offspring(queue[0])
    requires next == levels + (if L < |levels| then [] else [[]])
    requires L < |next| && levels' == next[L := next[L] + [queue[0].path]]
    requires i + 1 < |Level(root, L)|
    ensures Walking(root, maxDepth, L, i + 1, queue', levels')
  {
    QueueStep(Level(root, L), i, queue);
    OutStep(LevelsAbove(root, L), Level(root, L), i, levels);
  }

  /** The last entry of level `L` taken and recorded: the walk moves to level `L + 1`. */
  lemma WalkDown(root: Node, maxDepth: Option<int>, L: nat, i: nat, queue: seq<Entry>, levels: seq<seq<Path>>,
                 next: seq<seq<Path>>, queue': seq<Entry>, levels': seq<seq<Path>>)
    requires Walking(root, maxDepth, L, i, queue, levels) && |queue| > 0
    requires maxDepth.None? || L <= maxDepth.value
    requires queue' == queue[1..] + Offspring(queue[0])
    requires next == levels + (if L < |levels| then [] else [[]])
    requires L < |next| && levels' == next[L := next[L] + [queue[0].path]]
    requires i + 1 == |Level(root, L)|
    ensures Walking(root, maxDepth, L + 1, 0, queue', levels')
  {
    QueueDown(root, L, i, queue, queue');
    OutDown(root, L, i, levels, next, queue[0].path, levels');
    LevelWithinHeight(root, L);
  }

  /** At the end of level `L`, the queue holds level `L + 1`. */
  lemma QueueDown(root: Node, L: nat, i: nat, queue: seq<Entry>, queue': seq<Entry>)
    requires QueueAt(Level(root, L), i, queue) && |queue| > 0
    requires i + 1 == |Level(root, L)|
    requires queue' == queue[1..] + Offspring(queue[0])
    ensures QueueAt(Level(root, L + 1), 0, queue')
  {
    var lv := Level(root, L);
    QueueStep(lv, i, queue);
    QueueNext(lv, queue');
    assert Level(root, L + 1) == Kids(lv);
  }

  /** At the end of level `L`, the output holds the levels down to `L`. */
  lemma OutDown(root: Node, L: nat, i: nat, levels: seq<seq<Path>>, next: seq<seq<Path>>, p: Path, levels': seq<seq<Path>>)
    requires OutAt(LevelsAbove(root, L), Level(root, L), i, levels)
    requires i + 1 == |Level(root, L)| && p == Level(root, L)[i].path
    requires next == levels + (if L < |levels| then [] else [[]])
    requires L < |next| && levels' == next[L := next[L] + [p]]
    ensures OutAt(LevelsAbove(root, L + 1), Level(root, L + 1), 0, levels')
  {
    var lv := Level(root, L);
    var prefix := LevelsAbove(root, L);
    OutStep(prefix, lv, i, levels);
    OutNext(prefix, lv, levels');
    assert Level(root, L + 1) == Kids(lv);
  }

  /** The `forEach` that queues the children of `e`, each with its path. */
  method Enqueue(queue: seq<Entry>, e: Entry) returns (r: seq<Entry>)
    ensures r == queue + Offspring(e)
  {
    r := queue;
    var k := 0;
    while k < |e.node.children|
      invariant 0 <= k <= |e.node.children|
      invariant r == queue + Offspring(e)[..k]
    {
      assert Offspring(e)[..k + 1] == Offspring(e)[..k] + [Offspring(e)[k]];
      r := r + [Entry(e.node.children[k], e.path + [k])];
      k := k + 1;
    }
    assert Offspring(e)[..k] == Offspring(e);
  }

  /**
   * `pathsByLevel(root, { maxDepth })`: the breadth-first walk. The queue
   * starts with the root entry; each entry taken from its front is added to
   * the list of its depth (creating the list when it is the first at that
   * depth) and its children are queued. The walk returns at once when it
   * takes an entry deeper than `maxDepth`. Without `maxDepth` it has no
   * bound.
   */
  method PathsByLevel(root: Node, maxDepth: Option<int>) returns (levels: seq<seq<Path>>)
    ensures levels == ByLevel(root, maxDepth)
  {
    levels := [[]];
    var queue: seq<Entry> := [Entry(root, [])];
    ghost var L: nat := 0;
    ghost var i: nat := 0;
    assert PathsOf(Level(root, 0)[..0]) == [];
    while |queue| > 0
      invariant Walking(root, maxDepth, L, i, queue, levels)
      decreases Height(root) + 1 - L, |Level(root, L)| - i
    {
      WalkHead(root, maxDepth, L, i, queue, levels);
      if maxDepth.Some? && |queue[0].path| > maxDepth.value {
        WalkDone(root, maxDepth, L, i, queue, levels);
        return;
      }
      queue, levels, L, i := Visit(root, maxDepth, L, i, queue, levels);
    }
    WalkDone(root, maxDepth, L, i, queue, levels);
  }

  /**
   * One turn of the loop for an entry within `maxDepth`: it is taken from
   * the front of the queue, its path is added to the list of its depth,
   * and its children are queued.
   */
  method Visit(root: Node, maxDepth: Option<int>, ghost L: nat, ghost i: nat, queue: seq<Entry>, levels: seq<seq<Path>>)
    returns (queue': seq<Entry>, levels': seq<seq<Path>>, ghost L': nat, ghost i': nat)
    requires Walking(root, maxDepth, L, i, queue, levels) && |queue| > 0
    requires maxDepth.None? || |queue[0].path| <= maxDepth.value
    ensures Walking(root, maxDepth, L', i', queue', levels')
    ensures (L' == L + 1 && i' == 0) || (L' == L && i' == i + 1 && i' <= |Level(root, L)|)
  {
    WalkHead(root, maxDepth, L, i, queue, levels);
    var e := queue[0];
    var level := |e.path|;
    var next := levels;
    if level >= |levels| {
      next := levels + [[]];
    }
    levels' := next[level := next[level] + [e.path]];
    queue' := Enqueue(queue[1..], e);
    if i + 1 < |Level(root, L)| {
      WalkOn(root, maxDepth, L, i, queue, levels, next, queue', levels');
      L', i' := L, i + 1;
    } else {
      WalkDown(root, maxDepth, L, i, queue, levels, next, queue', levels');
      L', i' := L + 1, 0;
    }
  }
}
