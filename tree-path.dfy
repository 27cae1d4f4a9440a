/**
 * Paths: the list of child indexes that leads from the root to a node, and
 * the relations between them. JavaScript's array reads are modelled as they
 * behave: `slice` clamps its bounds and counts negative ones from the end,
 * `at(-1)` and out-of-range reads give `undefined`, and any comparison with
 * `undefined` is false.
 */
module TreePaths {
  import opened Wrappers

  type Path = seq<int>

  // ----- JavaScript array reads -----

  /** `s.slice(0, end)`. */
  function SliceTo(s: Path, end: int): Path
  {
    var k := if end < 0 then (if |s| + end < 0 then 0 else |s| + end)
             else if end <= |s| then end else |s|;
    s[..k]
  }

  /** `s.slice(start)` for a non-negative start. */
  function SliceFrom(s: Path, start: nat): Path
  {
    s[if start <= |s| then start else |s|..]
  }

  /** `s[i]`: `undefined` outside the array. */
  function At(s: Path, i: int): Option<int>
  {
    if 0 <= i < |s| then Some(s[i]) else None
  }

  /** `s.at(-1)`: the last entry, `undefined` for the empty path. */
  function Last(s: Path): Option<int>
  {
    if |s| == 0 then None else Some(s[|s| - 1])
  }

  /** `a < b` on numbers that may be `undefined`. */
  predicate Less(a: Option<int>, b: Option<int>)
  {
    a.Some? && b.Some? && a.value < b.value
  }

  /** `a > b` on numbers that may be `undefined`. */
  predicate Greater(a: Option<int>, b: Option<int>)
  {
    a.Some? && b.Some? && a.value > b.value
  }

  /**
   * `s[i] += d` on a copy of a path. A negative `i` names an ordinary
   * property of the array object and leaves its entries alone; every caller
   * stays below the length.
   */
  function Bump(s: Path, i: int, d: int): (r: Path)
    requires i < |s|
    ensures |r| == |s|
    ensures forall j :: 0 <= j < |s| && j != i ==> r[j] == s[j]
    ensures 0 <= i ==> r[i] == s[i] + d
  {
    if i < 0 then s else s[i := s[i] + d]
  }

  /** `a` is an initial segment of `b` (possibly all of it). */
  predicate IsPrefix(a: Path, b: Path)
  {
    |a| <= |b| && b[..|a|] == a
  }

  // ----- comparisons -----

  /**
   * `compare`: -1, 0 or 1 by the first entry where the paths differ, 0 when
   * one is an initial segment of the other.
   */
  function Compare(a: Path, b: Path): (r: int)
    ensures -1 <= r <= 1
  {
    if |a| == 0 || |b| == 0 then 0
    else if a[0] < b[0] then -1
    else if a[0] > b[0] then 1
    else Compare(a[1..], b[1..])
  }

  /** The counting loop of `compare`, proved to give `Compare`. */
  method ComparePaths(path: Path, another: Path) returns (r: int)
    ensures r == Compare(path, another)
  {
    var min := if |path| < |another| then |path| else |another|;
    var i := 0;
    while i < min
      invariant 0 <= i <= min
      invariant Compare(path, another) == Compare(path[i..], another[i..])
    {
      if path[i] < another[i] {
        return -1;
      }
      if path[i] > another[i] {
        return 1;
      }
      assert path[i..][1..] == path[i + 1..] && another[i..][1..] == another[i + 1..];
      i := i + 1;
    }
    return 0;
  }

  /** `equals`: the same length and the same entry at every index. */
  predicate Equals(path: Path, another: Path)
  {
    |path| == |another| && forall i :: 0 <= i < |path| ==> path[i] == another[i]
  }

  predicate IsAfter(path: Path, another: Path)
  {
    Compare(path, another) == 1
  }

  predicate IsBefore(path: Path, another: Path)
  {
    Compare(path, another) == -1
  }

  predicate IsAncestor(path: Path, another: Path)
  {
    |path| < |another| && Compare(path, another) == 0
  }

  predicate IsChild(path: Path, another: Path)
  {
    |path| == |another| + 1 && Compare(path, another) == 0
  }

  predicate IsCommon(path: Path, another: Path)
  {
    |path| <= |another| && Compare(path, another) == 0
  }

  predicate IsDescendant(path: Path, another: Path)
  {
    |path| > |another| && Compare(path, another) == 0
  }

  predicate IsParent(path: Path, another: Path)
  {
    |path| + 1 == |another| && Compare(path, another) == 0
  }

  /** `endsAfter`: same parent prefix, and a larger last index than `another` has there. */
  predicate EndsAfter(path: Path, another: Path)
  {
    var i := |path| - 1;
    SliceTo(path, i) == SliceTo(another, i) && Greater(At(path, i), At(another, i))
  }

  /** `endsAt`: `another`, cut to the length of `path`, is `path`. */
  predicate EndsAt(path: Path, another: Path)
  {
    var i := |path|;
    SliceTo(path, i) == SliceTo(another, i)
  }

  /** `endsBefore`: same parent prefix, and a smaller last index than `another` has there. */
  predicate EndsBefore(path: Path, another: Path)
  {
    var i := |path| - 1;
    SliceTo(path, i) == SliceTo(another, i) && Less(At(path, i), At(another, i))
  }

  /** `hasPrevious`: the last index is positive. */
  predicate HasPrevious(path: Path)
  {
    Greater(Last(path), Some(0))
  }

  /** `isSibling`: equal length, equal parent prefix, different last index. */
  predicate IsSibling(path: Path, another: Path)
  {
    |path| == |another| && Last(path) != Last(another) && SliceTo(path, -1) == SliceTo(another, -1)
  }

  // ----- derived paths -----

  /** Every prefix of `path`, shortest first, ending with `path` itself. */
  function Prefixes(path: Path): (r: seq<Path>)
    ensures |r| == |path| + 1
    ensures forall i :: 0 <= i <= |path| ==> r[i] == path[..i]
  {
    seq(|path| + 1, i requires 0 <= i <= |path| => path[..i])
  }

  function Reversed<T>(s: seq<T>): (r: seq<T>)
    ensures |r| == |s|
    ensures forall i :: 0 <= i < |s| ==> r[i] == s[|s| - 1 - i]
  {
    if |s| == 0 then [] else Reversed(s[1..]) + [s[0]]
  }

  /** Reversing a list keeps its members. */
  lemma ReversedMembers<T>(s: seq<T>)
    ensures forall x :: x in Reversed(s) <==> x in s
  {
    var r := Reversed(s);
    forall x | x in s
      ensures x in r
    {
      var i :| 0 <= i < |s| && s[i] == x;
      assert r[|s| - 1 - i] == x;
    }
  }

  /** `levels`: the prefixes of `path`, shortest first or, with `reverse`, longest first. */
  function Levels(path: Path, reverse: bool): seq<Path>
  {
    if reverse then Reversed(Prefixes(path)) else Prefixes(path)
  }

  /** The loop of `levels`, proved to give `Levels`. */
  method ComputeLevels(path: Path, reverse: bool) returns (list: seq<Path>)
    ensures list == Levels(path, reverse)
  {
    list := [];
    var i := 0;
    while i <= |path|
      invariant 0 <= i <= |path| + 1
      invariant |list| == i
      invariant forall k :: 0 <= k < i ==> list[k] == path[..k]
    {
      list := list + [SliceTo(path, i)];
      i := i + 1;
    }
    if reverse {
      list := Reversed(list);
    }
  }

  /** `ancestors`: the levels without `path` itself. */
  function Ancestors(path: Path, reverse: bool): seq<Path>
  {
    var levels := Levels(path, reverse);
    if reverse then levels[1..] else levels[..|levels| - 1]
  }

  /** `common`: the longest shared initial segment. */
  function Common(path: Path, another: Path): (c: Path)
    ensures IsPrefix(c, path) && IsPrefix(c, another)
    ensures |c| < |path| && |c| < |another| ==> path[|c|] != another[|c|]
  {
    if |path| == 0 || |another| == 0 || path[0] != another[0] then []
    else [path[0]] + Common(path[1..], another[1..])
  }

  /** The loop of `common`, which stops at the first differing entry, proved to give `Common`. */
  method ComputeCommon(path: Path, another: Path) returns (common: Path)
    ensures common == Common(path, another)
  {
    common := [];
    var i := 0;
    while i < |path| && i < |another|
      invariant 0 <= i <= |path| && i <= |another|
      invariant common == path[..i] == another[..i]
    {
      if path[i] != another[i] {
        break;
      }
      assert path[..i + 1] == path[..i] + [path[i]] && another[..i + 1] == another[..i] + [another[i]];
      common := common + [path[i]];
      i := i + 1;
    }
    CommonUnique(path, another, common);
  }

  /** `next`: the same path with the last index one higher; none for the root. */
  function Next(path: Path): Option<Path>
  {
    if |path| == 0 then None else Some(SliceTo(path, -1) + [Last(path).value + 1])
  }

  /** `parent`: the path without its last index; none for the root. */
  function Parent(path: Path): Option<Path>
  {
    if |path| == 0 then None else Some(SliceTo(path, -1))
  }

  /** `previous`: the same path with the last index one lower; none when that index is not positive. */
  function Previous(path: Path): Option<Path>
  {
    if |path| == 0 then None
    else if Last(path).value <= 0 then None
    else Some(SliceTo(path, -1) + [Last(path).value - 1])
  }

  /** `relative`: what follows `ancestor` in `path`, when `ancestor` is an initial segment of it. */
  function Relative(path: Path, ancestor: Path): Option<Path>
  {
    if !IsAncestor(ancestor, path) && !Equals(path, ancestor) then None
    else Some(SliceFrom(path, |ancestor|))
  }

  // ----- properties -----

  lemma EqualsIsEquality(path: Path, another: Path)
    ensures Equals(path, another) <==> path == another
  {
  }

  /** `compare` is 0 exactly when one path is an initial segment of the other. */
  lemma {:induction false} CompareZero(a: Path, b: Path)
    ensures Compare(a, b) == 0 <==> IsPrefix(a, b) || IsPrefix(b, a)
  {
    if |a| > 0 && |b| > 0 {
      CompareZero(a[1..], b[1..]);
      if a[0] == b[0] {
        assert IsPrefix(a, b) <==> IsPrefix(a[1..], b[1..]) by {
          if |a| <= |b| { assert b[..|a|] == [b[0]] + b[1..][..|a| - 1]; assert a == [a[0]] + a[1..]; }
        }
        assert IsPrefix(b, a) <==> IsPrefix(b[1..], a[1..]) by {
          if |b| <= |a| { assert a[..|b|] == [a[0]] + a[1..][..|b| - 1]; assert b == [b[0]] + b[1..]; }
        }
      } else {
        assert !IsPrefix(a, b) by { assert |a| <= |b| ==> b[..|a|][0] == b[0]; }
        assert !IsPrefix(b, a) by { assert |b| <= |a| ==> a[..|b|][0] == a[0]; }
      }
    }
  }

  /** Swapping the arguments of `compare` negates it. */
  lemma {:induction false} CompareSwap(a: Path, b: Path)
    ensures Compare(b, a) == -Compare(a, b)
  {
    if |a| > 0 && |b| > 0 && a[0] == b[0] {
      CompareSwap(a[1..], b[1..]);
    }
  }

  /** `compare` is negative exactly when the paths first differ at an index where `a` is smaller. */
  lemma {:induction false} CompareNegative(a: Path, b: Path)
    ensures Compare(a, b) == -1 <==>
      exists i :: 0 <= i < |a| && i < |b| && a[..i] == b[..i] && a[i] < b[i]
  {
    if |a| > 0 && |b| > 0 {
      CompareNegative(a[1..], b[1..]);
      if a[0] == b[0] {
        if Compare(a, b) == -1 {
          var j :| 0 <= j < |a| - 1 && j < |b| - 1 && a[1..][..j] == b[1..][..j] && a[1..][j] < b[1..][j];
          assert a[..j + 1] == [a[0]] + a[1..][..j] && b[..j + 1] == [b[0]] + b[1..][..j];
          assert a[j + 1] < b[j + 1];
        }
        if exists i :: 0 <= i < |a| && i < |b| && a[..i] == b[..i] && a[i] < b[i] {
          var i :| 0 <= i < |a| && i < |b| && a[..i] == b[..i] && a[i] < b[i];
          assert i > 0;
          assert a[1..][..i - 1] == a[..i][1..] && b[1..][..i - 1] == b[..i][1..];
          assert a[1..][i - 1] < b[1..][i - 1];
        }
      } else {
        PrefixHeads(a, b);
        if a[0] < b[0] {
          assert a[..0] == b[..0];
        }
      }
    }
  }

  /** Equal non-empty initial segments start with the same entry. */
  lemma PrefixHeads(a: Path, b: Path)
    ensures forall i :: 0 < i <= |a| && i <= |b| && a[..i] == b[..i] ==> a[0] == b[0]
  {
    forall i | 0 < i <= |a| && i <= |b| && a[..i] == b[..i]
      ensures a[0] == b[0]
    {
      assert a[..i][0] == b[..i][0];
    }
  }

  /** `isBefore` is transitive. */
  lemma {:induction false} BeforeTransitive(a: Path, b: Path, c: Path)
    requires IsBefore(a, b) && IsBefore(b, c)
    ensures IsBefore(a, c)
  {
    if a[0] == b[0] && b[0] == c[0] {
      BeforeTransitive(a[1..], b[1..], c[1..]);
    }
  }

  /** A path before `b` is also before everything below `b`. */
  lemma {:induction false} BeforeExtends(a: Path, b: Path, c: Path)
    requires IsBefore(a, b) && IsPrefix(b, c)
    ensures IsBefore(a, c)
  {
    if a[0] == b[0] {
      assert b[1..] == c[1..][..|b| - 1];
      BeforeExtends(a[1..], b[1..], c[1..]);
    }
  }

  /** Whatever is below a path before `b` is also before `b`. */
  lemma {:induction false} BeforeFromPrefix(a: Path, b: Path, c: Path)
    requires IsBefore(a, c) && IsPrefix(a, b)
    ensures IsBefore(b, c)
  {
    if a[0] == c[0] {
      assert a[1..] == b[1..][..|a| - 1];
      BeforeFromPrefix(a[1..], b[1..], c[1..]);
    }
  }

  /** `isAncestor` is a strict initial segment; `isCommon` a possibly equal one. */
  lemma AncestorIsStrictPrefix(a: Path, b: Path)
    ensures IsAncestor(a, b) <==> |a| < |b| && b[..|a|] == a
    ensures IsCommon(a, b) <==> IsPrefix(a, b)
  {
    CompareZero(a, b);
  }

  /** The relations come in converse pairs. */
  lemma Converses(a: Path, b: Path)
    ensures IsAncestor(a, b) <==> IsDescendant(b, a)
    ensures IsParent(a, b) <==> IsChild(b, a)
    ensures IsBefore(a, b) <==> IsAfter(b, a)
  {
    CompareSwap(a, b);
  }

  /** A parent is the path with one more index, and `parent` computes it. */
  lemma ParentIsParent(a: Path, b: Path)
    ensures IsParent(a, b) <==> |b| > 0 && Parent(b) == Some(a)
  {
    CompareZero(a, b);
  }

  /** Exactly one of before, after, or a shared initial segment holds. */
  lemma Trichotomy(a: Path, b: Path)
    ensures IsBefore(a, b) || IsAfter(a, b) || IsPrefix(a, b) || IsPrefix(b, a)
    ensures IsBefore(a, b) ==> !IsAfter(a, b) && !IsPrefix(a, b) && !IsPrefix(b, a)
  {
    CompareZero(a, b);
  }

  /** `endsBefore` in plain terms: a sibling of `path`'s or an ancestor's later sibling prefix. */
  lemma EndsBeforeIff(path: Path, another: Path)
    ensures EndsBefore(path, another) <==>
      0 < |path| <= |another| && another[..|path| - 1] == path[..|path| - 1]
      && path[|path| - 1] < another[|path| - 1]
  {
  }

  lemma EndsAfterIff(path: Path, another: Path)
    ensures EndsAfter(path, another) <==>
      0 < |path| <= |another| && another[..|path| - 1] == path[..|path| - 1]
      && path[|path| - 1] > another[|path| - 1]
  {
  }

  /** `endsAt` holds exactly when `path` is an initial segment of `another`. */
  lemma EndsAtIff(path: Path, another: Path)
    ensures EndsAt(path, another) <==> IsPrefix(path, another)
  {
  }

  /** Siblings: two non-root paths with one parent and different last indexes. */
  lemma SiblingIff(path: Path, another: Path)
    ensures IsSibling(path, another) <==>
      |path| == |another| > 0 && path[..|path| - 1] == another[..|path| - 1]
      && path[|path| - 1] != another[|path| - 1]
    ensures IsSibling(path, another) <==> IsSibling(another, path)
    ensures !IsSibling(path, path)
  {
  }

  /** `ancestors` lists exactly the strict ancestors. */
  lemma AncestorsAreAncestors(path: Path, reverse: bool, q: Path)
    ensures |Ancestors(path, reverse)| == |path|
    ensures q in Ancestors(path, reverse) <==> IsAncestor(q, path)
  {
    AncestorIsStrictPrefix(q, path);
    var anc := Ancestors(path, reverse);
    if IsAncestor(q, path) {
      if reverse {
        assert anc[|path| - 1 - |q|] == q;
      } else {
        assert anc[|q|] == q;
      }
    }
  }

  /** `levels` lists every prefix once, in the requested order. */
  lemma LevelsOrder(path: Path, reverse: bool)
    ensures |Levels(path, reverse)| == |path| + 1
    ensures forall i :: 0 <= i <= |path| ==>
      Levels(path, reverse)[i] == (if reverse then path[..|path| - i] else path[..i])
  {
  }

  /** `previous` undoes `next`, and `next` undoes `previous`. */
  lemma NextPrevious(path: Path)
    ensures Next(path).Some? && path[|path| - 1] >= 0 ==> Previous(Next(path).value) == Some(path)
    ensures Previous(path).Some? ==> Next(Previous(path).value) == Some(path)
    ensures Previous(path).Some? <==> HasPrevious(path)
  {
    if |path| > 0 {
      assert path == path[..|path| - 1] + [path[|path| - 1]];
    }
  }

  /** `next` gives the following sibling, which sorts after the path. */
  lemma NextIsLaterSibling(path: Path)
    requires |path| > 0
    ensures IsSibling(path, Next(path).value)
    ensures IsBefore(path, Next(path).value)
    ensures EndsBefore(path, Next(path).value)
  {
    var n := Next(path).value;
    assert n[..|path| - 1] == path[..|path| - 1];
    CompareNegative(path, n);
  }

  /** No path of the same length sorts strictly between a path and its `next`. */
  lemma {:induction false} NothingBetweenNext(p: Path, q: Path)
    requires |p| > 0 && |q| == |p| && IsBefore(p, q)
    ensures !IsBefore(q, Next(p).value)
    decreases |p|
  {
    var n := Next(p).value;
    assert n == p[..|p| - 1] + [p[|p| - 1] + 1];
    if |p| > 1 && p[0] == q[0] {
      var m := Next(p[1..]).value;
      assert m == p[1..][..|p| - 2] + [p[|p| - 1] + 1];
      assert n[1..] == m;
      NothingBetweenNext(p[1..], q[1..]);
    } else if |p| > 1 {
      assert n[0] == p[0] < q[0];
    } else {
      assert Compare(p[1..], q[1..]) == 0 && Compare(q[1..], n[1..]) == 0;
      assert p[0] < q[0] && n[0] == p[0] + 1;
    }
  }

  /** `relative` is defined exactly below `ancestor` and completes it to `path`. */
  lemma RelativeCompletes(path: Path, ancestor: Path)
    ensures Relative(path, ancestor).Some? <==> IsPrefix(ancestor, path)
    ensures Relative(path, ancestor).Some? ==> ancestor + Relative(path, ancestor).value == path
  {
    AncestorIsStrictPrefix(ancestor, path);
  }

  /** `common` is the longest initial segment the two paths share. */
  lemma {:induction false} CommonIsLongest(path: Path, another: Path, c: Path)
    requires IsPrefix(c, path) && IsPrefix(c, another)
    ensures IsPrefix(c, Common(path, another))
  {
    if |c| > 0 {
      assert path[0] == c[0] == another[0];
      assert c[1..] == path[1..][..|c| - 1] == another[1..][..|c| - 1];
      CommonIsLongest(path[1..], another[1..], c[1..]);
      assert c == [c[0]] + c[1..];
    }
  }

  /** A shared initial segment that cannot be extended is the one `common` computes. */
  lemma CommonUnique(path: Path, another: Path, c: Path)
    requires IsPrefix(c, path) && IsPrefix(c, another)
    requires |c| < |path| && |c| < |another| ==> path[|c|] != another[|c|]
    ensures c == Common(path, another)
  {
    var m := Common(path, another);
    CommonIsLongest(path, another, c);
    CommonIsLongest(path, another, m);
    PrefixAt(m, path, |c|);
    PrefixAt(m, another, |c|);
  }

  /** An initial segment agrees with the path at each of its indexes. */
  lemma PrefixAt(a: Path, b: Path, i: int)
    ensures IsPrefix(a, b) && 0 <= i < |a| ==> a[i] == b[i]
  {
    if IsPrefix(a, b) && 0 <= i < |a| {
      assert b[..|a|][i] == b[i];
    }
  }

  /** A non-empty path is its parent path followed by its last index. */
  lemma LastSplit(p: Path)
    requires |p| > 0
    ensures p == p[..|p| - 1] + [p[|p| - 1]]
  {
  }
}
