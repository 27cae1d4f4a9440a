/**
 * What the node transforms share: the default `match` option, the entries
 * a transform acts on, the paths its refs hold as operations go by, and
 * the bookkeeping that lets a transform's proof follow the editor's refs
 * through the operations it sends.
 */
module TransformSupport {
  import opened Wrappers
  import opened TreeElements
  import opened TreePaths
  import opened TreeNodes
  import opened TreeOperations
  import opened PathTransform
  import opened TreeTraversal
  import opened EditorQueries
  import opened Editors

  /**
   * The default `match` of a transform: the node found at `at` when `at`
   * is a path (resolved once, so a missing node throws), any element for a
   * span.
   */
  function DefaultMatch(root: Node, at: Location, matcher: Option<Entry -> bool>): Result<Entry -> bool>
  {
    if matcher.Some? then Ok(matcher.value)
    else if at.PathAt? then MatchTreePath(root, at.path)
    else Ok((e: Entry) => IsElement(e.node))
  }

  /**
   * The entries a transform acts on: `nodes` over `at` with the (default)
   * `match`. Only resolving the default matcher of a missing path throws;
   * the entries are nodes at their own paths, in document order, each
   * accepted by the matcher.
   */
  function Targets(root: Node, at: Location, matcher: Option<Entry -> bool>): (r: Result<seq<Entry>>)
    ensures r.Thrown? <==> matcher.None? && at.PathAt? && NodeAt(root, at.path).None?
    ensures r.Ok? ==> forall e :: e in r.value ==> NodeAt(root, e.path) == Some(e.node)
    ensures r.Ok? ==> Ordered(false, r.value)
    ensures r.Ok? && matcher.Some? ==> forall e :: e in r.value ==> matcher.value(e)
  {
    match DefaultMatch(root, at, matcher)
    case Thrown(m) => Thrown(m)
    case Ok(keep) => Ok(EditorNodes(root, Some(at), Some(keep), false))
  }

  /** The paths the refs taken on the entries hold when they are made. */
  function PathsOf(entries: seq<Entry>): (r: seq<Option<Path>>)
    ensures |r| == |entries| && forall i :: 0 <= i < |r| ==> r[i] == Some(entries[i].path)
  {
    seq(|entries|, i requires 0 <= i < |entries| => Some(entries[i].path))
  }

  /** Each ref's path carried through the operations sent since. */
  function Carry(ps: seq<Option<Path>>, ops: seq<Operation>): (r: seq<Option<Path>>)
    ensures |r| == |ps| && forall i :: 0 <= i < |r| ==> r[i] == TransformAll(ps[i], ops)
  {
    seq(|ps|, i requires 0 <= i < |ps| => TransformAll(ps[i], ops))
  }

  /**
   * With the default matcher, a single path that holds a node yields just
   * that node's entry: the walk over a path passes through the path itself,
   * and no other entry sits at that path.
   */
  lemma {:induction false} SingleTarget(root: Node, p: Path)
    requires NodeAt(root, p).Some?
    ensures Targets(root, PathAt(p), None) == Ok([Entry(NodeAt(root, p).value, p)])
  {
    var n := NodeAt(root, p).value;
    var keep := MatchTreePath(root, p).value;
    EditorNodesBegin(root, p, false);
    WalkPassesPath(root, p);
    var r := EditorNodes(root, Some(PathAt(p)), Some(keep), false);
    assert Keep(Some(keep))(Entry(n, p));
    assert forall e :: e in r ==> e == Entry(n, p);
    OnlyEntry(r, Entry(n, p));
  }

  /** The walk over a path that holds a node passes through the path itself. */
  lemma {:induction false} WalkPassesPath(root: Node, p: Path)
    requires NodeAt(root, p).Some?
    ensures Entry(NodeAt(root, p).value, p) in Nodes(root, NodesFor(Some(PathAt(p)), false))
  {
    EditorNodesBegin(root, p, false);
    LevelEntriesAre(root, p);
    var all := EditorNodes(root, Some(PathAt(p)), None, false);
    assert Entry(NodeAt(root, p).value, p) in all[..|p| + 1];
  }

  /** A strictly ordered list whose entries are all one entry holds it once. */
  lemma {:induction false} OnlyEntry(r: seq<Entry>, x: Entry)
    requires Ordered(false, r) && x in r && forall e :: e in r ==> e == x
    ensures r == [x]
  {
    forall i, j | 0 <= i < j < |r|
      ensures r[i] != r[j]
    {
      CompareZero(r[i].path, r[i].path);
    }
    forall i | 0 <= i < |r|
      ensures r[i] == x
    {
      assert r[i] in r;
    }
    FirstTwo(r);
  }

  /** The first two entries of a list that has two. */
  lemma FirstTwo(r: seq<Entry>)
    ensures |r| >= 2 ==> r[0] in r && r[1] in r
  {
  }

  /** Carrying paths through no operations leaves them as they are. */
  lemma {:induction false} CarryNone(ps: seq<Option<Path>>)
    ensures Carry(ps, []) == ps
  {
    assert forall i :: 0 <= i < |ps| ==> Carry(ps, [])[i] == TransformAll(ps[i], []);
  }

  /** Carrying paths through two runs is carrying them through one after the other. */
  lemma {:induction false} CarryConcat(ps: seq<Option<Path>>, a: seq<Operation>, b: seq<Operation>)
    ensures Carry(Carry(ps, a), b) == Carry(ps, a + b)
  {
    forall i | 0 <= i < |ps|
      ensures Carry(Carry(ps, a), b)[i] == Carry(ps, a + b)[i]
    {
      TransformAllConcat(ps[i], a, b);
    }
  }

  /** Operations sent in three runs, grouped either way. */
  lemma SentAssoc(a: seq<Operation>, b: seq<Operation>, c: seq<Operation>)
    ensures (a + b) + c == a + (b + c)
  {
  }

  /**
   * A run that went on after `done` takes one more step: its operations
   * join `done`, and it ends where and how the rest ends.
   */
  lemma {:induction false} ThenStep(v: EditorView, done: seq<Operation>, step: Replayed, rest: Replayed)
    ensures Then(Replayed(v, Done, done), Then(step, rest)) == Then(Replayed(step.view, Done, done + step.sent), rest)
    ensures Then(Replayed(v, Done, done), step) == Replayed(step.view, step.outcome, done + step.sent)
  {
    assert done + (step.sent + rest.sent) == (done + step.sent) + rest.sent;
  }

  // ----- following the refs -----

  /**
   * The caller's refs, snapshot in `was`, each hold their path carried
   * through the operations `done`, and are live exactly while they hold one.
   */
  ghost predicate Follows(e: Editor, was: map<PathRef, Option<Path>>, done: seq<Operation>)
    reads e, was.Keys
  {
    forall r :: r in was ==> r.current == TransformAll(was[r], done) && (r in e.refs <==> r.current.Some?)
  }

  /**
   * A transform's own refs `rs`, from the `i`-th on, hold the paths `ps`,
   * and are live exactly while they hold one; they are distinct and none of
   * them is a ref of the caller.
   */
  ghost predicate Holds(e: Editor, was: map<PathRef, Option<Path>>, rs: seq<PathRef>, i: nat, ps: seq<Option<Path>>)
    reads e, rs
  {
    |ps| == |rs| && i <= |rs| &&
    (forall j, k :: 0 <= j < k < |rs| ==> rs[j] != rs[k]) &&
    (forall j :: 0 <= j < |rs| ==> rs[j] !in was) &&
    (forall j :: i <= j < |rs| ==> rs[j].current == ps[j] && (rs[j] in e.refs <==> ps[j].Some?))
  }

  /** The refs that a transform may still hold: those in `keys`, and its own from the `i`-th on. */
  ghost predicate Within(e: Editor, keys: set<PathRef>, rs: seq<PathRef>, i: nat)
    reads e
  {
    forall r :: r in e.refs ==> r in keys || exists j :: i <= j < |rs| && rs[j] == r
  }

  /** `pathRef` on each entry's path, in order: the transform's own refs. */
  method NewRefs(e: Editor, entries: seq<Entry>, ghost was: map<PathRef, Option<Path>>, ghost done: seq<Operation>,
                 ghost keys: set<PathRef>)
    returns (rs: seq<PathRef>)
    requires e.Valid() && Follows(e, was, done) && e.refs <= keys
    modifies e
    ensures e.Valid() && Follows(e, was, done) && Holds(e, was, rs, 0, PathsOf(entries)) && Within(e, keys, rs, 0)
    ensures forall j :: 0 <= j < |rs| ==> fresh(rs[j])
    ensures e.View() == old(e.View()) && e.sent == old(e.sent) && old(e.refs) <= e.refs
  {
    rs := [];
    var i := 0;
    while i < |entries|
      invariant i <= |entries| && |rs| == i
      invariant e.Valid() && Follows(e, was, done)
      invariant Holds(e, was, rs, 0, PathsOf(entries[..i])) && Within(e, keys, rs, 0)
      invariant forall j :: 0 <= j < |rs| ==> fresh(rs[j])
      invariant e.View() == old(e.View()) && e.sent == old(e.sent) && old(e.refs) <= e.refs
    {
      ghost var made := rs;
      var r := e.NewPathRef(entries[i].path);
      rs := rs + [r];
      forall x | x in e.refs
        ensures x in keys || exists j :: 0 <= j < |rs| && rs[j] == x
      {
        if x == r {
          assert rs[i] == x;
        } else if x !in keys {
          var j :| 0 <= j < |made| && made[j] == x;
          assert rs[j] == x;
        }
      }
      assert entries[..i + 1] == entries[..i] + [entries[i]];
      i := i + 1;
    }
    assert entries[..i] == entries;
  }

  /** `pathRef.unref()` on the `i`-th own ref: it leaves the live set, and nothing else changes. */
  method Release(e: Editor, rs: seq<PathRef>, i: nat, ghost was: map<PathRef, Option<Path>>,
                 ghost ps: seq<Option<Path>>, ghost done: seq<Operation>, ghost keys: set<PathRef>)
    returns (path: Option<Path>)
    requires i < |rs| && e.Valid() && Follows(e, was, done) && Holds(e, was, rs, i, ps)
    modifies e, rs[i]
    ensures e.Valid() && Follows(e, was, done) && Holds(e, was, rs, i + 1, ps)
    ensures path == ps[i] && e.refs == old(e.refs) - {rs[i]}
    ensures e.View() == old(e.View()) && e.sent == old(e.sent)
    ensures old(Within(e, keys, rs, i)) ==> Within(e, keys, rs, i + 1)
  {
    path := e.Unref(rs[i]);
    ghost var w := old(Within(e, keys, rs, i));
    if w {
      forall x | x in e.refs
        ensures x in keys || exists j :: i + 1 <= j < |rs| && rs[j] == x
      {
        assert x in old(e.refs);
        if x !in keys {
          var j :| i <= j < |rs| && rs[j] == x;
          assert j != i;
        }
      }
    }
  }

  /** `editor.apply(op)` inside a transform: every ref, the caller's and its own, is carried through `op`. */
  method ApplyCarrying(e: Editor, op: Operation, ghost was: map<PathRef, Option<Path>>, ghost rs: seq<PathRef>,
                       ghost i: nat, ghost ps: seq<Option<Path>>, ghost done: seq<Operation>)
    returns (o: Outcome)
    requires e.Valid() && Follows(e, was, done) && Holds(e, was, rs, i, ps)
    modifies e, e.refs
    ensures e.Valid() && Follows(e, was, done + [op]) && Holds(e, was, rs, i, Carry(ps, [op]))
    ensures e.sent == old(e.sent) + [op] && e.refs <= old(e.refs)
    ensures forall r :: r in old(e.refs) ==> r.current == TransformOpt(old(r.current), op)
    ensures forall r :: r in e.refs <==> r in old(e.refs) && r.current.Some?
    ensures Replayed(e.View(), o, [op]) == ApplyEffect(old(e.View()), op)
  {
    o := e.Apply(op);
    assert e.sent == old(e.sent) + e.sent[|old(e.sent)|..];
    forall r | r in was
      ensures r.current == TransformAll(was[r], done + [op])
    {
      TransformAllSnoc(was[r], done, op, r.current);
    }
    forall j | i <= j < |rs|
      ensures rs[j].current == Carry(ps, [op])[j]
    {
      assert old(rs[j].current) == ps[j] && [op][1..] == [];
      if rs[j] !in old(e.refs) {
        TransformAllGone([op]);
      } else {
        assert rs[j].current == TransformOpt(ps[j], op);
        assert TransformAll(ps[j], [op]) == TransformAll(TransformOpt(ps[j], op), []);
      }
    }
  }
}
