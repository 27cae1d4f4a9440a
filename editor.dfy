/**
 * The editor and its `apply`: the tree, the log of operations applied since
 * the last change notification, the live path refs, the dirty paths and
 * the one-shot flush and, for an editor made by `withTreeHistory`, the undo
 * and redo stacks with their saving and merging flags.
 *
 * The state of an editor apart from its refs is an `EditorView`; what one
 * `apply` does to it is the function `ApplyEffect`, and what a run of
 * applies does is `Replay`. The `Editor` methods are proved against those
 * functions, and the lemmas beside them state what the functions keep.
 */
module Editors {
  import opened Wrappers
  import opened Text
  import opened TreeElements
  import opened TreePaths
  import opened TreeOperations
  import opened PathTransform
  import opened OperationInverse
  import opened GeneralTransforms
  import opened DirtyPaths

  // ----- dirty paths -----

  /** The dirty path list and its set of joined keys. */
  datatype Dirty = Dirty(paths: seq<Path>, keys: set<string>)

  /** The key set is the set of the list's keys, and no path is listed twice. */
  predicate Keyed(d: Dirty)
  {
    d.keys == (set p | p in d.paths :: Join(p)) &&
    forall i, j :: 0 <= i < j < |d.paths| ==> d.paths[i] != d.paths[j]
  }

  /** The `add` closure of `apply`: a present path whose key is new goes at the end. */
  function Add(d: Dirty, p: Option<Path>): Dirty
  {
    if p.Some? && Join(p.value) !in d.keys then Dirty(d.paths + [p.value], d.keys + {Join(p.value)})
    else d
  }

  /** `add` called on each path in turn. */
  function AddEach(d: Dirty, ps: seq<Option<Path>>): Dirty
    decreases |ps|
  {
    if |ps| == 0 then d else Add(AddEach(d, ps[..|ps| - 1]), ps[|ps| - 1])
  }

  /** Each path as the operation leaves it. */
  function Carried(paths: seq<Path>, op: Operation): seq<Option<Path>>
  {
    seq(|paths|, i requires 0 <= i < |paths| => Transform(paths[i], op))
  }

  function Present(paths: seq<Path>): seq<Option<Path>>
  {
    seq(|paths|, i requires 0 <= i < |paths| => Some(paths[i]))
  }

  /**
   * The old dirty list as the operation leaves it: rebuilt from the carried
   * paths for a structural operation, kept as it is for `set_node`.
   */
  function Kept(d: Dirty, op: Operation): Dirty
  {
    if IsStructural(op) then AddEach(Dirty([], {}), Carried(d.paths, op)) else d
  }

  /** The dirty list `apply` stores: the kept list, then the operation's own dirty paths. */
  function NextDirty(d: Dirty, op: Operation, news: seq<Path>): Dirty
  {
    AddEach(Kept(d, op), Present(news))
  }

  /** Since the key is injective, a key is known exactly when its path is listed. */
  lemma {:induction false} KeyedHas(d: Dirty, p: Path)
    requires Keyed(d)
    ensures Join(p) in d.keys <==> p in d.paths
  {
    if Join(p) in d.keys {
      var q :| q in d.paths && Join(q) == Join(p);
      JoinInjective(q, p);
    }
  }

  /** `add` keeps the list free of repeats, appends at the end, and adds exactly the new path. */
  lemma {:induction false} AddKeyed(d: Dirty, p: Option<Path>)
    requires Keyed(d)
    ensures Keyed(Add(d, p))
    ensures d.paths <= Add(d, p).paths
    ensures forall x :: x in Add(d, p).paths <==> x in d.paths || p == Some(x)
  {
    if p.Some? {
      KeyedHas(d, p.value);
    }
  }

  lemma {:induction false} AddEachKeyed(d: Dirty, ps: seq<Option<Path>>)
    requires Keyed(d)
    ensures Keyed(AddEach(d, ps))
    ensures d.paths <= AddEach(d, ps).paths
    ensures forall x :: x in AddEach(d, ps).paths <==> x in d.paths || Some(x) in ps
    decreases |ps|
  {
    if |ps| > 0 {
      var init := ps[..|ps| - 1];
      AddEachKeyed(d, init);
      AddKeyed(AddEach(d, init), ps[|ps| - 1]);
      assert forall y :: y in ps <==> y in init || y == ps[|ps| - 1];
    }
  }

  /**
   * The list `apply` stores holds no path twice and its key set mirrors it;
   * the kept paths come first; and it holds exactly the operation's own
   * dirty paths and the old paths as the operation leaves them (all of the
   * old paths for `set_node`).
   */
  lemma {:induction false} NextDirtyKeyed(d: Dirty, op: Operation, news: seq<Path>)
    requires Keyed(d)
    ensures Keyed(NextDirty(d, op, news))
    ensures Kept(d, op).paths <= NextDirty(d, op, news).paths
    ensures IsStructural(op) ==> forall x :: x in NextDirty(d, op, news).paths <==>
      x in news || exists y :: y in d.paths && Transform(y, op) == Some(x)
    ensures !IsStructural(op) ==> forall x :: x in NextDirty(d, op, news).paths <==>
      x in news || x in d.paths
  {
    var kept := Kept(d, op);
    var carried := Carried(d.paths, op);
    if IsStructural(op) {
      assert Keyed(Dirty([], {}));
      AddEachKeyed(Dirty([], {}), carried);
      forall x
        ensures Some(x) in carried <==> exists y :: y in d.paths && Transform(y, op) == Some(x)
      {
        if Some(x) in carried {
          var i :| 0 <= i < |carried| && carried[i] == Some(x);
          assert d.paths[i] in d.paths;
        }
        if exists y :: y in d.paths && Transform(y, op) == Some(x) {
          var y :| y in d.paths && Transform(y, op) == Some(x);
          var i :| 0 <= i < |d.paths| && d.paths[i] == y;
          assert carried[i] == Some(x);
        }
      }
    }
    var present := Present(news);
    AddEachKeyed(kept, present);
    forall x
      ensures Some(x) in present <==> x in news
    {
      if x in news {
        var i :| 0 <= i < |news| && news[i] == x;
        assert present[i] == Some(x);
      }
    }
  }

  /** The dirty-list part of `apply`, with its two loops over the `add` closure. */
  method Recompute(d: Dirty, op: Operation, news: seq<Path>) returns (r: Dirty)
    ensures r == NextDirty(d, op, news)
  {
    var paths, keys := d.paths, d.keys;
    if IsStructural(op) {
      var carried := Carried(d.paths, op);
      paths, keys := [], {};
      for i := 0 to |d.paths|
        invariant Dirty(paths, keys) == AddEach(Dirty([], {}), carried[..i])
      {
        assert carried[..i + 1][..i] == carried[..i];
        paths, keys := AddPath(paths, keys, Transform(d.paths[i], op));
      }
      assert carried[..|d.paths|] == carried;
    }
    var present := Present(news);
    ghost var kept := Dirty(paths, keys);
    for i := 0 to |news|
      invariant Dirty(paths, keys) == AddEach(kept, present[..i])
    {
      assert present[..i + 1][..i] == present[..i];
      paths, keys := AddPath(paths, keys, Some(news[i]));
    }
    assert present[..|news|] == present;
    r := Dirty(paths, keys);
  }

  /** One call of the `add` closure. */
  method AddPath(paths: seq<Path>, keys: set<string>, p: Option<Path>) returns (paths': seq<Path>, keys': set<string>)
    ensures Dirty(paths', keys') == Add(Dirty(paths, keys), p)
  {
    paths', keys' := paths, keys;
    if p.Some? {
      var key := Join(p.value);
      if key !in keys {
        keys' := keys + {key};
        paths' := paths + [p.value];
      }
    }
  }

  // ----- the editor's state -----

  /**
   * The editor's state apart from its refs: the tree, the operations
   * applied since the last notification, the dirty list and its keys,
   * whether a flush is armed and for which operation, the operations passed
   * to `onChange` so far, and the history.
   */
  datatype EditorView = EditorView(
    root: Node,
    operations: seq<Operation>,
    dirtyPaths: seq<Path>,
    dirtyKeys: set<string>,
    flushing: bool,
    scheduled: Option<Operation>,
    notified: seq<Operation>,
    withHistory: bool,
    undos: seq<seq<Operation>>,
    redos: seq<seq<Operation>>,
    saving: Option<bool>,
    merging: Option<bool>)

  /** The maximum number of batches `withTreeHistory` keeps on the undo stack. */
  const HistoryCap := 100

  /**
   * What every reachable state keeps: the dirty list is keyed; a flush is
   * armed exactly when operations are pending, for the first of them; the
   * two stacks together hold at most 100 batches; no batch is empty.
   */
  predicate ViewValid(v: EditorView)
  {
    Keyed(Dirty(v.dirtyPaths, v.dirtyKeys)) &&
    (v.flushing <==> |v.operations| > 0) &&
    v.scheduled == (if v.flushing then Some(v.operations[0]) else None) &&
    |v.undos| + |v.redos| <= HistoryCap &&
    (forall i :: 0 <= i < |v.undos| ==> |v.undos[i]| > 0) &&
    (forall i :: 0 <= i < |v.redos| ==> |v.redos[i]| > 0)
  }

  /** The state of a new editor. */
  function Initial(root: Node, withHistory: bool): (v: EditorView)
    ensures ViewValid(v)
  {
    EditorView(root, [], [], {}, false, None, [], withHistory, [], [], None, None)
  }

  /** What a run of applies did: the state after it, how it ended, and the operations passed to `apply`. */
  datatype Replayed = Replayed(view: EditorView, outcome: Outcome, sent: seq<Operation>)

  /**
   * The core `apply`: the dirty list is recomputed (a throw of
   * `getDirtyPaths` leaves the state as it was), the tree is edited (and
   * kept as far as the edit went when it fails), and on success the
   * operation is logged and, if no flush is armed, one is armed for it.
   */
  function CoreEffect(v: EditorView, op: Operation): Replayed
  {
    var dirty := DirtyPathsOf(op);
    if dirty.Thrown? then Replayed(v, Failed(dirty.message), [op])
    else
      var d := NextDirty(Dirty(v.dirtyPaths, v.dirtyKeys), op, dirty.value);
      var a := ApplyToDraft(v.root, op);
      var edited := v.(root := a.root, dirtyPaths := d.paths, dirtyKeys := d.keys);
      if a.outcome.Failed? then Replayed(edited, a.outcome, [op])
      else
        Replayed(edited.(operations := v.operations + [op], flushing := true,
                         scheduled := if v.flushing then v.scheduled else Some(op)),
                 Done, [op])
  }

  /** The undo stack once `op` is saved, before the cap: merged into the last batch or pushed as a new one. */
  function Stacked(v: EditorView, op: Operation): seq<seq<Operation>>
  {
    var merge := if v.merging.Some? then v.merging.value else |v.undos| > 0 && |v.operations| > 0;
    if |v.undos| > 0 && merge then v.undos[..|v.undos| - 1] + [v.undos[|v.undos| - 1] + [op]]
    else v.undos + [[op]]
  }

  /** The `while (undos.length > 100) undos.shift()` loop, as a value. */
  function Capped(undos: seq<seq<Operation>>): seq<seq<Operation>>
  {
    if |undos| > HistoryCap then undos[|undos| - HistoryCap..] else undos
  }

  /** The `while (undos.length > 100) undos.shift()` loop. */
  method DropOldest(stacked: seq<seq<Operation>>) returns (kept: seq<seq<Operation>>)
    ensures kept == Capped(stacked)
  {
    kept := stacked;
    while |kept| > HistoryCap
      invariant |stacked| > HistoryCap ==> |kept| >= HistoryCap && kept == stacked[|stacked| - |kept|..]
      invariant |stacked| <= HistoryCap ==> kept == stacked
      decreases |kept|
    {
      kept := kept[1..];
    }
  }

  /** The saving part of `withTreeHistory`'s `apply`: saving defaults to on. */
  function Saved(v: EditorView, op: Operation): EditorView
  {
    if v.saving == Some(false) then v
    else v.(undos := Capped(Stacked(v, op)), redos := [])
  }

  /** One `editor.apply(op)`: through the history first when the editor has one. */
  function ApplyEffect(v: EditorView, op: Operation): (r: Replayed)
    ensures r.sent == [op]
  {
    CoreEffect(if v.withHistory then Saved(v, op) else v, op)
  }

  /** `b` after `a`: the operations of both, the state and the outcome of `b`. */
  function Then(a: Replayed, b: Replayed): Replayed
  {
    Replayed(b.view, b.outcome, a.sent + b.sent)
  }

  /** `apply` of each operation in turn, stopping at the first that fails. */
  function Replay(v: EditorView, ops: seq<Operation>): Replayed
  {
    ReplayFrom(v, ops, 0)
  }

  /** The run of the operations from index `i` on. */
  function ReplayFrom(v: EditorView, ops: seq<Operation>, i: nat): Replayed
    decreases |ops| - i
  {
    if i >= |ops| then Replayed(v, Done, [])
    else
      var first := ApplyEffect(v, ops[i]);
      if first.outcome.Failed? then first else Then(first, ReplayFrom(first.view, ops, i + 1))
  }

  /** Where a run of `ops` stands after `done`, measured against the whole run `expected`. */
  ghost predicate Stands(v: EditorView, o: Outcome, done: seq<Operation>, ops: seq<Operation>, i: nat, expected: Replayed)
  {
    (o.Done? ==> Then(Replayed(v, Done, done), ReplayFrom(v, ops, i)) == expected) &&
    (o.Failed? ==> Replayed(v, o, done) == expected)
  }

  /** The scheduled flush: the flag is cleared, `onChange` gets the scheduling operation, the log is emptied. */
  function Flushed(v: EditorView): EditorView
  {
    if !v.flushing || v.scheduled.None? then v
    else v.(flushing := false, notified := v.notified + [v.scheduled.value], operations := [], scheduled := None)
  }

  // ----- what the state functions keep -----

  /** `apply` keeps every reachable state reachable. */
  lemma {:induction false} CoreEffectValid(v: EditorView, op: Operation)
    requires ViewValid(v)
    ensures ViewValid(CoreEffect(v, op).view)
  {
    var dirty := DirtyPathsOf(op);
    if dirty.Ok? {
      NextDirtyKeyed(Dirty(v.dirtyPaths, v.dirtyKeys), op, dirty.value);
    }
  }

  /**
   * Saving keeps at most 100 batches, drops the oldest first, empties the
   * redo stack and leaves `op` as the last operation of the last batch; a
   * merge extends the last batch, anything else pushes `[op]`.
   */
  lemma {:induction false} SavedStacks(v: EditorView, op: Operation)
    requires v.saving != Some(false)
    ensures var r := Saved(v, op); var s := Stacked(v, op);
      |r.undos| <= HistoryCap && r.redos == [] &&
      r.undos == s[|s| - |r.undos|..] && (|s| <= HistoryCap ==> r.undos == s) &&
      |r.undos| > 0 && r.undos[|r.undos| - 1] == s[|s| - 1]
    ensures var s := Stacked(v, op);
      s[|s| - 1] == (if |v.undos| > 0 && (if v.merging.Some? then v.merging.value else |v.operations| > 0)
                      then v.undos[|v.undos| - 1] + [op] else [op])
  {
  }

  /** With saving switched off, `apply` leaves both stacks alone. */
  lemma {:induction false} UnsavedKeepsStacks(v: EditorView, op: Operation)
    requires v.saving == Some(false)
    ensures ApplyEffect(v, op).view.undos == v.undos && ApplyEffect(v, op).view.redos == v.redos
  {
  }

  /** Saving an operation leaves no batch empty. */
  lemma {:induction false} StackedNonEmpty(v: EditorView, op: Operation)
    requires forall i :: 0 <= i < |v.undos| ==> |v.undos[i]| > 0
    ensures forall i :: 0 <= i < |Stacked(v, op)| ==> |Stacked(v, op)[i]| > 0
  {
    var s := Stacked(v, op);
    forall i | 0 <= i < |s|
      ensures |s[i]| > 0
    {
      if i < |v.undos| {
        assert |v.undos[i]| > 0;
      }
    }
  }

  /** Dropping the oldest batches leaves no batch empty that was not. */
  lemma {:induction false} CappedNonEmpty(undos: seq<seq<Operation>>)
    requires forall i :: 0 <= i < |undos| ==> |undos[i]| > 0
    ensures forall i :: 0 <= i < |Capped(undos)| ==> |Capped(undos)[i]| > 0
  {
    if |undos| > HistoryCap {
      forall i | 0 <= i < |Capped(undos)|
        ensures |Capped(undos)[i]| > 0
      {
        assert Capped(undos)[i] == undos[|undos| - HistoryCap + i];
      }
    }
  }

  /** `apply` keeps every reachable state reachable. */
  lemma {:induction false} ApplyEffectValid(v: EditorView, op: Operation)
    requires ViewValid(v)
    ensures ViewValid(ApplyEffect(v, op).view)
  {
    if v.withHistory && v.saving != Some(false) {
      SavedStacks(v, op);
      StackedNonEmpty(v, op);
      CappedNonEmpty(Stacked(v, op));
      CoreEffectValid(Saved(v, op), op);
    } else {
      CoreEffectValid(v, op);
    }
  }

  /** A run of applies keeps every reachable state reachable. */
  lemma {:induction false} ReplayValid(v: EditorView, ops: seq<Operation>, i: nat)
    requires ViewValid(v)
    ensures ViewValid(ReplayFrom(v, ops, i).view)
    decreases |ops| - i
  {
    if i < |ops| {
      ApplyEffectValid(v, ops[i]);
      ReplayValid(ApplyEffect(v, ops[i]).view, ops, i + 1);
    }
  }

  /** A successful apply appends its operation to the log; no apply tells `onChange` anything. */
  lemma {:induction false} ApplyLogs(v: EditorView, op: Operation)
    ensures ApplyEffect(v, op).outcome.Done? ==> ApplyEffect(v, op).view.operations == v.operations + [op]
    ensures ApplyEffect(v, op).outcome.Failed? ==> ApplyEffect(v, op).view.operations == v.operations
    ensures ApplyEffect(v, op).view.notified == v.notified
  {
  }

  /** A suffix of a sequence is its first entry followed by the next suffix. */
  lemma {:induction false} HeadTail<T>(s: seq<T>, i: nat, prefix: seq<T>)
    requires i < |s|
    ensures s[i..] == [s[i]] + s[i + 1..]
    ensures prefix + s[i..] == prefix + [s[i]] + s[i + 1..]
  {
  }

  /** A run is sent its operations up to the first failure: all of them when it succeeds. */
  lemma {:induction false} ReplaySent(v: EditorView, ops: seq<Operation>, i: nat)
    requires i <= |ops|
    ensures ReplayFrom(v, ops, i).sent <= ops[i..]
    ensures ReplayFrom(v, ops, i).outcome.Done? ==> ReplayFrom(v, ops, i).sent == ops[i..]
    ensures ReplayFrom(v, ops, i).outcome.Failed? ==> |ReplayFrom(v, ops, i).sent| > 0
    decreases |ops| - i
  {
    if i < |ops| {
      ReplaySent(ApplyEffect(v, ops[i]).view, ops, i + 1);
      HeadTail(ops, i, []);
    }
  }

  /** A successful run appends all of its operations to the log; no run tells `onChange` anything. */
  lemma {:induction false} ReplayLogs(v: EditorView, ops: seq<Operation>, i: nat)
    requires i <= |ops|
    ensures ReplayFrom(v, ops, i).outcome.Done? ==> ReplayFrom(v, ops, i).view.operations == v.operations + ops[i..]
    ensures ReplayFrom(v, ops, i).view.notified == v.notified
    decreases |ops| - i
  {
    if i < |ops| {
      ApplyLogs(v, ops[i]);
      ReplayLogs(ApplyEffect(v, ops[i]).view, ops, i + 1);
      HeadTail(ops, i, v.operations);
    }
  }

  /**
   * One step of a run: once the first `i` operations have succeeded, the
   * state the `i`-th apply leaves is where the rest of the run goes on from,
   * or, when that apply fails, where the whole run ends.
   */
  lemma {:induction false} ReplayStep(v: EditorView, ops: seq<Operation>, i: nat, s: seq<Operation>,
                                      w: EditorView, o: Outcome, expected: Replayed)
    requires i < |ops|
    requires Then(Replayed(v, Done, s), ReplayFrom(v, ops, i)) == expected
    requires ApplyEffect(v, ops[i]) == Replayed(w, o, [ops[i]])
    ensures o.Done? ==> Then(Replayed(w, Done, s + [ops[i]]), ReplayFrom(w, ops, i + 1)) == expected
    ensures o.Failed? ==> Replayed(w, o, s + [ops[i]]) == expected
  {
    var first := Replayed(w, o, [ops[i]]);
    assert ReplayFrom(v, ops, i) == if o.Failed? then first else Then(first, ReplayFrom(w, ops, i + 1));
    if o.Done? {
      var tail := ReplayFrom(w, ops, i + 1);
      assert s + ([ops[i]] + tail.sent) == (s + [ops[i]]) + tail.sent;
    }
  }

  /** Only an apply that finds no flush armed arms one; later applies keep the first scheduled operation. */
  lemma {:induction false} FlushArmedOnce(v: EditorView, op: Operation)
    ensures var r := ApplyEffect(v, op);
      r.outcome.Done? ==> r.view.flushing && r.view.scheduled == (if v.flushing then v.scheduled else Some(op))
    ensures var r := ApplyEffect(v, op);
      r.outcome.Failed? ==> r.view.flushing == v.flushing && r.view.scheduled == v.scheduled
  {
  }

  /**
   * A flush after a successful run that started with no flush armed tells
   * `onChange` about the run's first operation, not its last, and empties
   * the log.
   */
  lemma {:induction false} FlushNotifiesFirst(v: EditorView, ops: seq<Operation>)
    requires ViewValid(v) && !v.flushing && |ops| > 0
    requires Replay(v, ops).outcome.Done?
    ensures Flushed(Replay(v, ops).view).notified == v.notified + [ops[0]]
    ensures Flushed(Replay(v, ops).view).operations == []
  {
    var w := Replay(v, ops).view;
    ReplayLogs(v, ops, 0);
    ReplayValid(v, ops, 0);
    assert v.operations == [];
    assert w.operations == ops;
    assert w.flushing && w.scheduled == Some(ops[0]);
  }

  // ----- the undo and redo runs -----

  /**
   * The inverses `undo` applies, last operation first, up to the first
   * operation whose inverse has no new path.
   */
  function UndoOps(batch: seq<Operation>): seq<Operation>
    decreases |batch|
  {
    if |batch| == 0 then []
    else
      var op := batch[|batch| - 1];
      if !Invertible(op) then [] else [Inverse(op)] + UndoOps(batch[..|batch| - 1])
  }

  /** Some operation of the batch is a move of the root path elsewhere, whose inverse has no new path. */
  predicate UndoBlocked(batch: seq<Operation>)
  {
    exists i :: 0 <= i < |batch| && !Invertible(batch[i])
  }

  /**
   * Without a blocked operation, `undo` applies the inverse of every
   * operation of the batch in reverse order; with one, it applies the
   * inverses of the operations after the last blocked one.
   */
  lemma {:induction false} UndoOpsReversed(batch: seq<Operation>)
    ensures |UndoOps(batch)| <= |batch|
    ensures forall j :: |batch| - |UndoOps(batch)| <= j < |batch| ==>
      Invertible(batch[j]) && UndoOps(batch)[|batch| - 1 - j] == Inverse(batch[j])
    ensures !UndoBlocked(batch) <==> |UndoOps(batch)| == |batch|
  {
    UndoOpsLength(batch);
    forall j | |batch| - |UndoOps(batch)| <= j < |batch|
      ensures Invertible(batch[j]) && UndoOps(batch)[|batch| - 1 - j] == Inverse(batch[j])
    {
      UndoOpsAt(batch, |batch| - 1 - j);
    }
  }

  lemma {:induction false} UndoOpsLength(batch: seq<Operation>)
    ensures |UndoOps(batch)| <= |batch|
    ensures !UndoBlocked(batch) <==> |UndoOps(batch)| == |batch|
    decreases |batch|
  {
    if |batch| > 0 {
      var init := batch[..|batch| - 1];
      UndoOpsLength(init);
      if Invertible(batch[|batch| - 1]) {
        assert UndoBlocked(batch) <==> UndoBlocked(init) by {
          if UndoBlocked(init) {
            var i :| 0 <= i < |init| && !Invertible(init[i]);
            assert batch[i] == init[i];
          }
          if UndoBlocked(batch) {
            var i :| 0 <= i < |batch| && !Invertible(batch[i]);
            assert init[i] == batch[i];
          }
        }
      } else {
        assert UndoBlocked(batch);
      }
    } else {
      assert !UndoBlocked(batch);
    }
  }

  lemma {:induction false} UndoOpsAt(batch: seq<Operation>, i: nat)
    requires i < |UndoOps(batch)|
    ensures i < |batch| && Invertible(batch[|batch| - 1 - i]) && UndoOps(batch)[i] == Inverse(batch[|batch| - 1 - i])
    decreases |batch|
  {
    var init := batch[..|batch| - 1];
    if i > 0 {
      UndoOpsAt(init, i - 1);
      assert init[|init| - 1 - (i - 1)] == batch[|batch| - 1 - i];
    }
  }

  /** Undoing a batch of well-formed operations and then redoing it sends the batch itself again. */
  lemma {:induction false} UndoOpsOfWellFormed(batch: seq<Operation>)
    requires forall i :: 0 <= i < |batch| ==> WellFormed(batch[i])
    ensures !UndoBlocked(batch)
    ensures |UndoOps(batch)| == |batch|
    ensures forall i :: 0 <= i < |batch| ==>
      Invertible(UndoOps(batch)[i]) && Inverse(UndoOps(batch)[i]) == batch[|batch| - 1 - i]
  {
    forall i | 0 <= i < |batch|
      ensures Invertible(batch[i])
    {
      InverseInvolution(batch[i]);
    }
    UndoOpsReversed(batch);
    forall i | 0 <= i < |batch|
      ensures Invertible(UndoOps(batch)[i]) && Inverse(UndoOps(batch)[i]) == batch[|batch| - 1 - i]
    {
      InverseInvolution(batch[|batch| - 1 - i]);
    }
  }

  /** What `TypeError` the inverse of a blocked move raises once `apply` reads its new path. */
  const NullLength := "Cannot read properties of null (reading 'length')"

  // ----- the history runs -----

  /** `pop` as a value: the last entry removed; an empty stack stays empty. */
  function Pop<T>(s: seq<T>): (r: seq<T>)
    ensures |s| > 0 ==> s == r + [s[|s| - 1]]
    ensures |s| == 0 ==> r == []
  {
    if |s| == 0 then s else s[..|s| - 1]
  }

  /**
   * `withoutSaving(editor, fn)` for an `fn` that applies `ops`: saving is
   * off during the run and is put back only when the run returns.
   */
  function WithoutSavingEffect(v: EditorView, ops: seq<Operation>): Replayed
  {
    var run := Replay(v.(saving := Some(false)), ops);
    if run.outcome.Failed? then run else run.(view := run.view.(saving := v.saving))
  }

  /** `withoutMerging(editor, fn)` for an `fn` that applies `ops`, the same way for the merging flag. */
  function WithoutMergingEffect(v: EditorView, ops: seq<Operation>): Replayed
  {
    var run := Replay(v.(merging := Some(false)), ops);
    if run.outcome.Failed? then run else run.(view := run.view.(merging := v.merging))
  }

  /** A run of inverses that reaches the inverse of a blocked operation: it throws there, with saving off. */
  function BlockedRun(v: EditorView, ops: seq<Operation>): Replayed
  {
    var run := Replay(v.(saving := Some(false)), ops);
    if run.outcome.Failed? then run else run.(outcome := Failed(NullLength))
  }

  /**
   * `undo`: nothing without a batch; otherwise the inverses of the last
   * batch are applied, last first, without saving, and the batch moves from
   * the undo stack to the redo stack. When an apply throws, or the inverse
   * of a blocked operation is reached, the stacks stay as they are and
   * saving stays off.
   */
  function UndoEffect(v: EditorView): Replayed
  {
    if |v.undos| == 0 then Replayed(v, Done, [])
    else
      var batch := v.undos[|v.undos| - 1];
      if UndoBlocked(batch) then BlockedRun(v, UndoOps(batch)) else Undone(v, batch)
  }

  /** The inverses of `batch` applied without saving; when they all succeed, `batch` moves to the redo stack. */
  function Undone(v: EditorView, batch: seq<Operation>): Replayed
  {
    var run := WithoutSavingEffect(v, UndoOps(batch));
    if run.outcome.Failed? then run
    else run.(view := run.view.(redos := run.view.redos + [batch], undos := Pop(run.view.undos)))
  }

  /**
   * `redo`: nothing without a batch; otherwise the last redo batch is
   * applied again in order with saving off, and then moves from the redo
   * stack to the undo stack.
   */
  function RedoEffect(v: EditorView): Replayed
  {
    if |v.redos| == 0 then Replayed(v, Done, [])
    else
      var batch := v.redos[|v.redos| - 1];
      var run := WithoutSavingEffect(v, batch);
      if run.outcome.Failed? then run
      else run.(view := run.view.(redos := Pop(run.view.redos), undos := run.view.undos + [batch]))
  }

  /** With saving off, a run leaves the history alone: both stacks and both flags. */
  lemma {:induction false} UnsavedRunKeepsHistory(v: EditorView, ops: seq<Operation>, i: nat)
    requires v.saving == Some(false)
    ensures var w := ReplayFrom(v, ops, i).view;
      w.undos == v.undos && w.redos == v.redos && w.saving == v.saving && w.merging == v.merging &&
      w.withHistory == v.withHistory
    decreases |ops| - i
  {
    if i < |ops| {
      UnsavedRunKeepsHistory(ApplyEffect(v, ops[i]).view, ops, i + 1);
    }
  }

  /** Any run keeps the flags and whether the editor has a history. */
  lemma {:induction false} RunKeepsFlags(v: EditorView, ops: seq<Operation>, i: nat)
    ensures var w := ReplayFrom(v, ops, i).view;
      w.saving == v.saving && w.merging == v.merging && w.withHistory == v.withHistory
    decreases |ops| - i
  {
    if i < |ops| {
      RunKeepsFlags(ApplyEffect(v, ops[i]).view, ops, i + 1);
    }
  }

  /**
   * `withoutSaving` saves nothing: both stacks are as they were. Saving is
   * back to its old value after a run that returns, and left off after one
   * that throws.
   */
  lemma {:induction false} WithoutSavingKeepsStacks(v: EditorView, ops: seq<Operation>)
    ensures var r := WithoutSavingEffect(v, ops);
      r.view.undos == v.undos && r.view.redos == v.redos && r.view.merging == v.merging
    ensures var r := WithoutSavingEffect(v, ops);
      r.view.saving == if r.outcome.Done? then v.saving else Some(false)
    ensures WithoutSavingEffect(v, ops).sent == Replay(v.(saving := Some(false)), ops).sent
  {
    UnsavedRunKeepsHistory(v.(saving := Some(false)), ops, 0);
  }

  /**
   * `withoutMerging` leaves merging as it was after a run that returns and
   * off after one that throws; while it runs, every saved operation starts
   * a batch of its own.
   */
  lemma {:induction false} WithoutMergingRestores(v: EditorView, ops: seq<Operation>)
    ensures var r := WithoutMergingEffect(v, ops);
      r.view.merging == (if r.outcome.Done? then v.merging else Some(false)) && r.view.saving == v.saving
  {
    RunKeepsFlags(v.(merging := Some(false)), ops, 0);
  }

  /** With merging off, a saved operation is pushed as a batch of its own. */
  lemma {:induction false} UnmergedPushes(v: EditorView, op: Operation)
    requires v.merging == Some(false)
    ensures Stacked(v, op) == v.undos + [[op]]
  {
  }

  /**
   * A successful `undo` moves the last batch from the undo stack to the
   * redo stack, after applying the inverse of each of its operations, last
   * first; a failed one leaves both stacks and switches saving off.
   */
  lemma {:induction false} UndoMovesBatch(v: EditorView)
    requires |v.undos| > 0
    ensures var r := UndoEffect(v); var batch := v.undos[|v.undos| - 1];
      r.outcome.Done? ==>
        r.view.undos == v.undos[..|v.undos| - 1] && r.view.redos == v.redos + [batch] &&
        r.view.saving == v.saving && !UndoBlocked(batch) && r.sent == UndoOps(batch) &&
        |r.sent| == |batch| &&
        forall j :: 0 <= j < |batch| ==> Invertible(batch[j]) && r.sent[|batch| - 1 - j] == Inverse(batch[j])
    ensures var r := UndoEffect(v);
      r.outcome.Failed? ==> r.view.undos == v.undos && r.view.redos == v.redos && r.view.saving == Some(false)
  {
    var batch := v.undos[|v.undos| - 1];
    var u := v.(saving := Some(false));
    UnsavedRunKeepsHistory(u, UndoOps(batch), 0);
    WithoutSavingKeepsStacks(v, UndoOps(batch));
    ReplaySent(u, UndoOps(batch), 0);
    UndoOpsReversed(batch);
  }

  /**
   * A successful `redo` moves the last batch from the redo stack to the
   * undo stack, after applying each of its operations in order; a failed
   * one leaves both stacks and switches saving off.
   */
  lemma {:induction false} RedoMovesBatch(v: EditorView)
    requires |v.redos| > 0
    ensures var r := RedoEffect(v); var batch := v.redos[|v.redos| - 1];
      r.outcome.Done? ==>
        r.view.redos == v.redos[..|v.redos| - 1] && r.view.undos == v.undos + [batch] &&
        r.view.saving == v.saving && r.sent == batch
    ensures var r := RedoEffect(v);
      r.outcome.Failed? ==> r.view.undos == v.undos && r.view.redos == v.redos && r.view.saving == Some(false)
  {
    var batch := v.redos[|v.redos| - 1];
    WithoutSavingKeepsStacks(v, batch);
    ReplaySent(v.(saving := Some(false)), batch, 0);
  }

  /** Moving the last undo batch to the redo stack keeps the stacks' bound and their batches non-empty. */
  lemma {:induction false} UndoShiftValid(w: EditorView, saving: Option<bool>)
    requires ViewValid(w) && |w.undos| > 0
    ensures ViewValid(w.(saving := saving, redos := w.redos + [w.undos[|w.undos| - 1]], undos := Pop(w.undos)))
  {
    var undos := Pop(w.undos);
    var redos := w.redos + [w.undos[|w.undos| - 1]];
    assert forall i :: 0 <= i < |undos| ==> undos[i] == w.undos[i];
    assert forall i :: 0 <= i < |redos| ==> redos[i] == if i < |w.redos| then w.redos[i] else w.undos[|w.undos| - 1];
  }

  /** Moving the last redo batch to the undo stack keeps the stacks' bound and their batches non-empty. */
  lemma {:induction false} RedoShiftValid(w: EditorView, saving: Option<bool>)
    requires ViewValid(w) && |w.redos| > 0
    ensures ViewValid(w.(saving := saving, undos := w.undos + [w.redos[|w.redos| - 1]], redos := Pop(w.redos)))
  {
    var redos := Pop(w.redos);
    var undos := w.undos + [w.redos[|w.redos| - 1]];
    assert forall i :: 0 <= i < |redos| ==> redos[i] == w.redos[i];
    assert forall i :: 0 <= i < |undos| ==> undos[i] == if i < |w.undos| then w.undos[i] else w.redos[|w.redos| - 1];
  }

  /** `undo` and `redo` keep every reachable state reachable. */
  lemma {:induction false} UndoValid(v: EditorView)
    requires ViewValid(v)
    ensures ViewValid(UndoEffect(v).view)
  {
    if |v.undos| > 0 {
      var batch := v.undos[|v.undos| - 1];
      var u := v.(saving := Some(false));
      var ops := UndoOps(batch);
      var run := Replay(u, ops);
      ReplayValid(u, ops, 0);
      UnsavedRunKeepsHistory(u, ops, 0);
      if UndoBlocked(batch) {
        assert UndoEffect(v) == BlockedRun(v, ops);
        assert BlockedRun(v, ops).view == run.view;
      } else {
        assert UndoEffect(v) == Undone(v, batch);
        if run.outcome.Failed? {
          assert Undone(v, batch).view == run.view;
        } else {
          UndoShiftValid(run.view, v.saving);
          assert WithoutSavingEffect(v, ops) == run.(view := run.view.(saving := v.saving));
          assert Undone(v, batch).view ==
            run.view.(saving := v.saving, redos := run.view.redos + [batch], undos := Pop(run.view.undos));
        }
      }
    }
  }

  lemma {:induction false} RedoValid(v: EditorView)
    requires ViewValid(v)
    ensures ViewValid(RedoEffect(v).view)
  {
    if |v.redos| > 0 {
      var batch := v.redos[|v.redos| - 1];
      var u := v.(saving := Some(false));
      var run := Replay(u, batch);
      ReplayValid(u, batch, 0);
      UnsavedRunKeepsHistory(u, batch, 0);
      if run.outcome.Done? {
        RedoShiftValid(run.view, v.saving);
        assert RedoEffect(v).view ==
          run.view.(saving := v.saving, undos := run.view.undos + [batch], redos := Pop(run.view.redos));
      }
    }
  }

  /** A successful `undo` followed by a successful `redo` leaves both stacks and saving as they were. */
  lemma {:induction false} UndoThenRedo(v: EditorView)
    requires |v.undos| > 0
    requires UndoEffect(v).outcome.Done? && RedoEffect(UndoEffect(v).view).outcome.Done?
    ensures var r := RedoEffect(UndoEffect(v).view);
      r.view.undos == v.undos && r.view.redos == v.redos && r.view.saving == v.saving &&
      r.sent == v.undos[|v.undos| - 1]
  {
    UndoShiftsStacks(v);
    var w := UndoEffect(v).view;
    RedoShiftsStacks(w);
    var r := RedoEffect(w).view;
    BatchRoundTrip(v.undos, v.redos, w.undos, w.redos, r.undos, r.redos);
  }

  /** The stack part of a successful `undo`: its last batch moves to the redo stack. */
  lemma {:induction false} UndoShiftsStacks(v: EditorView)
    requires |v.undos| > 0 && UndoEffect(v).outcome.Done?
    ensures var w := UndoEffect(v).view;
      w.undos == v.undos[..|v.undos| - 1] && w.redos == v.redos + [v.undos[|v.undos| - 1]] && w.saving == v.saving
  {
    UndoMovesBatch(v);
  }

  /** The stack part of a successful `redo`: its last batch moves back to the undo stack. */
  lemma {:induction false} RedoShiftsStacks(w: EditorView)
    requires |w.redos| > 0 && RedoEffect(w).outcome.Done?
    ensures var r := RedoEffect(w); var batch := w.redos[|w.redos| - 1];
      r.view.undos == w.undos + [batch] && r.view.redos == w.redos[..|w.redos| - 1] &&
      r.view.saving == w.saving && r.sent == batch
  {
    RedoMovesBatch(w);
  }

  /** Moving the last batch from one stack to the other and back restores both stacks. */
  lemma BatchRoundTrip<T>(u0: seq<T>, r0: seq<T>, u1: seq<T>, r1: seq<T>, u2: seq<T>, r2: seq<T>)
    requires |u0| > 0 && u1 == u0[..|u0| - 1] && r1 == r0 + [u0[|u0| - 1]]
    requires |r1| > 0 && u2 == u1 + [r1[|r1| - 1]] && r2 == r1[..|r1| - 1]
    ensures u2 == u0 && r2 == r0 && r1[|r1| - 1] == u0[|u0| - 1]
  {
    assert u0 == u0[..|u0| - 1] + [u0[|u0| - 1]];
  }

  // ----- the objects -----

  /** A path ref: the path it keeps up to date, `null` once released. */
  class PathRef {
    var current: Option<Path>

    constructor (path: Path)
      ensures current == Some(path)
    {
      current := Some(path);
    }
  }

  /**
   * An editor. `sent` records, for the proofs only, every operation passed
   * to the core `apply`.
   */
  class Editor {
    var root: Node
    var operations: seq<Operation>
    var refs: set<PathRef>
    var dirtyPaths: seq<Path>
    var dirtyKeys: set<string>
    var flushing: bool
    var scheduled: Option<Operation>
    var notified: seq<Operation>
    var withHistory: bool
    var undos: seq<seq<Operation>>
    var redos: seq<seq<Operation>>
    var saving: Option<bool>
    var merging: Option<bool>
    ghost var sent: seq<Operation>

    function View(): EditorView
      reads this
    {
      EditorView(root, operations, dirtyPaths, dirtyKeys, flushing, scheduled, notified,
                 withHistory, undos, redos, saving, merging)
    }

    /** Every live ref holds a path. */
    ghost predicate Valid()
      reads this, refs
    {
      forall r :: r in refs ==> r.current.Some?
    }

    /** `createTreeEditor` on a given tree, with `withTreeHistory` applied or not. */
    constructor (root: Node, withHistory: bool)
      ensures View() == Initial(root, withHistory) && refs == {} && sent == []
    {
      this.root := root;
      operations := [];
      refs := {};
      dirtyPaths := [];
      dirtyKeys := {};
      flushing := false;
      scheduled := None;
      notified := [];
      this.withHistory := withHistory;
      undos := [];
      redos := [];
      saving := None;
      merging := None;
      sent := [];
    }

    /** `pathRef`: a new live ref holding `path`. */
    method NewPathRef(path: Path) returns (r: PathRef)
      requires Valid()
      modifies this
      ensures Valid()
      ensures fresh(r) && r.current == Some(path) && refs == old(refs) + {r}
      ensures View() == old(View()) && sent == old(sent)
    {
      r := new PathRef(path);
      refs := refs + {r};
    }

    /** `unref`: releases the ref and returns what it held. */
    method Unref(r: PathRef) returns (p: Option<Path>)
      modifies this, r
      ensures p == old(r.current) && r.current == None && refs == old(refs) - {r}
      ensures View() == old(View()) && sent == old(sent)
    {
      p := r.current;
      refs := refs - {r};
      r.current := None;
    }

    /**
     * `TreePathRefs.transform`: a released ref is left alone; otherwise it
     * takes its path as the operation leaves it, and is released when the
     * operation removed its node.
     */
    method TransformRef(r: PathRef, op: Operation)
      requires Valid()
      modifies this, r
      ensures Valid()
      ensures r.current == TransformOpt(old(r.current), op)
      ensures refs == if old(r.current).Some? && r.current.None? then old(refs) - {r} else old(refs)
      ensures View() == old(View()) && sent == old(sent)
    {
      var current := r.current;
      if current.None? {
        return;
      }
      var path := Transform(current.value, op);
      r.current := path;
      if path.None? {
        var released := Unref(r);
      }
    }

    /** The first loop of `apply`: every live ref is carried through the operation. */
    method CarryRefs(op: Operation)
      requires Valid()
      modifies this, refs
      ensures Valid()
      ensures forall r :: r in old(refs) ==> r.current == TransformOpt(old(r.current), op)
      ensures forall r :: r in refs <==> r in old(refs) && r.current.Some?
      ensures View() == old(View()) && sent == old(sent)
    {
      var todo := refs;
      while todo != {}
        invariant todo <= old(refs)
        invariant Valid()
        invariant forall r :: r in old(refs) && r !in todo ==> r.current == TransformOpt(old(r.current), op)
        invariant forall r :: r in todo ==> r.current == old(r.current)
        invariant forall r :: r in refs <==> r in old(refs) && r.current.Some?
        invariant View() == old(View()) && sent == old(sent)
        decreases |todo|
      {
        var r :| r in todo;
        TransformRef(r, op);
        todo := todo - {r};
      }
    }

    /** The dirty-list part of `apply`, stored once `getDirtyPaths` has returned `news`. */
    method StoreDirty(op: Operation, news: seq<Path>)
      modifies this
      ensures var d := NextDirty(Dirty(old(dirtyPaths), old(dirtyKeys)), op, news);
        View() == old(View()).(dirtyPaths := d.paths, dirtyKeys := d.keys)
      ensures refs == old(refs) && sent == old(sent)
    {
      var d := Recompute(Dirty(dirtyPaths, dirtyKeys), op, news);
      dirtyPaths, dirtyKeys := d.paths, d.keys;
    }

    /** The last part of `apply`: the tree edit, then the log and the flush flag. */
    method EditAndLog(op: Operation) returns (outcome: Outcome)
      modifies this
      ensures var a := ApplyToDraft(old(root), op);
        outcome == a.outcome &&
        View() == old(View()).(root := a.root,
                              operations := if a.outcome.Done? then old(operations) + [op] else old(operations),
                              flushing := old(flushing) || a.outcome.Done?,
                              scheduled := if !old(flushing) && a.outcome.Done? then Some(op) else old(scheduled))
      ensures refs == old(refs) && sent == old(sent)
    {
      var a := ApplyOperation(root, op);
      root := a.root;
      outcome := a.outcome;
      if outcome.Failed? {
        return;
      }
      operations := operations + [op];
      if !flushing {
        flushing := true;
        scheduled := Some(op);
      }
    }

    /**
     * The core `apply`: first every live ref is carried through the
     * operation, then the dirty list is rebuilt, then the tree is edited,
     * the operation is logged and a flush is armed.
     */
    method CoreApply(op: Operation) returns (outcome: Outcome)
      requires Valid()
      modifies this, refs
      ensures Valid()
      ensures forall r :: r in old(refs) ==> r.current == TransformOpt(old(r.current), op)
      ensures forall r :: r in refs <==> r in old(refs) && r.current.Some?
      ensures old(sent) <= sent
      ensures Replayed(View(), outcome, sent[|old(sent)|..]) == CoreEffect(old(View()), op)
    {
      sent := sent + [op];
      CarryRefs(op);
      var news := GetDirtyPaths(op);
      if news.Thrown? {
        outcome := Failed(news.message);
        return;
      }
      StoreDirty(op, news.value);
      outcome := EditAndLog(op);
    }

    /** The saving part of `withTreeHistory`'s `apply`. */
    method Save(op: Operation)
      modifies this
      ensures View() == Saved(old(View()), op) && refs == old(refs) && sent == old(sent)
    {
      var save := saving.None? || saving.value;
      if save {
        var merge := if merging.Some? then merging.value else |undos| > 0 && |operations| > 0;
        var stacked := if |undos| > 0 && merge then undos[..|undos| - 1] + [undos[|undos| - 1] + [op]]
                       else undos + [[op]];
        undos := DropOldest(stacked);
        redos := [];
      }
    }

    /** `withTreeHistory`'s `apply`: save `op` unless saving is off, then the core `apply` in any case. */
    method HistoryApply(op: Operation) returns (outcome: Outcome)
      requires Valid()
      modifies this, refs
      ensures Valid()
      ensures forall r :: r in old(refs) ==> r.current == TransformOpt(old(r.current), op)
      ensures forall r :: r in refs <==> r in old(refs) && r.current.Some?
      ensures old(sent) <= sent
      ensures Replayed(View(), outcome, sent[|old(sent)|..]) == CoreEffect(Saved(old(View()), op), op)
    {
      Save(op);
      outcome := CoreApply(op);
    }

    /** `editor.apply`: the history's `apply` for an editor that has one, else the core `apply`. */
    method Apply(op: Operation) returns (outcome: Outcome)
      requires Valid()
      modifies this, refs
      ensures Valid()
      ensures forall r :: r in old(refs) ==> r.current == TransformOpt(old(r.current), op)
      ensures forall r :: r in refs <==> r in old(refs) && r.current.Some?
      ensures old(sent) <= sent
      ensures Replayed(View(), outcome, sent[|old(sent)|..]) == ApplyEffect(old(View()), op)
    {
      if withHistory {
        outcome := HistoryApply(op);
      } else {
        outcome := CoreApply(op);
      }
    }

    /** The scheduled microtask, run explicitly. */
    method Flush()
      requires Valid()
      modifies this
      ensures Valid()
      ensures View() == Flushed(old(View())) && refs == old(refs) && sent == old(sent)
    {
      if flushing && scheduled.Some? {
        flushing := false;
        notified := notified + [scheduled.value];
        operations := [];
        scheduled := None;
      }
    }

    /**
     * The refs after a run of `done` from a snapshot `was` of every live
     * ref's path: each ref of the snapshot holds its path carried through
     * `done`, and the live refs are those of the snapshot that still hold a
     * path.
     */
    ghost predicate Tracks(was: map<PathRef, Option<Path>>, done: seq<Operation>)
      reads this, refs, was.Keys
    {
      refs <= was.Keys &&
      (forall r :: r in was ==> (r in refs <==> r.current.Some?)) &&
      (forall r :: r in was ==> r.current == TransformAll(was[r], done))
    }

    /** `apply` within a run: the refs keep tracking the snapshot through one more operation. */
    method ApplyTracked(op: Operation, ghost was: map<PathRef, Option<Path>>, ghost done: seq<Operation>)
      returns (o: Outcome)
      requires Tracks(was, done)
      modifies this, refs
      ensures Tracks(was, done + [op]) && sent == old(sent) + [op]
      ensures Replayed(View(), o, [op]) == ApplyEffect(old(View()), op)
    {
      assert Valid();
      o := Apply(op);
      assert sent == old(sent) + sent[|old(sent)|..];
      forall r | r in was
        ensures r.current == TransformAll(was[r], done + [op])
      {
        TransformAllSnoc(was[r], done, op, r.current);
      }
    }

    /** One turn of `ApplyEach`: the `i`-th apply, and where the run stands after it. */
    method ApplyNext(ops: seq<Operation>, i: nat, ghost was: map<PathRef, Option<Path>>, ghost done: seq<Operation>,
                     ghost expected: Replayed)
      returns (o: Outcome)
      requires i < |ops| && Tracks(was, done)
      requires Then(Replayed(View(), Done, done), ReplayFrom(View(), ops, i)) == expected
      modifies this, refs
      ensures Tracks(was, done + [ops[i]]) && sent == old(sent) + [ops[i]]
      ensures Stands(View(), o, done + [ops[i]], ops, i + 1, expected)
    {
      ghost var v := View();
      o := ApplyTracked(ops[i], was, done);
      ReplayStep(v, ops, i, done, View(), o, expected);
    }

    /** `apply` of each operation in turn until one fails. */
    method ApplyEach(ops: seq<Operation>) returns (outcome: Outcome)
      requires Valid()
      modifies this, refs
      ensures Valid()
      ensures old(sent) <= sent
      ensures forall r :: r in old(refs) ==> r.current == TransformAll(old(r.current), sent[|old(sent)|..])
      ensures forall r :: r in refs <==> r in old(refs) && r.current.Some?
      ensures Replayed(View(), outcome, sent[|old(sent)|..]) == Replay(old(View()), ops)
    {
      ghost var was := map r | r in refs :: r.current;
      ghost var expected := Replay(View(), ops);
      ghost var done: seq<Operation> := [];
      assert Tracks(was, done);
      outcome := Done;
      var i := 0;
      while i < |ops| && outcome.Done?
        invariant i <= |ops| && Tracks(was, done) && sent == old(sent) + done
        invariant Stands(View(), outcome, done, ops, i, expected)
      {
        outcome := ApplyNext(ops, i, was, done, expected);
        done := done + [ops[i]];
        i := i + 1;
      }
      assert sent[|old(sent)|..] == done;
    }

    /** The run inside `withoutSaving`: saving is switched off, then each operation is applied. */
    method ApplyUnsaved(ops: seq<Operation>) returns (outcome: Outcome)
      requires Valid()
      modifies this, refs
      ensures Valid()
      ensures old(sent) <= sent
      ensures forall r :: r in old(refs) ==> r.current == TransformAll(old(r.current), sent[|old(sent)|..])
      ensures forall r :: r in refs <==> r in old(refs) && r.current.Some?
      ensures Replayed(View(), outcome, sent[|old(sent)|..]) == Replay(old(View()).(saving := Some(false)), ops)
    {
      saving := Some(false);
      outcome := ApplyEach(ops);
    }

    /** The run of `undo` when the batch holds a blocked operation: the inverses before it, then the throw. */
    method ApplyBlocked(ops: seq<Operation>) returns (outcome: Outcome)
      requires Valid()
      modifies this, refs
      ensures Valid()
      ensures old(sent) <= sent
      ensures forall r :: r in old(refs) ==> r.current == TransformAll(old(r.current), sent[|old(sent)|..])
      ensures forall r :: r in refs <==> r in old(refs) && r.current.Some?
      ensures Replayed(View(), outcome, sent[|old(sent)|..]) == BlockedRun(old(View()), ops)
    {
      outcome := ApplyUnsaved(ops);
      if outcome.Done? {
        outcome := Failed(NullLength);
      }
    }

    /** `withoutSaving(editor, fn)`, for an `fn` that applies `ops`: no `try`, so a throw leaves saving off. */
    method WithoutSaving(ops: seq<Operation>) returns (outcome: Outcome)
      requires Valid()
      modifies this, refs
      ensures Valid()
      ensures old(sent) <= sent
      ensures forall r :: r in old(refs) ==> r.current == TransformAll(old(r.current), sent[|old(sent)|..])
      ensures forall r :: r in refs <==> r in old(refs) && r.current.Some?
      ensures Replayed(View(), outcome, sent[|old(sent)|..]) == WithoutSavingEffect(old(View()), ops)
    {
      var prev := saving;
      outcome := ApplyUnsaved(ops);
      if outcome.Failed? {
        return;
      }
      saving := prev;
    }

    /** `withoutMerging(editor, fn)`, for an `fn` that applies `ops`. */
    method WithoutMerging(ops: seq<Operation>) returns (outcome: Outcome)
      requires Valid()
      modifies this, refs
      ensures Valid()
      ensures old(sent) <= sent
      ensures forall r :: r in old(refs) ==> r.current == TransformAll(old(r.current), sent[|old(sent)|..])
      ensures forall r :: r in refs <==> r in old(refs) && r.current.Some?
      ensures Replayed(View(), outcome, sent[|old(sent)|..]) == WithoutMergingEffect(old(View()), ops)
    {
      var prev := merging;
      merging := Some(false);
      outcome := ApplyEach(ops);
      if outcome.Failed? {
        return;
      }
      merging := prev;
    }

    /**
     * `undo`: the inverses of the last batch are applied, last first, with
     * saving off; the batch is pushed on the redo stack and popped from the
     * undo stack. The inverse of a blocked operation throws once applied.
     */
    method Undo() returns (outcome: Outcome)
      requires Valid()
      modifies this, refs
      ensures Valid()
      ensures old(sent) <= sent
      ensures forall r :: r in old(refs) ==> r.current == TransformAll(old(r.current), sent[|old(sent)|..])
      ensures forall r :: r in refs <==> r in old(refs) && r.current.Some?
      ensures Replayed(View(), outcome, sent[|old(sent)|..]) == UndoEffect(old(View()))
    {
      if |undos| == 0 {
        return Done;
      }
      var batch := undos[|undos| - 1];
      if UndoBlocked(batch) {
        outcome := ApplyBlocked(UndoOps(batch));
      } else {
        outcome := UndoBatch(batch);
      }
    }

    /** The rest of `undo` for a batch without a blocked operation. */
    method UndoBatch(batch: seq<Operation>) returns (outcome: Outcome)
      requires Valid()
      modifies this, refs
      ensures Valid()
      ensures old(sent) <= sent
      ensures forall r :: r in old(refs) ==> r.current == TransformAll(old(r.current), sent[|old(sent)|..])
      ensures forall r :: r in refs <==> r in old(refs) && r.current.Some?
      ensures Replayed(View(), outcome, sent[|old(sent)|..]) == Undone(old(View()), batch)
    {
      outcome := WithoutSaving(UndoOps(batch));
      if outcome.Failed? {
        return;
      }
      redos := redos + [batch];
      undos := Pop(undos);
    }

    /** `redo`: the last redo batch is applied in order without saving, then popped and pushed on the undo stack. */
    method Redo() returns (outcome: Outcome)
      requires Valid()
      modifies this, refs
      ensures Valid()
      ensures old(sent) <= sent
      ensures forall r :: r in old(refs) ==> r.current == TransformAll(old(r.current), sent[|old(sent)|..])
      ensures forall r :: r in refs <==> r in old(refs) && r.current.Some?
      ensures Replayed(View(), outcome, sent[|old(sent)|..]) == RedoEffect(old(View()))
    {
      if |redos| == 0 {
        return Done;
      }
      var batch := redos[|redos| - 1];
      outcome := WithoutSaving(batch);
      if outcome.Failed? {
        return;
      }
      redos := Pop(redos);
      undos := undos + [batch];
    }
  }
}
