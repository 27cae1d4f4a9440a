/**
 * `setNodes`: for every target other than the root, the keys of `props`
 * that compare as changed go into one `set_node`, which records the values
 * the node owned (`properties`) and the values it gets (`newProperties`).
 */
module SetNodesTransform {
  import opened Wrappers
  import opened TreeElements
  import opened TreePaths
  import opened TreeNodes
  import opened TreeOperations
  import opened PathTransform
  import opened EditorQueries
  import opened GeneralTransforms
  import opened Editors
  import opened TransformSupport

  /** The `compare` option: whether a new value counts as a change of the node's value. */
  type Compare = (Value, Value) -> bool

  /** The `merge` option: the value to store, from the node's value and the new one. */
  type Merge = (Value, Value) -> Value

  /** `compare` when none is given: `prop !== nodeProp`. */
  function CompareOr(compare: Option<Compare>): (c: Compare)
    ensures compare.None? ==> forall a, b :: c(a, b) <==> a != b
  {
    if compare.Some? then compare.value else (a: Value, b: Value) => a != b
  }

  /**
   * The keys among `ks` that the loop over `props` counts as changed: keys
   * of `props` other than `children` and `text` whose value compares as
   * changed against the node's.
   */
  function Changes(node: Node, props: Props, compare: Compare, ks: set<string>): set<string>
  {
    set k | k in ks && k in props && k != "children" && k != "text" && compare(props[k], Lookup(node.props, k))
  }

  /** The value a changed key gets: `merge(node[k], props[k])` with a `merge`, else `props[k]`. */
  function NewValue(node: Node, props: Props, merge: Option<Merge>, k: string): Value
    requires k in props
  {
    if merge.Some? then merge.value(Lookup(node.props, k), props[k]) else props[k]
  }

  /** `properties` after the keys `ks`: the node's own value of each changed key it has. */
  function OldValues(node: Node, props: Props, compare: Compare, ks: set<string>): Props
  {
    map k | k in Changes(node, props, compare, ks) && k in node.props :: node.props[k]
  }

  /** `newProperties` after the keys `ks`: the new value of each changed key whose value in `props` is not nullish. */
  function NewValues(node: Node, props: Props, compare: Compare, merge: Option<Merge>, ks: set<string>): Props
  {
    map k | k in Changes(node, props, compare, ks) && !IsNullish(props[k]) :: NewValue(node, props, merge, k)
  }

  /**
   * The operation for one entry: none for the root, none when no key
   * changed, and otherwise the `set_node` at the entry's path.
   */
  function SetOp(entry: Entry, props: Props, compare: Compare, merge: Option<Merge>): Option<Operation>
  {
    var node := entry.node;
    if |entry.path| == 0 || Changes(node, props, compare, props.Keys) == {} then None
    else Some(SetNode(entry.path, OldValues(node, props, compare, props.Keys),
                      NewValues(node, props, compare, merge, props.Keys)))
  }

  /** One turn of the loop: nothing without an operation, else the `apply` of it. */
  function SetAt(v: EditorView, entry: Entry, props: Props, compare: Compare, merge: Option<Merge>): Replayed
  {
    match SetOp(entry, props, compare, merge)
    case None => Replayed(v, Done, [])
    case Some(op) => ApplyEffect(v, op)
  }

  /** The loop from the `i`-th entry on, stopping at the first `apply` that fails. */
  function SetFrom(v: EditorView, es: seq<Entry>, i: nat, props: Props, compare: Compare, merge: Option<Merge>): Replayed
    decreases |es| - i
  {
    if i >= |es| then Replayed(v, Done, [])
    else
      var step := SetAt(v, es[i], props, compare, merge);
      if step.outcome.Failed? then step
      else Then(step, SetFrom(step.view, es, i + 1, props, compare, merge))
  }

  /** `setNodes(editor, props, { at, match, compare, merge })`: nothing without `at`, else the loop over the targets. */
  function SetEffect(v: EditorView, props: Props, at: Option<Location>, matcher: Option<Entry -> bool>,
                     compare: Option<Compare>, merge: Option<Merge>): Replayed
  {
    if at.None? then Replayed(v, Done, [])
    else match Targets(v.root, at.value, matcher)
      case Thrown(m) => Replayed(v, Failed(m), [])
      case Ok(entries) => SetFrom(v, entries, 0, props, CompareOr(compare), merge)
  }

  /**
   * What a `set_node` built here does to the node: a key that did not
   * compare as changed keeps its value or its absence; a changed key whose
   * new value is nullish is deleted; any other changed key takes its new
   * value. The patch never names `children` or `text`.
   */
  lemma {:induction false} SetResult(node: Node, props: Props, compare: Compare, merge: Option<Merge>)
    ensures var ch := Changes(node, props, compare, props.Keys);
      var r := Patched(node.props, OldValues(node, props, compare, props.Keys),
                                   NewValues(node, props, compare, merge, props.Keys));
      (forall k :: k !in ch ==> (k in r <==> k in node.props) && (k in r ==> r[k] == node.props[k])) &&
      (forall k :: k in ch ==>
        (k in r <==> !IsNullish(props[k]) && !IsNullish(NewValue(node, props, merge, k))) &&
        (k in r ==> r[k] == NewValue(node, props, merge, k)))
    ensures "children" !in NewValues(node, props, compare, merge, props.Keys)
    ensures "text" !in NewValues(node, props, compare, merge, props.Keys)
  {
    var ch := Changes(node, props, compare, props.Keys);
    var old_ := OldValues(node, props, compare, props.Keys);
    var new_ := NewValues(node, props, compare, merge, props.Keys);
    var r := Patched(node.props, old_, new_);
    forall k | k !in ch
      ensures (k in r <==> k in node.props) && (k in r ==> r[k] == node.props[k])
    {
      assert k !in old_ && k !in new_;
    }
    forall k | k in ch
      ensures (k in r <==> !IsNullish(props[k]) && !IsNullish(NewValue(node, props, merge, k))) &&
        (k in r ==> r[k] == NewValue(node, props, merge, k))
    {
      assert k in new_ <==> !IsNullish(props[k]);
    }
  }

  /**
   * The operation of an entry: none exactly for the root or when no key
   * changed; otherwise a `set_node` at the entry's path that the editor can
   * apply to a node found there.
   */
  lemma {:induction false} SetOpShape(entry: Entry, props: Props, compare: Compare, merge: Option<Merge>, root: Node)
    ensures SetOp(entry, props, compare, merge).None? <==>
      |entry.path| == 0 || Changes(entry.node, props, compare, props.Keys) == {}
    ensures SetOp(entry, props, compare, merge).Some? ==>
      SetOp(entry, props, compare, merge).value.SetNode? && SetOp(entry, props, compare, merge).value.path == entry.path
    ensures var op := SetOp(entry, props, compare, merge);
      op.Some? && NodeAt(root, entry.path).Some? ==>
        ApplySet(root, entry.path, op.value.properties, op.value.newProperties).outcome.Done?
  {
    SetResult(entry.node, props, compare, merge);
  }

  /** Every operation the loop sends is a `set_node` at a non-root path, at most one per entry. */
  lemma {:induction false} SetFromSends(v: EditorView, es: seq<Entry>, i: nat, props: Props, compare: Compare,
                                        merge: Option<Merge>)
    requires i <= |es|
    ensures var r := SetFrom(v, es, i, props, compare, merge);
      |r.sent| <= |es| - i && forall k :: 0 <= k < |r.sent| ==> r.sent[k].SetNode? && |r.sent[k].path| > 0
    decreases |es| - i
  {
    if i < |es| {
      var step := SetAt(v, es[i], props, compare, merge);
      SetAtSends(v, es[i], props, compare, merge);
      if step.outcome.Done? {
        SetFromSends(step.view, es, i + 1, props, compare, merge);
        var rest := SetFrom(step.view, es, i + 1, props, compare, merge);
        assert SetFrom(v, es, i, props, compare, merge).sent == step.sent + rest.sent;
      } else {
        assert SetFrom(v, es, i, props, compare, merge) == step;
      }
    }
  }

  /** One turn sends at most one operation, a `set_node` at a non-root path. */
  lemma SetAtSends(v: EditorView, entry: Entry, props: Props, compare: Compare, merge: Option<Merge>)
    ensures var s := SetAt(v, entry, props, compare, merge).sent;
      |s| <= 1 && forall k :: 0 <= k < |s| ==> s[k].SetNode? && |s[k].path| > 0
  {
    var op := SetOp(entry, props, compare, merge);
    if op.Some? {
      assert op.value.SetNode? && |op.value.path| > 0;
      assert SetAt(v, entry, props, compare, merge).sent == [op.value];
    }
  }

  /**
   * The inner loop of `setNodes` over the keys of `props`: it fills
   * `properties` and `newProperties` and notes whether any key changed.
   */
  method Diff(node: Node, props: Props, compare: Compare, merge: Option<Merge>)
    returns (properties: Props, newProperties: Props, hasChanges: bool)
    ensures properties == OldValues(node, props, compare, props.Keys)
    ensures newProperties == NewValues(node, props, compare, merge, props.Keys)
    ensures hasChanges <==> Changes(node, props, compare, props.Keys) != {}
  {
    properties, newProperties, hasChanges := map[], map[], false;
    var keys := props.Keys;
    while keys != {}
      invariant keys <= props.Keys
      invariant properties == OldValues(node, props, compare, props.Keys - keys)
      invariant newProperties == NewValues(node, props, compare, merge, props.Keys - keys)
      invariant hasChanges <==> Changes(node, props, compare, props.Keys - keys) != {}
      decreases keys
    {
      var k :| k in keys;
      ghost var ks := props.Keys - keys;
      properties, newProperties, hasChanges := DiffKey(node, props, compare, merge, k, ks, properties, newProperties, hasChanges);
      keys := keys - {k};
      assert props.Keys - keys == ks + {k};
    }
  }

  /** The body of the inner loop for key `k`: the records grow by `k` when it compares as changed. */
  method DiffKey(node: Node, props: Props, compare: Compare, merge: Option<Merge>, k: string, ghost ks: set<string>,
                 properties: Props, newProperties: Props, hasChanges: bool)
    returns (properties': Props, newProperties': Props, hasChanges': bool)
    requires k in props && k !in ks
    requires properties == OldValues(node, props, compare, ks)
    requires newProperties == NewValues(node, props, compare, merge, ks)
    requires hasChanges <==> Changes(node, props, compare, ks) != {}
    ensures properties' == OldValues(node, props, compare, ks + {k})
    ensures newProperties' == NewValues(node, props, compare, merge, ks + {k})
    ensures hasChanges' <==> Changes(node, props, compare, ks + {k}) != {}
  {
    DiffStep(node, props, compare, merge, ks, k);
    properties', newProperties', hasChanges' := properties, newProperties, hasChanges;
    if k != "children" && k != "text" && compare(props[k], Lookup(node.props, k)) {
      assert k in Changes(node, props, compare, ks + {k});
      hasChanges' := true;
      if k in node.props {
        properties' := properties[k := node.props[k]];
      }
      if merge.Some? {
        if !IsNullish(props[k]) {
          newProperties' := newProperties[k := merge.value(Lookup(node.props, k), props[k])];
        }
      } else if !IsNullish(props[k]) {
        newProperties' := newProperties[k := props[k]];
      }
    }
  }

  /** One key more: the records grow by that key exactly when it changed. */
  lemma {:induction false} DiffStep(node: Node, props: Props, compare: Compare, merge: Option<Merge>,
                                    ks: set<string>, k: string)
    requires k in props && k !in ks
    ensures var changed := k != "children" && k != "text" && compare(props[k], Lookup(node.props, k));
      Changes(node, props, compare, ks + {k}) == if changed then Changes(node, props, compare, ks) + {k}
        else Changes(node, props, compare, ks)
    ensures var changed := k != "children" && k != "text" && compare(props[k], Lookup(node.props, k));
      OldValues(node, props, compare, ks + {k}) ==
        if changed && k in node.props then OldValues(node, props, compare, ks)[k := node.props[k]]
        else OldValues(node, props, compare, ks)
    ensures var changed := k != "children" && k != "text" && compare(props[k], Lookup(node.props, k));
      NewValues(node, props, compare, merge, ks + {k}) ==
        if changed && !IsNullish(props[k]) then NewValues(node, props, compare, merge, ks)[k := NewValue(node, props, merge, k)]
        else NewValues(node, props, compare, merge, ks)
  {
    var changed := k != "children" && k != "text" && compare(props[k], Lookup(node.props, k));
    var before := Changes(node, props, compare, ks);
    var after := Changes(node, props, compare, ks + {k});
    assert after == if changed then before + {k} else before;
    OldValuesStep(node, props, compare, ks, k);
    NewValuesStep(node, props, compare, merge, ks, k);
  }

  lemma {:induction false} OldValuesStep(node: Node, props: Props, compare: Compare, ks: set<string>, k: string)
    requires k in props && k !in ks
    ensures var changed := k != "children" && k != "text" && compare(props[k], Lookup(node.props, k));
      OldValues(node, props, compare, ks + {k}) ==
        if changed && k in node.props then OldValues(node, props, compare, ks)[k := node.props[k]]
        else OldValues(node, props, compare, ks)
  {
    var changed := k != "children" && k != "text" && compare(props[k], Lookup(node.props, k));
    var o1 := OldValues(node, props, compare, ks + {k});
    var o0 := OldValues(node, props, compare, ks);
    var o2 := if changed && k in node.props then o0[k := node.props[k]] else o0;
    assert o1.Keys == o2.Keys;
  }

  lemma {:induction false} NewValuesStep(node: Node, props: Props, compare: Compare, merge: Option<Merge>,
                                         ks: set<string>, k: string)
    requires k in props && k !in ks
    ensures var changed := k != "children" && k != "text" && compare(props[k], Lookup(node.props, k));
      NewValues(node, props, compare, merge, ks + {k}) ==
        if changed && !IsNullish(props[k]) then NewValues(node, props, compare, merge, ks)[k := NewValue(node, props, merge, k)]
        else NewValues(node, props, compare, merge, ks)
  {
    var changed := k != "children" && k != "text" && compare(props[k], Lookup(node.props, k));
    var n1 := NewValues(node, props, compare, merge, ks + {k});
    var n0 := NewValues(node, props, compare, merge, ks);
    var n2 := if changed && !IsNullish(props[k]) then n0[k := NewValue(node, props, merge, k)] else n0;
    assert n1.Keys == n2.Keys;
  }

  /**
   * `setNodes` in the editor: it sends what `SetEffect` describes, every
   * live ref follows the operations, and no ref is taken.
   */
  method SetNodes(e: Editor, props: Props, at: Option<Location>, matcher: Option<Entry -> bool>,
                  compare: Option<Compare>, merge: Option<Merge>)
    returns (o: Outcome)
    requires e.Valid()
    modifies e, e.refs
    ensures e.Valid() && old(e.sent) <= e.sent
    ensures Replayed(e.View(), o, e.sent[|old(e.sent)|..]) == SetEffect(old(e.View()), props, at, matcher, compare, merge)
    ensures forall r :: r in old(e.refs) ==>
      r.current == TransformAll(old(r.current), e.sent[|old(e.sent)|..]) && (r in e.refs <==> r.current.Some?)
    ensures e.refs <= old(e.refs)
  {
    if at.None? {
      return Done;
    }
    var targets := Targets(e.root, at.value, matcher);
    if targets.Thrown? {
      return Failed(targets.message);
    }
    var cmp := CompareOr(compare);
    o := SetEach(e, targets.value, props, cmp, merge);
  }

  /** The loop of `setNodes` over the targets, each compared with the snapshot the walk yielded. */
  method SetEach(e: Editor, es: seq<Entry>, props: Props, compare: Compare, merge: Option<Merge>) returns (o: Outcome)
    requires e.Valid()
    modifies e, e.refs
    ensures e.Valid() && old(e.sent) <= e.sent
    ensures Replayed(e.View(), o, e.sent[|old(e.sent)|..]) == SetFrom(old(e.View()), es, 0, props, compare, merge)
    ensures forall r :: r in old(e.refs) ==>
      r.current == TransformAll(old(r.current), e.sent[|old(e.sent)|..]) && (r in e.refs <==> r.current.Some?)
    ensures e.refs <= old(e.refs)
  {
    ghost var was := map r | r in e.refs :: r.current;
    ghost var expected := SetFrom(e.View(), es, 0, props, compare, merge);
    ghost var done: seq<Operation> := [];
    assert e.Tracks(was, done);
    o := Done;
    var i := 0;
    while i < |es| && o.Done?
      invariant i <= |es| && e.Tracks(was, done) && e.sent == old(e.sent) + done
      invariant o.Done? ==> Then(Replayed(e.View(), Done, done), SetFrom(e.View(), es, i, props, compare, merge)) == expected
      invariant o.Failed? ==> Replayed(e.View(), o, done) == expected
    {
      ghost var sent;
      o, sent := SetNext(e, es, i, props, compare, merge, was, done, expected);
      SentAssoc(old(e.sent), done, sent);
      done := done + sent;
      i := i + 1;
    }
    assert e.sent[|old(e.sent)|..] == done;
  }

  /** One turn of the loop: the root is skipped, the keys are compared, and a change is applied. */
  method SetNext(e: Editor, es: seq<Entry>, i: nat, props: Props, compare: Compare, merge: Option<Merge>,
                 ghost was: map<PathRef, Option<Path>>, ghost done: seq<Operation>, ghost expected: Replayed)
    returns (o: Outcome, ghost sent: seq<Operation>)
    requires i < |es| && e.Tracks(was, done)
    requires Then(Replayed(e.View(), Done, done), SetFrom(e.View(), es, i, props, compare, merge)) == expected
    modifies e, e.refs
    ensures e.Tracks(was, done + sent) && e.sent == old(e.sent) + sent
    ensures o.Done? ==> Then(Replayed(e.View(), Done, done + sent), SetFrom(e.View(), es, i + 1, props, compare, merge)) == expected
    ensures o.Failed? ==> Replayed(e.View(), o, done + sent) == expected
  {
    ghost var v := e.View();
    ghost var step := SetAt(v, es[i], props, compare, merge);
    ThenStep(v, done, step, SetFrom(step.view, es, i + 1, props, compare, merge));
    assert done + [] == done;
    var node, path := es[i].node, es[i].path;
    if |path| == 0 {
      return Done, [];
    }
    var properties, newProperties, hasChanges := Diff(node, props, compare, merge);
    if !hasChanges {
      return Done, [];
    }
    var op := SetNode(path, properties, newProperties);
    o := e.ApplyTracked(op, was, done);
    sent := [op];
  }
}
