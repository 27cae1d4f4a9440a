/**
 * `unsetNodes`: the keys to remove become a properties object mapping each
 * of them to `null`, and `setNodes` does the rest with the same options.
 */
module UnsetNodesTransform {
  import opened Wrappers
  import opened TreeElements
  import opened TreePaths
  import opened TreeNodes
  import opened PathTransform
  import opened EditorQueries
  import opened GeneralTransforms
  import opened Editors
  import opened SetNodesTransform

  /** The keys argument: one key or a list of them. */
  datatype KeyOrKeys = OneKey(key: string) | KeyList(keys: seq<string>)

  /** `Array.isArray(props) ? props : [props]`. */
  function CastKeys(x: KeyOrKeys): seq<string>
  {
    match x
    case OneKey(k) => [k]
    case KeyList(ks) => ks
  }

  /** The object `setNodes` receives: each key mapped to `null`. */
  function NullProps(keys: seq<string>): (obj: Props)
    ensures forall k :: k in obj <==> k in keys
    ensures forall k :: k in obj ==> obj[k] == Null
  {
    map k | k in keys :: Null
  }

  /** `unsetNodes(editor, props, options)`. */
  function UnsetEffect(v: EditorView, props: KeyOrKeys, at: Option<Location>, matcher: Option<Entry -> bool>,
                       compare: Option<Compare>, merge: Option<Merge>): Replayed
  {
    SetEffect(v, NullProps(CastKeys(props)), at, matcher, compare, merge)
  }

  /**
   * With the default `compare`, the `set_node` for a node records in
   * `properties` exactly the keys to unset that the node owns with a value
   * other than `null`, with those values; `newProperties` is empty; so after
   * the `apply`, such a key is gone, a key the node held as `null` stays
   * `null`, and every other key is as it was.
   */
  lemma {:induction false} UnsetDeletes(node: Node, keys: seq<string>, merge: Option<Merge>)
    ensures var obj := NullProps(keys); var cmp := CompareOr(None);
      var properties := OldValues(node, obj, cmp, obj.Keys);
      (forall k :: k in properties <==>
        k in keys && k != "children" && k != "text" && k in node.props && node.props[k] != Null) &&
      (forall k :: k in properties ==> properties[k] == node.props[k])
    ensures var obj := NullProps(keys);
      NewValues(node, obj, CompareOr(None), merge, obj.Keys) == map[]
    ensures var obj := NullProps(keys); var cmp := CompareOr(None);
      var r := Patched(node.props, OldValues(node, obj, cmp, obj.Keys), NewValues(node, obj, cmp, merge, obj.Keys));
      forall k :: k in keys && k != "children" && k != "text" ==> (k in r <==> k in node.props && node.props[k] == Null)
    ensures var obj := NullProps(keys); var cmp := CompareOr(None);
      var r := Patched(node.props, OldValues(node, obj, cmp, obj.Keys), NewValues(node, obj, cmp, merge, obj.Keys));
      forall k :: (k !in keys || k == "children" || k == "text") ==>
        (k in r <==> k in node.props) && (k in r ==> r[k] == node.props[k])
  {
    var obj := NullProps(keys);
    var cmp := CompareOr(None);
    var ch := Changes(node, obj, cmp, obj.Keys);
    SetResult(node, obj, cmp, merge);
    var new_ := NewValues(node, obj, cmp, merge, obj.Keys);
    assert new_.Keys == {};
    forall k | k in keys && k != "children" && k != "text"
      ensures k in ch <==> !(k in node.props && node.props[k] == Null)
    {
      assert obj[k] == Null;
    }
  }

  /** `for (const key of propsArray) obj[key] = null`. */
  method BuildNullProps(keys: seq<string>) returns (obj: Props)
    ensures obj == NullProps(keys)
  {
    obj := map[];
    var i := 0;
    while i < |keys|
      invariant i <= |keys|
      invariant obj == NullProps(keys[..i])
    {
      assert keys[..i + 1] == keys[..i] + [keys[i]];
      obj := obj[keys[i] := Null];
      i := i + 1;
    }
    assert keys[..i] == keys;
  }

  /** `unsetNodes` in the editor: it sends what `UnsetEffect` describes, and every live ref follows. */
  method UnsetNodes(e: Editor, props: KeyOrKeys, at: Option<Location>, matcher: Option<Entry -> bool>,
                    compare: Option<Compare>, merge: Option<Merge>)
    returns (o: Outcome)
    requires e.Valid()
    modifies e, e.refs
    ensures e.Valid() && old(e.sent) <= e.sent
    ensures Replayed(e.View(), o, e.sent[|old(e.sent)|..]) == UnsetEffect(old(e.View()), props, at, matcher, compare, merge)
    ensures forall r :: r in old(e.refs) ==>
      r.current == TransformAll(old(r.current), e.sent[|old(e.sent)|..]) && (r in e.refs <==> r.current.Some?)
    ensures e.refs <= old(e.refs)
  {
    var obj := BuildNullProps(CastKeys(props));
    o := SetNodes(e, obj, at, matcher, compare, merge);
  }
}
