/**
 * `GeneralTransforms`: the structural edit an operation makes to the tree
 * (`applyToDraft`). The tree is a persistent value: where the source edits
 * a copy-on-write draft in place and then finalises it, the model builds
 * the edited tree. An error raised by the default `onError` policy ends the
 * edit; the draft is finalised all the same, so a move that fails after
 * taking its node out leaves the node out.
 */
module GeneralTransforms {
  import opened Wrappers
  import opened Text
  import opened TreeElements
  import opened TreePaths
  import opened TreeNodes
  import opened TreeOperations
  import opened PathTransform
  import opened OperationInverse
  import opened OnErrors

  // ----- Array.prototype.splice -----

  /**
   * Where `splice(start, …)` starts on an array of `len` entries: a
   * negative start counts from the end, and either is clamped to the array.
   */
  function SpliceStart(len: nat, start: int): (k: nat)
    ensures k <= len
    ensures 0 <= start <= len ==> k == start
  {
    if start < 0 then (if len + start < 0 then 0 else len + start)
    else if start > len then len
    else start
  }

  /** `s.splice(start, 0, x)`: `x` goes in at the start position and the entries from there move one along. */
  function SpliceIn<T>(s: seq<T>, start: int, x: T): (r: seq<T>)
    ensures |r| == |s| + 1
    ensures r[SpliceStart(|s|, start)] == x
    ensures forall j :: 0 <= j < SpliceStart(|s|, start) ==> r[j] == s[j]
    ensures forall j :: SpliceStart(|s|, start) < j < |r| ==> r[j] == s[j - 1]
  {
    var k := SpliceStart(|s|, start);
    s[..k] + [x] + s[k..]
  }

  /**
   * `s.splice(start, 1)`: the entry at the start position goes and the
   * later ones move one back; at the end of the array nothing goes.
   */
  function SpliceOut<T>(s: seq<T>, start: int): (r: seq<T>)
    ensures SpliceStart(|s|, start) == |s| ==> r == s
    ensures SpliceStart(|s|, start) < |s| ==> |r| == |s| - 1
    ensures forall j :: 0 <= j < SpliceStart(|s|, start) && j < |r| ==> r[j] == s[j]
    ensures forall j :: SpliceStart(|s|, start) <= j < |r| && SpliceStart(|s|, start) < |s| ==> r[j] == s[j + 1]
  {
    var k := SpliceStart(|s|, start);
    if k < |s| then s[..k] + s[k + 1..] else s
  }

  /** Taking out what was just put in gives the array back. */
  lemma {:induction false} SpliceOutIn<T>(s: seq<T>, k: int, x: T)
    requires 0 <= k <= |s|
    ensures SpliceOut(SpliceIn(s, k, x), k) == s
  {
    assert SpliceIn(s, k, x)[..k] == s[..k];
    assert SpliceIn(s, k, x)[k + 1..] == s[k..];
    assert s[..k] + s[k..] == s;
  }

  /** Putting back what was just taken out gives the array back. */
  lemma {:induction false} SpliceInOut<T>(s: seq<T>, k: int)
    requires 0 <= k < |s|
    ensures SpliceIn(SpliceOut(s, k), k, s[k]) == s
  {
    assert SpliceOut(s, k)[..k] == s[..k];
    assert SpliceOut(s, k)[k..] == s[k + 1..];
    assert s[..k] + [s[k]] + s[k + 1..] == s;
  }

  // ----- the draft -----

  /** The node with other children and the same kind and properties. */
  function WithChildren(n: Node, children: seq<Node>): (r: Node)
    ensures r.props == n.props && r.children == children && r.Editor? == n.Editor?
  {
    match n
    case Editor(props, _) => Editor(props, children)
    case Element(props, _) => Element(props, children)
  }

  /** The node with other properties and the same kind and children. */
  function WithProps(n: Node, props: Props): (r: Node)
    ensures r.props == props && r.children == n.children && r.Editor? == n.Editor?
  {
    match n
    case Editor(_, children) => Editor(props, children)
    case Element(_, children) => Element(props, children)
  }

  /** The tree with the node at `at` replaced by `n`: a fresh copy of every node from the root down to it. */
  function Replace(root: Node, at: Path, n: Node): (r: Node)
    requires NodeAt(root, at).Some?
    ensures NodeAt(r, at) == Some(n)
    decreases |at|
  {
    if |at| == 0 then n
    else
      var i := at[0];
      var children := root.children[i := Replace(root.children[i], at[1..], n)];
      assert children[i] == Replace(root.children[i], at[1..], n);
      WithChildren(root, children)
  }

  /** Stepping into the first index: how prefixes of `at` and `q` relate once both start with it. */
  lemma {:induction false} PrefixTails(at: Path, q: Path)
    requires |at| > 0 && |q| > 0 && at[0] == q[0]
    ensures IsPrefix(at, q) <==> IsPrefix(at[1..], q[1..])
    ensures IsPrefix(q, at) <==> IsPrefix(q[1..], at[1..])
    ensures IsPrefix(at, q) ==> q[|at|..] == q[1..][|at| - 1..]
    ensures q != at <==> q[1..] != at[1..]
  {
    assert q == [q[0]] + q[1..];
    assert at == [at[0]] + at[1..];
    if |at| <= |q| {
      assert q[..|at|] == [q[0]] + q[1..][..|at| - 1];
    }
    if |q| <= |at| {
      assert at[..|q|] == [at[0]] + at[1..][..|q| - 1];
    }
  }

  /** Paths that start with different indexes are not prefixes of one another. */
  lemma {:induction false} PrefixHeadsDiffer(at: Path, q: Path)
    requires |at| > 0 && |q| > 0 && at[0] != q[0]
    ensures !IsPrefix(at, q) && !IsPrefix(q, at)
  {
    assert |at| <= |q| ==> q[..|at|][0] == q[0];
    assert |q| <= |at| ==> at[..|q|][0] == at[0];
  }

  /** Below the replaced node: the new node's subtree. */
  lemma {:induction false} ReplaceBelow(root: Node, at: Path, n: Node, q: Path)
    requires NodeAt(root, at).Some? && IsPrefix(at, q)
    ensures NodeAt(Replace(root, at, n), q) == NodeAt(n, q[|at|..])
    decreases |at|
  {
    if |at| == 0 {
      assert q[0..] == q;
    } else {
      var i := at[0];
      assert q[0] == i;
      PrefixTails(at, q);
      ReplaceBelow(root.children[i], at[1..], n, q[1..]);
    }
  }

  /** Beside the replaced node: the old tree. */
  lemma {:induction false} ReplaceBeside(root: Node, at: Path, n: Node, q: Path)
    requires NodeAt(root, at).Some? && !IsPrefix(at, q) && !IsPrefix(q, at)
    ensures NodeAt(Replace(root, at, n), q) == NodeAt(root, q)
    decreases |at|
  {
    var i := at[0];
    if q[0] == i {
      PrefixTails(at, q);
      ReplaceBeside(root.children[i], at[1..], n, q[1..]);
    }
  }

  /** Above the replaced node: copies of the old nodes, with their kind and properties. */
  lemma {:induction false} ReplaceAbove(root: Node, at: Path, n: Node, q: Path)
    requires NodeAt(root, at).Some? && IsPrefix(q, at) && q != at
    ensures NodeAt(Replace(root, at, n), q).Some? && NodeAt(root, q).Some?
    ensures NodeAt(Replace(root, at, n), q).value.props == NodeAt(root, q).value.props
    ensures NodeAt(Replace(root, at, n), q).value.Editor? == NodeAt(root, q).value.Editor?
    decreases |at|
  {
    if |q| > 0 {
      var i := at[0];
      assert q[0] == i;
      PrefixTails(at, q);
      ReplaceAbove(root.children[i], at[1..], n, q[1..]);
    }
  }

  /** Replacing a node by itself changes nothing. */
  lemma {:induction false} ReplaceSame(root: Node, at: Path)
    requires NodeAt(root, at).Some?
    ensures Replace(root, at, NodeAt(root, at).value) == root
    decreases |at|
  {
    if |at| > 0 {
      var i := at[0];
      ReplaceSame(root.children[i], at[1..]);
      assert root.children[i := root.children[i]] == root.children;
      match root
      case Editor(_, _) =>
      case Element(_, _) =>
    }
  }

  /** A second replacement at the same path overrides the first. */
  lemma {:induction false} ReplaceTwice(root: Node, at: Path, m: Node, n: Node)
    requires NodeAt(root, at).Some?
    ensures Replace(Replace(root, at, m), at, n) == Replace(root, at, n)
    decreases |at|
  {
    if |at| > 0 {
      var i := at[0];
      var once := Replace(root, at, m);
      assert once.children[i] == Replace(root.children[i], at[1..], m);
      ReplaceTwice(root.children[i], at[1..], m, n);
      assert once.children[i := Replace(once.children[i], at[1..], n)] ==
        root.children[i := Replace(root.children[i], at[1..], n)];
    }
  }

  // ----- setting properties -----

  /**
   * The properties after a `set_node`: a key of `newProperties` is set to
   * its value, or deleted when that value is `null` or `undefined`; a key
   * only `properties` names is deleted; every other key stays.
   */
  function Patched(props: Props, properties: Props, newProperties: Props): (r: Props)
    ensures forall k :: k in r <==>
      (k in newProperties && !IsNullish(newProperties[k])) || (k !in newProperties && k !in properties && k in props)
    ensures forall k :: k in r ==> r[k] == if k in newProperties then newProperties[k] else props[k]
  {
    map k | k in props.Keys + newProperties.Keys &&
      ((k in newProperties && !IsNullish(newProperties[k])) || (k !in newProperties && k !in properties)) ::
      if k in newProperties then newProperties[k] else props[k]
  }

  /** `r` and `s` agree on key `k`: both lack it, or both hold the same value. */
  predicate SameAt(r: Props, s: Props, k: string)
  {
    (k in r <==> k in s) && (k in r ==> r[k] == s[k])
  }

  /** After the first loop has reached key `k` of `newProperties`: deleted for a nullish value, assigned otherwise. */
  predicate AssignedAt(r: Props, newProperties: Props, k: string)
    requires k in newProperties
  {
    (k in r <==> !IsNullish(newProperties[k])) && (k in r ==> r[k] == newProperties[k])
  }

  lemma {:induction false} MapsAgree(r: Props, s: Props)
    requires forall k :: SameAt(r, s, k)
    ensures r == s
  {
    forall k
      ensures k in r.Keys <==> k in s.Keys
    {
      assert SameAt(r, s, k);
    }
    assert r.Keys == s.Keys;
    forall k | k in r
      ensures r[k] == s[k]
    {
      assert SameAt(r, s, k);
    }
  }

  /** The first loop of the `set_node` case: each key of `newProperties` is deleted for a nullish value and assigned otherwise. */
  method AssignProperties(props: Props, newProperties: Props) returns (r: Props)
    ensures forall k :: k in newProperties ==> AssignedAt(r, newProperties, k)
    ensures forall k :: k !in newProperties ==> SameAt(r, props, k)
  {
    r := props;
    var keys := newProperties.Keys;
    while keys != {}
      invariant keys <= newProperties.Keys
      invariant forall k :: k in newProperties && k !in keys ==> AssignedAt(r, newProperties, k)
      invariant forall k :: k !in newProperties || k in keys ==> SameAt(r, props, k)
      decreases |keys|
    {
      var k :| k in keys;
      if IsNullish(newProperties[k]) {
        r := r - {k};
      } else {
        r := r[k := newProperties[k]];
      }
      keys := keys - {k};
    }
  }

  /** The second loop of the `set_node` case: each key of `properties` that `newProperties` lacks is deleted. */
  method DeleteDropped(props: Props, properties: Props, newProperties: Props) returns (r: Props)
    ensures forall k :: k in properties && k !in newProperties ==> k !in r
    ensures forall k :: k !in properties || k in newProperties ==> SameAt(r, props, k)
  {
    r := props;
    var keys := properties.Keys;
    while keys != {}
      invariant keys <= properties.Keys
      invariant forall k :: k in properties && k !in newProperties && k !in keys ==> k !in r
      invariant forall k :: k !in properties || k in newProperties || k in keys ==> SameAt(r, props, k)
      decreases |keys|
    {
      var k :| k in keys;
      if k !in newProperties {
        r := r - {k};
      }
      keys := keys - {k};
    }
  }

  /** Both loops of the `set_node` case, in order, make the patched properties. */
  method SetProperties(props: Props, properties: Props, newProperties: Props) returns (r: Props)
    ensures r == Patched(props, properties, newProperties)
  {
    var written := AssignProperties(props, newProperties);
    r := DeleteDropped(written, properties, newProperties);
    var patched := Patched(props, properties, newProperties);
    forall k
      ensures SameAt(r, patched, k)
    {
      assert SameAt(r, written, k) || k !in r;
      if k in newProperties {
        assert AssignedAt(written, newProperties, k);
      } else {
        assert SameAt(written, props, k);
      }
    }
    MapsAgree(r, patched);
  }

  // ----- applyToDraft -----

  /** The edited tree, and how the edit ended. */
  datatype Applied = Applied(root: Node, outcome: Outcome)

  /** The errors `applyToDraft` reports through `onError`, with the paths their messages name. */
  datatype ApplyError =
    | InsertWithoutParent(path: Path)
    | InsertPastEnd(path: Path)
    | MoveInsideItself(path: Path, newPath: Path)
    | MoveNotFound(path: Path)
    | MoveWithoutParent(path: Path)
    | MoveWithoutNewParent(path: Path)
    | RemoveWithoutParent(path: Path)
    | SetOnRoot
    | SetNotFound(path: Path)
    | SetChildren
    | SetText

  /** The key each error is reported under; both forbidden keys of `set_node` share one. */
  function Key(e: ApplyError): string
  {
    match e
    case InsertWithoutParent(_) => "apply.insert_node.parent"
    case InsertPastEnd(_) => "apply.insert_node.index"
    case MoveInsideItself(_, _) => "apply.move_node.ancestor"
    case MoveNotFound(_) => "apply.move_node.node"
    case MoveWithoutParent(_) => "apply.move_node.parent"
    case MoveWithoutNewParent(_) => "apply.move_node.newParent"
    case RemoveWithoutParent(_) => "apply.remove_node.parent"
    case SetOnRoot => "apply.set_node.root"
    case SetNotFound(_) => "apply.set_node.node"
    case SetChildren => "apply.set_node.children"
    case SetText => "apply.set_node.children"
  }

  /** The message of each error. */
  function Message(e: ApplyError): string
  {
    match e
    case InsertWithoutParent(path) =>
      "Cannot apply an \"insert_node\" operation at path " + Bracketed(path) + " because it has no parent."
    case InsertPastEnd(path) =>
      "Cannot apply an \"insert_node\" operation at path " + Bracketed(path) +
      " because the destination is past the end of the node."
    case MoveInsideItself(path, newPath) =>
      "Cannot move a path " + Bracketed(path) + " to new path " + Bracketed(newPath) +
      " because the destination is inside itself."
    case MoveNotFound(path) =>
      "Cannot apply a \"move_node\" operation at path " + Bracketed(path) + " because it could not be found."
    case MoveWithoutParent(path) =>
      "Cannot apply a \"move_node\" operation at path " + Bracketed(path) + " because it has no parent."
    case MoveWithoutNewParent(path) =>
      "Cannot apply a \"move_node\" operation at path " + Bracketed(path) + " because it has no parent."
    case RemoveWithoutParent(path) =>
      "Cannot apply a \"remove_node\" operation at path " + Bracketed(path) + " because it has no parent."
    case SetOnRoot => "Cannot set properties on the root node!"
    case SetNotFound(path) =>
      "Cannot apply a \"set_node\" operation at path " + Bracketed(path) + " because it could not be found."
    case SetChildren => "Cannot set the \"children\" property of nodes!"
    case SetText => "Cannot set the \"text\" property of nodes!"
  }

  /** An error of the apply step, as the default `onError` policy answers it. */
  function Fail(e: ApplyError): Outcome
  {
    OnError(ErrorContext(Key(e), Message(e)))
  }

  /** The tree with `node` spliced in among the children of the node at `parentPath`, at `index`. */
  function Attached(root: Node, parentPath: Path, index: int, node: Node): (r: Node)
    requires NodeAt(root, parentPath).Some?
    ensures NodeAt(r, parentPath).Some?
    ensures |NodeAt(r, parentPath).value.children| == |NodeAt(root, parentPath).value.children| + 1
  {
    var parent := NodeAt(root, parentPath).value;
    Replace(root, parentPath, WithChildren(parent, SpliceIn(parent.children, index, node)))
  }

  /** The tree with the child at the last index of `path` spliced out of its parent. */
  function Detached(root: Node, path: Path): (r: Node)
    requires ParentNode(root, path).Some?
    ensures NodeAt(r, path[..|path| - 1]).Some?
  {
    var parent := ParentNode(root, path).value;
    Replace(root, path[..|path| - 1], WithChildren(parent, SpliceOut(parent.children, path[|path| - 1])))
  }

  /**
   * `insert_node`: the node goes in among the children of the parent at
   * the last index of `path`. A path without a parent node, or an index
   * past the end of the parent's children, is an error.
   */
  function ApplyInsert(root: Node, node: Node, path: Path): (r: Applied)
    ensures r.outcome.Done? <==> (|path| > 0 && NodeAt(root, path[..|path| - 1]).Some? &&
      path[|path| - 1] <= |NodeAt(root, path[..|path| - 1]).value.children|)
    ensures r.outcome.Failed? ==> r.root == root
  {
    match ParentNode(root, path)
    case None =>
      Applied(root, Fail(InsertWithoutParent(path)))
    case Some(parent) =>
      var index := path[|path| - 1];
      if index > |parent.children| then
        Applied(root, Fail(InsertPastEnd(path)))
      else
        Applied(Attached(root, path[..|path| - 1], index, node), Done)
  }

  /**
   * `move_node`: a move into its own subtree, a missing node and the root
   * path are errors that change nothing. Otherwise the node comes out of
   * its parent and goes in where `transform` sends its own path; when that
   * place has no parent path, or no node at its parent path, the edit ends
   * with the node taken out.
   */
  function ApplyMove(root: Node, path: Path, newPath: Path): (r: Applied)
    ensures r.outcome.Failed? && (IsAncestor(path, newPath) || NodeAt(root, path).None? || |path| == 0) ==>
      r.root == root
    ensures r.outcome.Done? ==> !IsAncestor(path, newPath) && NodeAt(root, path).Some? && |path| > 0
  {
    var op := MoveNode(path, newPath);
    if IsAncestor(path, newPath) then
      Applied(root, Fail(MoveInsideItself(path, newPath)))
    else match NodeAt(root, path)
      case None =>
        Applied(root, Fail(MoveNotFound(path)))
      case Some(node) =>
        match ParentNode(root, path)
        case None =>
          Applied(root, Fail(MoveWithoutParent(path)))
        case Some(parent) =>
          var removed := Detached(root, path);
          TransformNoneIff(path, op);
          var truePath := Transform(path, op).value;
          match Parent(truePath)
          case None =>
            Applied(removed, Fail(MoveWithoutNewParent(path)))
          case Some(newParentPath) =>
            match NodeAt(removed, newParentPath)
            case None => Applied(removed, Failed(ReadOfMissing("undefined", "children")))
            case Some(_) => Applied(Attached(removed, newParentPath, truePath[|truePath| - 1], node), Done)
  }

  /** `remove_node`: the child at the last index of `path` goes from its parent; a path without a parent node is an error. */
  function ApplyRemove(root: Node, path: Path): (r: Applied)
    ensures r.outcome.Done? <==> |path| > 0 && NodeAt(root, path[..|path| - 1]).Some?
    ensures r.outcome.Failed? ==> r.root == root
  {
    match ParentNode(root, path)
    case None =>
      Applied(root, Fail(RemoveWithoutParent(path)))
    case Some(_) => Applied(Detached(root, path), Done)
  }

  /**
   * `set_node`: the root path, a missing node, and a `children` or `text`
   * key in `newProperties` are errors; otherwise the node's properties are
   * patched.
   */
  function ApplySet(root: Node, path: Path, properties: Props, newProperties: Props): (r: Applied)
    ensures r.outcome.Done? <==> (|path| > 0 && NodeAt(root, path).Some? &&
      "children" !in newProperties && "text" !in newProperties)
    ensures r.outcome.Failed? ==> r.root == root
  {
    if |path| == 0 then
      Applied(root, Fail(SetOnRoot))
    else match NodeAt(root, path)
      case None =>
        Applied(root, Fail(SetNotFound(path)))
      case Some(node) =>
        if "children" in newProperties then
          Applied(root, Fail(SetChildren))
        else if "text" in newProperties then
          Applied(root, Fail(SetText))
        else
          Applied(Replace(root, path, WithProps(node, Patched(node.props, properties, newProperties))), Done)
  }

  /** `applyToDraft`: the edit of each kind of operation. */
  function ApplyToDraft(root: Node, op: Operation): (r: Applied)
    ensures r.outcome.Failed? && !op.MoveNode? ==> r.root == root
  {
    match op
    case InsertNode(node, path) => ApplyInsert(root, node, path)
    case MoveNode(path, newPath) => ApplyMove(root, path, newPath)
    case RemoveNode(_, path) => ApplyRemove(root, path)
    case SetNode(path, properties, newProperties) => ApplySet(root, path, properties, newProperties)
  }

  /**
   * `GeneralTransforms.transform`: the edit of `applyToDraft` on a draft of
   * the tree, finalised whether or not the edit ended in an error. The
   * `set_node` case runs its two loops over the keys.
   */
  method ApplyOperation(root: Node, op: Operation) returns (a: Applied)
    ensures a == ApplyToDraft(root, op)
  {
    if op.SetNode? && |op.path| > 0 && NodeAt(root, op.path).Some? &&
      "children" !in op.newProperties && "text" !in op.newProperties
    {
      var node := NodeAt(root, op.path).value;
      var props := SetProperties(node.props, op.properties, op.newProperties);
      a := Applied(Replace(root, op.path, WithProps(node, props)), Done);
    } else {
      a := ApplyToDraft(root, op);
    }
  }

  // ----- what an applied operation does to the tree -----

  /** Swapping children back in gives the node back. */
  lemma {:induction false} WithChildrenBack(n: Node, children: seq<Node>)
    ensures WithChildren(WithChildren(n, children), n.children) == n
  {
    match n
    case Editor(_, _) =>
    case Element(_, _) =>
  }

  /** Swapping properties back in gives the node back. */
  lemma {:induction false} WithPropsBack(n: Node, props: Props)
    ensures WithProps(WithProps(n, props), n.props) == n
  {
    match n
    case Editor(_, _) =>
    case Element(_, _) =>
  }

  /** The node at a path below `p`: the node at the rest of the path under the node at `p`. */
  lemma {:induction false} NodeAtBelow(root: Node, p: Path, q: Path)
    requires IsPrefix(p, q)
    ensures NodeAt(root, q) == if NodeAt(root, p).None? then None else NodeAt(NodeAt(root, p).value, q[|p|..])
  {
    assert q == p + q[|p|..];
    NodeAtConcat(root, p, q[|p|..]);
  }

  /** Where the index at one slot under `p` differs between two paths sharing `p` and a tail. */
  lemma {:induction false} SameTail(p: Path, q: Path, x: Path)
    requires IsPrefix(p, q) && |q| > |p| && |x| == |q|
    requires x[..|p|] == p && x[|p| + 1..] == q[|p| + 1..]
    ensures IsPrefix(p, x) && x[|p|..] == [x[|p|]] + q[|p| + 1..]
  {
  }

  /** The child at the last index of `path`: the node at `path`, when there is one. */
  lemma {:induction false} LastStep(root: Node, path: Path)
    requires |path| > 0 && NodeAt(root, path[..|path| - 1]).Some?
    ensures path == path[..|path| - 1] + [path[|path| - 1]]
    ensures NodeAt(root, path) == Child(NodeAt(root, path[..|path| - 1]).value, path[|path| - 1])
  {
    var pp := path[..|path| - 1];
    assert path == pp + [path[|path| - 1]];
    NodeAtBelow(root, pp, path);
    assert path[|pp|..] == [path[|path| - 1]];
  }

  /** A node spliced in at an index within the children is at that index. */
  lemma {:induction false} AttachedAt(root: Node, path: Path, node: Node)
    requires |path| > 0 && NodeAt(root, path[..|path| - 1]).Some?
    requires 0 <= path[|path| - 1] <= |NodeAt(root, path[..|path| - 1]).value.children|
    ensures NodeAt(Attached(root, path[..|path| - 1], path[|path| - 1], node), path) == Some(node)
  {
    var pp, i := path[..|path| - 1], path[|path| - 1];
    var parent := NodeAt(root, pp).value;
    var np := WithChildren(parent, SpliceIn(parent.children, i, node));
    ReplaceBelow(root, pp, np, path);
    assert path[|pp|..] == [i];
  }

  /** Splicing in at `pp + [i]` moves every node but the ancestors of the new one to where `InsertShift` sends it. */
  lemma {:induction false} AttachedKeeps(root: Node, pp: Path, i: int, node: Node, q: Path)
    requires NodeAt(root, pp).Some? && 0 <= i <= |NodeAt(root, pp).value.children|
    requires NodeAt(root, q).Some? && !IsPrefix(q, pp)
    ensures NodeAt(Attached(root, pp, i, node), InsertShift(q, pp + [i])) == NodeAt(root, q)
  {
    var path := pp + [i];
    assert path[..|pp|] == pp && path[|pp|] == i;
    var parent := NodeAt(root, pp).value;
    var np := WithChildren(parent, SpliceIn(parent.children, i, node));
    var x := InsertShift(q, path);
    if IsPrefix(pp, q) {
      var j := q[|pp|];
      NodeAtBelow(root, pp, q);
      assert q[|pp|..] == [j] + q[|pp| + 1..];
      assert x[..|pp|] == pp && x[|pp| + 1..] == q[|pp| + 1..];
      assert x[|pp|..] == [x[|pp|]] + q[|pp| + 1..];
      ReplaceBelow(root, pp, np, x);
      assert x[|pp|] == if j >= i then j + 1 else j;
    } else {
      assert x == q;
      ReplaceBeside(root, pp, np, q);
    }
  }

  /** Splicing out the node at `path` moves every node but its ancestors and its own subtree to where `RemoveShift` sends it. */
  lemma {:induction false} DetachedKeeps(root: Node, path: Path, q: Path)
    requires |path| > 0 && NodeAt(root, path).Some?
    requires NodeAt(root, q).Some? && !IsPrefix(q, path[..|path| - 1]) && !IsPrefix(path, q)
    ensures ParentNode(root, path).Some?
    ensures NodeAt(Detached(root, path), RemoveShift(q, path)) == NodeAt(root, q)
  {
    var pp := path[..|path| - 1];
    NodeAtPrefix(root, path, |path| - 1);
    LastStep(root, path);
    var parent := NodeAt(root, pp).value;
    var i := path[|path| - 1];
    var np := WithChildren(parent, SpliceOut(parent.children, i));
    var x := RemoveShift(q, path);
    if IsPrefix(pp, q) {
      var j := q[|pp|];
      NodeAtBelow(root, pp, q);
      assert q[|pp|..] == [j] + q[|pp| + 1..];
      assert x[..|pp|] == pp && x[|pp| + 1..] == q[|pp| + 1..];
      assert x[|pp|..] == [x[|pp|]] + q[|pp| + 1..];
      ReplaceBelow(root, pp, np, x);
      assert j != i by {
        OperationInverse.SlotPrefix(path, q);
      }
      assert x[|pp|] == if j > i then j - 1 else j;
    } else {
      assert x == q;
      ReplaceBeside(root, pp, np, q);
    }
  }

  /** Splicing a node in and then out again at the same place gives the tree back. */
  lemma {:induction false} DetachAttached(root: Node, pp: Path, i: int, node: Node)
    requires NodeAt(root, pp).Some? && 0 <= i <= |NodeAt(root, pp).value.children|
    ensures ParentNode(Attached(root, pp, i, node), pp + [i]).Some?
    ensures Detached(Attached(root, pp, i, node), pp + [i]) == root
  {
    var path := pp + [i];
    assert path[..|path| - 1] == pp && path[|path| - 1] == i;
    var parent := NodeAt(root, pp).value;
    var np := WithChildren(parent, SpliceIn(parent.children, i, node));
    SpliceOutIn(parent.children, i, node);
    ReplaceTwice(root, pp, np, WithChildren(np, parent.children));
    WithChildrenBack(parent, SpliceIn(parent.children, i, node));
    ReplaceSame(root, pp);
  }

  /** Splicing the node at `path` out and then back in at the same place gives the tree back. */
  lemma {:induction false} AttachDetached(root: Node, path: Path)
    requires |path| > 0 && NodeAt(root, path).Some?
    ensures ParentNode(root, path).Some?
    ensures NodeAt(Detached(root, path), path[..|path| - 1]).value.children ==
      SpliceOut(NodeAt(root, path[..|path| - 1]).value.children, path[|path| - 1])
    ensures Attached(Detached(root, path), path[..|path| - 1], path[|path| - 1], NodeAt(root, path).value) == root
  {
    var pp := path[..|path| - 1];
    NodeAtPrefix(root, path, |path| - 1);
    LastStep(root, path);
    var parent := NodeAt(root, pp).value;
    var i := path[|path| - 1];
    var np := WithChildren(parent, SpliceOut(parent.children, i));
    SpliceInOut(parent.children, i);
    ReplaceTwice(root, pp, np, WithChildren(np, parent.children));
    WithChildrenBack(parent, SpliceOut(parent.children, i));
    ReplaceSame(root, pp);
  }

  /** A successful `insert_node` splices the node in. */
  lemma {:induction false} InsertIsAttach(root: Node, node: Node, path: Path)
    requires ApplyInsert(root, node, path).outcome.Done?
    ensures path == path[..|path| - 1] + [path[|path| - 1]]
    ensures NodeAt(root, path[..|path| - 1]).Some?
    ensures ApplyInsert(root, node, path).root == Attached(root, path[..|path| - 1], path[|path| - 1], node)
  {
    assert path == path[..|path| - 1] + [path[|path| - 1]];
  }

  /** After a successful `insert_node` at a non-negative index, the inserted node is at `path`. */
  lemma {:induction false} InsertPlaces(root: Node, node: Node, path: Path)
    requires ApplyInsert(root, node, path).outcome.Done? && path[|path| - 1] >= 0
    ensures NodeAt(ApplyInsert(root, node, path).root, path) == Some(node)
  {
    InsertIsAttach(root, node, path);
    AttachedAt(root, path, node);
  }

  /**
   * After a successful `insert_node` at a non-negative index, every node
   * that is not an ancestor of the new one is where `transform` sends its
   * path.
   */
  lemma {:induction false} InsertKeeps(root: Node, node: Node, path: Path, q: Path)
    requires ApplyInsert(root, node, path).outcome.Done? && path[|path| - 1] >= 0
    requires NodeAt(root, q).Some? && !IsPrefix(q, path[..|path| - 1])
    ensures Transform(q, InsertNode(node, path)).Some?
    ensures NodeAt(ApplyInsert(root, node, path).root, Transform(q, InsertNode(node, path)).value) == NodeAt(root, q)
  {
    assert |q| > 0;
    TransformInsert(q, node, path);
    InsertIsAttach(root, node, path);
    AttachedKeeps(root, path[..|path| - 1], path[|path| - 1], node, q);
  }

  /** After a successful `insert_node`, the ancestors of the new node keep their kind and properties. */
  lemma {:induction false} InsertKeepsAncestors(root: Node, node: Node, path: Path, q: Path)
    requires ApplyInsert(root, node, path).outcome.Done? && IsPrefix(q, path[..|path| - 1])
    ensures NodeAt(ApplyInsert(root, node, path).root, q).Some? && NodeAt(root, q).Some?
    ensures NodeAt(ApplyInsert(root, node, path).root, q).value.props == NodeAt(root, q).value.props
    ensures NodeAt(ApplyInsert(root, node, path).root, q).value.Editor? == NodeAt(root, q).value.Editor?
  {
    var pp := path[..|path| - 1];
    InsertIsAttach(root, node, path);
    var parent := NodeAt(root, pp).value;
    var np := WithChildren(parent, SpliceIn(parent.children, path[|path| - 1], node));
    NodeAtPrefix(root, pp, |q|);
    assert pp[..|q|] == q;
    if q != pp {
      ReplaceAbove(root, pp, np, q);
    }
  }

  /**
   * After a `remove_node` of a node that is there, every node that is
   * neither an ancestor of it nor inside it is where `transform` sends its
   * path; `transform` loses exactly the paths inside it.
   */
  lemma {:induction false} RemoveKeeps(root: Node, node: Node, path: Path, q: Path)
    requires |path| > 0 && NodeAt(root, path).Some?
    requires NodeAt(root, q).Some? && !IsPrefix(q, path[..|path| - 1])
    ensures ApplyRemove(root, path).outcome.Done?
    ensures Transform(q, RemoveNode(node, path)).None? <==> IsPrefix(path, q)
    ensures Transform(q, RemoveNode(node, path)).Some? ==>
      NodeAt(ApplyRemove(root, path).root, Transform(q, RemoveNode(node, path)).value) == NodeAt(root, q)
  {
    assert |q| > 0;
    NodeAtPrefix(root, path, |path| - 1);
    TransformRemove(q, node, path);
    if !IsPrefix(path, q) {
      DetachedKeeps(root, path, q);
    }
  }

  /** Removing what was just inserted gives the tree back. */
  lemma {:induction false} InsertThenRemove(root: Node, node: Node, path: Path)
    requires ApplyInsert(root, node, path).outcome.Done? && path[|path| - 1] >= 0
    ensures ApplyToDraft(ApplyInsert(root, node, path).root, Inverse(InsertNode(node, path))) == Applied(root, Done)
  {
    InsertIsAttach(root, node, path);
    DetachAttached(root, path[..|path| - 1], path[|path| - 1], node);
  }

  /** Inserting back what was just removed, at its old path, gives the tree back. */
  lemma {:induction false} RemoveThenInsert(root: Node, path: Path)
    requires |path| > 0 && NodeAt(root, path).Some?
    ensures ApplyRemove(root, path).outcome.Done?
    ensures ApplyToDraft(ApplyRemove(root, path).root, Inverse(RemoveNode(NodeAt(root, path).value, path))) ==
      Applied(root, Done)
  {
    AttachDetached(root, path);
    LastStep(root, path);
    var removed := Detached(root, path);
    assert ParentNode(removed, path) == NodeAt(removed, path[..|path| - 1]);
  }

  /**
   * `properties` records what `newProperties` overwrites: each key it names
   * holds that non-nullish value now, and it names every key of
   * `newProperties` that the properties hold.
   */
  predicate Recorded(props: Props, properties: Props, newProperties: Props)
  {
    (forall k :: k in properties ==> k in props && props[k] == properties[k] && !IsNullish(properties[k])) &&
    (forall k :: k in newProperties && k in props ==> k in properties)
  }

  /** Patching with the recorded old properties undoes a patch. */
  lemma {:induction false} PatchedBack(props: Props, properties: Props, newProperties: Props)
    requires Recorded(props, properties, newProperties)
    ensures Patched(Patched(props, properties, newProperties), newProperties, properties) == props
  {
    var back := Patched(Patched(props, properties, newProperties), newProperties, properties);
    forall k
      ensures SameAt(back, props, k)
    {
    }
    MapsAgree(back, props);
  }

  /** A successful `set_node` replaces the node by its patched copy. */
  lemma {:induction false} SetIsReplace(root: Node, path: Path, properties: Props, newProperties: Props)
    requires ApplySet(root, path, properties, newProperties).outcome.Done?
    ensures ApplySet(root, path, properties, newProperties).root ==
      Replace(root, path, WithProps(NodeAt(root, path).value, Patched(NodeAt(root, path).value.props, properties, newProperties)))
  {
  }

  /** After a successful `set_node`, the node at `path` holds the patched properties and every other node is as it was. */
  lemma {:induction false} SetPatches(root: Node, path: Path, properties: Props, newProperties: Props, q: Path)
    requires ApplySet(root, path, properties, newProperties).outcome.Done?
    ensures NodeAt(ApplySet(root, path, properties, newProperties).root, path) ==
      Some(WithProps(NodeAt(root, path).value, Patched(NodeAt(root, path).value.props, properties, newProperties)))
    ensures !IsPrefix(q, path) ==> NodeAt(ApplySet(root, path, properties, newProperties).root, q) == NodeAt(root, q)
  {
    SetIsReplace(root, path, properties, newProperties);
    var node := NodeAt(root, path).value;
    var np := WithProps(node, Patched(node.props, properties, newProperties));
    if !IsPrefix(q, path) {
      if IsPrefix(path, q) {
        NodeAtBelow(root, path, q);
        ReplaceBelow(root, path, np, q);
        var rest := q[|path|..];
        assert |rest| > 0 && np.children == node.children;
        assert NodeAt(np, rest) == NodeAt(node, rest);
      } else {
        ReplaceBeside(root, path, np, q);
      }
    }
  }

  /** Setting back the recorded old properties gives the tree back. */
  lemma {:induction false} SetThenUnset(root: Node, path: Path, properties: Props, newProperties: Props)
    requires ApplySet(root, path, properties, newProperties).outcome.Done?
    requires "children" !in properties && "text" !in properties
    requires Recorded(NodeAt(root, path).value.props, properties, newProperties)
    ensures ApplyToDraft(ApplySet(root, path, properties, newProperties).root,
      Inverse(SetNode(path, properties, newProperties))) == Applied(root, Done)
  {
    SetIsReplace(root, path, properties, newProperties);
    var node := NodeAt(root, path).value;
    var np := WithProps(node, Patched(node.props, properties, newProperties));
    PatchedBack(node.props, properties, newProperties);
    ReplaceTwice(root, path, np, WithProps(np, node.props));
    WithPropsBack(node, Patched(node.props, properties, newProperties));
    ReplaceSame(root, path);
  }

  /** A move of a node onto its own path takes it out and puts it back: the tree is unchanged. */
  lemma {:induction false} MoveInPlace(root: Node, path: Path)
    requires |path| > 0 && NodeAt(root, path).Some?
    ensures ApplyMove(root, path, path) == Applied(root, Done)
  {
    AttachDetached(root, path);
    TransformMoveInPlace(path, path);
    assert Parent(path) == Some(path[..|path| - 1]);
  }

  /**
   * When the place a move sends its node to is a slot under an existing
   * node of the tree without it, `move_node` succeeds: the node is taken out
   * and spliced in at that place.
   */
  lemma {:induction false} MoveIsDetachAttach(root: Node, path: Path, newPath: Path)
    requires ValidMove(path, newPath) && path != newPath
    requires NodeAt(root, path).Some? && ParentNode(root, path).Some?
    requires NodeAt(Detached(root, path), MoveTarget(path, newPath)[..|newPath| - 1]).Some?
    ensures |MoveTarget(path, newPath)| == |newPath|
    ensures ApplyMove(root, path, newPath) == Applied(Attached(Detached(root, path),
      MoveTarget(path, newPath)[..|newPath| - 1], MoveTarget(path, newPath)[|newPath| - 1], NodeAt(root, path).value), Done)
  {
    TransformMovedSubtree(path, path, newPath);
    var t := MoveTarget(path, newPath);
    assert path[|path|..] == [] && t + [] == t;
    assert Parent(t) == Some(t[..|t| - 1]);
  }

  /**
   * After a move as above, to an index within the new parent's children,
   * the moved node and its subtree are where `transform` sends them, and so
   * is every node that is neither an ancestor of the old place nor of the
   * new one.
   */
  lemma {:induction false} MoveKeeps(root: Node, path: Path, newPath: Path, q: Path)
    requires ValidMove(path, newPath) && path != newPath
    requires NodeAt(root, path).Some? && ParentNode(root, path).Some?
    requires NodeAt(Detached(root, path), MoveTarget(path, newPath)[..|newPath| - 1]).Some?
    requires 0 <= MoveTarget(path, newPath)[|newPath| - 1] <=
      |NodeAt(Detached(root, path), MoveTarget(path, newPath)[..|newPath| - 1]).value.children|
    requires NodeAt(root, q).Some? && !IsPrefix(q, path[..|path| - 1])
    requires !IsPrefix(path, q) ==> !IsPrefix(RemoveShift(q, path), MoveTarget(path, newPath)[..|newPath| - 1])
    ensures ApplyMove(root, path, newPath).outcome.Done?
    ensures NodeAt(ApplyMove(root, path, newPath).root, MoveTarget(path, newPath)) == NodeAt(root, path)
    ensures Transform(q, MoveNode(path, newPath)).Some?
    ensures NodeAt(ApplyMove(root, path, newPath).root, Transform(q, MoveNode(path, newPath)).value) == NodeAt(root, q)
  {
    MoveIsDetachAttach(root, path, newPath);
    var t := MoveTarget(path, newPath);
    var npp, tl := t[..|t| - 1], t[|t| - 1];
    var removed := Detached(root, path);
    var node := NodeAt(root, path).value;
    var moved := Attached(removed, npp, tl, node);
    AttachedAt(removed, t, node);
    assert |q| > 0;
    if IsPrefix(path, q) {
      MovedSubtreeKeeps(root, path, newPath, q);
    } else {
      MovedElsewhereKeeps(root, path, newPath, q);
    }
  }

  /** A node outside the moved subtree and off the old parent's line is found where `transform` sends its path. */
  lemma {:induction false} MovedElsewhereKeeps(root: Node, path: Path, newPath: Path, q: Path)
    requires ValidMove(path, newPath) && path != newPath && |q| > 0 && !IsPrefix(path, q)
    requires NodeAt(root, path).Some? && ParentNode(root, path).Some?
    requires |MoveTarget(path, newPath)| == |newPath|
    requires NodeAt(Detached(root, path), MoveTarget(path, newPath)[..|newPath| - 1]).Some?
    requires 0 <= MoveTarget(path, newPath)[|newPath| - 1] <=
      |NodeAt(Detached(root, path), MoveTarget(path, newPath)[..|newPath| - 1]).value.children|
    requires NodeAt(root, q).Some? && !IsPrefix(q, path[..|path| - 1])
    requires !IsPrefix(RemoveShift(q, path), MoveTarget(path, newPath)[..|newPath| - 1])
    ensures Transform(q, MoveNode(path, newPath)) == Some(InsertShift(RemoveShift(q, path), MoveTarget(path, newPath)))
    ensures NodeAt(Attached(Detached(root, path), MoveTarget(path, newPath)[..|newPath| - 1],
      MoveTarget(path, newPath)[|newPath| - 1], NodeAt(root, path).value),
      InsertShift(RemoveShift(q, path), MoveTarget(path, newPath))) == NodeAt(root, q)
  {
    var t := MoveTarget(path, newPath);
    var npp, tl := t[..|t| - 1], t[|t| - 1];
    TransformMoveElsewhere(q, path, newPath);
    DetachedKeeps(root, path, q);
    LastSplit(t);
    AttachedKeeps(Detached(root, path), npp, tl, NodeAt(root, path).value, RemoveShift(q, path));
  }

  /** A node of the moved subtree is found under the node's new place. */
  lemma {:induction false} MovedSubtreeKeeps(root: Node, path: Path, newPath: Path, q: Path)
    requires ValidMove(path, newPath) && path != newPath && |q| > 0 && IsPrefix(path, q)
    requires NodeAt(root, path).Some? && ParentNode(root, path).Some?
    requires |MoveTarget(path, newPath)| == |newPath|
    requires NodeAt(Detached(root, path), MoveTarget(path, newPath)[..|newPath| - 1]).Some?
    requires NodeAt(Attached(Detached(root, path), MoveTarget(path, newPath)[..|newPath| - 1],
      MoveTarget(path, newPath)[|newPath| - 1], NodeAt(root, path).value), MoveTarget(path, newPath)) == NodeAt(root, path)
    ensures Transform(q, MoveNode(path, newPath)) == Some(MoveTarget(path, newPath) + q[|path|..])
    ensures NodeAt(Attached(Detached(root, path), MoveTarget(path, newPath)[..|newPath| - 1],
      MoveTarget(path, newPath)[|newPath| - 1], NodeAt(root, path).value), MoveTarget(path, newPath) + q[|path|..]) ==
      NodeAt(root, q)
  {
    var t := MoveTarget(path, newPath);
    var moved := Attached(Detached(root, path), t[..|t| - 1], t[|t| - 1], NodeAt(root, path).value);
    TransformMovedSubtree(q, path, newPath);
    var rest := q[|path|..];
    NodeAtBelow(root, path, q);
    assert IsPrefix(t, t + rest) && (t + rest)[|t|..] == rest;
    NodeAtBelow(moved, t, t + rest);
  }
}
