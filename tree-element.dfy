/**
 * Tree values: the editor root and its elements, each a bag of properties
 * plus an ordered list of child elements.
 */
module TreeElements {
  import opened Wrappers

  /**
   * A property value as the editor compares it, with `===`: primitives by
   * value, objects and arrays by identity (`Ref` carries an identity number).
   */
  datatype Value = Undefined | Null | Bool(b: bool) | Num(n: int) | Str(s: string) | Ref(id: nat)

  /** The own enumerable properties of an object, by key. */
  type Props = map<string, Value>

  /**
   * A node of the tree. `props` holds every property except `children`
   * (for an element, `id`, `type` and `data` live in `props`).
   */
  datatype Node =
    | Editor(props: Props, children: seq<Node>)
    | Element(props: Props, children: seq<Node>)

  /** `node[key]` for a key other than `children`: undefined when absent. */
  function Lookup(props: Props, key: string): Value
  {
    if key in props then props[key] else Undefined
  }

  /** `value == null`: true of both `null` and `undefined`. */
  predicate IsNullish(v: Value)
  {
    v == Null || v == Undefined
  }

  /** `isElement`: a plain object with a node list of children that is not the editor. */
  predicate IsElement(n: Node)
  {
    n.Element?
  }

  /**
   * `isElementProps`: a partial element is one whose `children` property is
   * not `undefined`.
   */
  predicate IsElementProps(props: Props)
  {
    Lookup(props, "children") != Undefined
  }

  /**
   * `isElementType(value, elementVal, elementKey)`: an element whose property
   * `elementKey` is the string `elementVal`. The `children` array is never a
   * string, so that key never matches.
   */
  predicate IsElementType(n: Node, elementVal: string, elementKey: string)
  {
    IsElement(n) && elementKey != "children" && Lookup(n.props, elementKey) == Str(elementVal)
  }

  /** `isElementType` with the default key `type`. */
  predicate IsElementOfType(n: Node, elementVal: string)
  {
    IsElementType(n, elementVal, "type")
  }

  /**
   * `matches(element, props)`: every key of `props` other than `children`
   * holds the same value (by `===`) in the element; a key the element lacks
   * reads as `undefined`.
   */
  predicate Matches(element: Node, props: Props)
  {
    forall key :: key in props && key != "children" ==> Lookup(element.props, key) == props[key]
  }

  /** An empty set of properties matches every element. */
  lemma MatchesEmpty(element: Node)
    ensures Matches(element, map[])
  {
  }

  /** The `children` entry of the properties plays no part in matching. */
  lemma MatchesIgnoresChildren(element: Node, props: Props, v: Value)
    ensures Matches(element, props[ "children" := v ]) == Matches(element, props)
  {
    assert forall key :: key in props[ "children" := v ] && key != "children" ==>
      key in props && props[ "children" := v ][key] == props[key];
  }

  /** Matching fails when some non-`children` key holds a different value (the converse is `Matches` itself). */
  lemma MatchesFailsOnKey(element: Node, props: Props, key: string)
    requires key in props && key != "children"
    requires Lookup(element.props, key) != props[key]
    ensures !Matches(element, props)
  {
  }

  /** An element matches its own non-`children` properties. */
  lemma MatchesOwnProps(element: Node)
    ensures Matches(element, element.props)
  {
  }

  /** The editor root is never an element, whatever its type property says. */
  lemma EditorIsNotElementType(props: Props, children: seq<Node>, elementVal: string, elementKey: string)
    ensures !IsElementType(Editor(props, children), elementVal, elementKey)
  {
  }
}
