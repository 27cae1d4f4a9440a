/** The four operations every change to the tree is made of. */
module TreeOperations {
  import opened TreeElements
  import opened TreePaths

  /**
   * `insert_node` puts `node` at `path`; `move_node` moves the node at
   * `path` so that it ends up at `newPath`; `remove_node` removes the node at
   * `path` (`node` is the removed node, kept for the inverse); `set_node`
   * changes the properties of the node at `path` from `properties` to
   * `newProperties`.
   */
  datatype Operation =
    | InsertNode(node: Node, path: Path)
    | MoveNode(path: Path, newPath: Path)
    | RemoveNode(node: Node, path: Path)
    | SetNode(path: Path, properties: Props, newProperties: Props)

  /** `operationCanTransformPath`: the operations that can change where a path points. */
  predicate IsStructural(op: Operation)
  {
    op.InsertNode? || op.MoveNode? || op.RemoveNode?
  }
}
