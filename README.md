# A verified model of trunk's tree editor core

`trunk` keeps a document as a tree of plain nodes. The root is an *editor* node. Below it sit *elements*, each with children and free-form properties. A node is addressed by its *path*: the list of child indexes from the root.

Every change goes through one of four operations: `insert_node`, `remove_node`, `move_node` and `set_node`. The core provides:

- `TreePaths.transform`, which carries a path through an operation;
- `TreeOperations.inverse`, which the history uses to undo;
- `GeneralTransforms.transform`, which applies an operation to the tree.

The editor object's `apply` does four things in order:

1. it carries every live *path ref* through the operation, and releases a ref whose node is gone;
2. it recomputes the *dirty paths* that normalisation will visit, keyed by `path.join(',')`;
3. it applies the operation and logs it;
4. it schedules one `onChange` per batch.

The history layer wraps `apply`. It saves operations into batches, merges or splits them under the `merging` and `saving` flags, and undoes or redoes a batch by applying inverses.

On top of `apply` sit the queries and the transforms:

- The queries are `nodes`, `levels`, `above`, `next`, `previous`, `parent`, `node`, `getLastChild`, `sibling` and `traverseNodes`.
- The eight node transforms are `insertNodes`, `removeNodes`, `setNodes`, `unsetNodes`, `moveNodes`, `liftNodes`, `unwrapNodes` and `wrapNodes`. Each finds its targets with `nodes`, holds them with path refs, and calls `apply` (or another transform) once per target.

The project follows the source file by file:

- **Pure code** is modelled as datatypes, functions and lemmas: paths, path transforms, inverses, applying an operation, tree walks and the queries.
- **The mutable editor** is a class `Editors.Editor`. It holds the document, the live refs (objects of class `Editors.PathRef` whose `current` the editor updates), the dirty paths and their key set, the operation log, the flush flag, and the undo and redo stacks.
- **Loops with state.** Each loop of the source is a method with a `while` loop: the walk of `nodes`, `pathsByLevel`, the dirty-path `add` loops, and every transform's loop over its refs. Each such method is proved against a function that states its effect.
  - A transform method ensures that what it sent and where the document ends up equal that function: for example `Replayed(e.View(), o, sent) == RemoveEffect(old(e.View()), at, matcher)`.
  - It also ensures that every ref of the caller now holds its old path carried through everything sent.
  - Lemmas beside each effect function state what the transform promises: what it sends, its single-target behaviour, and its error cases.

Errors are outcomes. `Done` means the run went on; `Failed(message)` means the default `onError` threw. The default `onError` lets only the key `node` continue and throws the message of every other key (src/core/on-error.ts:4-17), and every key the transforms report is such a key. So in the model these reports end the run. A recovering policy (throw only when `editor.strict`, otherwise push the report onto `editor.errors` and return the recovery value) sits commented out in src/core/on-error.ts:12-16; the model follows the live code, and a host `onError` that recovers is not modelled.

## Model

| member | source | states |
|---|---|---|
| Text.IntText | src/core/apply.ts:20 | the text of an index in a dirty-path key is non-empty and holds no comma, so commas only separate entries |
| Text.Join | src/core/apply.ts:20 | `path.join(',')` is the empty string exactly for the root path |
| Text.NatTextInjective | src/core/apply.ts:20 | two natural numbers with the same decimal text are equal |
| Text.IntTextSign | src/core/apply.ts:20 | the text of an index starts with a minus sign exactly when the index is negative |
| Text.IntTextInjective | src/core/apply.ts:20 | two integers with the same text are equal |
| Text.JoinFirstComma | src/core/apply.ts:20 | in a joined path the first entry's text comes first, followed by a comma when more entries follow |
| Text.JoinInjective | src/core/apply.ts:18-24 | two paths with the same joined key are the same path, so de-duplicating by key is de-duplicating by path |
| TreeElements.MatchesEmpty | src/core/interfaces/tree-element.ts:83-94 | an empty set of properties matches every element |
| TreeElements.MatchesIgnoresChildren | src/core/interfaces/tree-element.ts:85-87 | the `children` entry of the properties has no effect on matching |
| TreeElements.MatchesFailsOnKey | src/core/interfaces/tree-element.ts:88-90 | one non-`children` key whose value differs (by identity) makes the match fail |
| TreeElements.MatchesOwnProps | src/core/interfaces/tree-element.ts:83-94 | an element matches its own properties |
| TreeElements.EditorIsNotElementType | src/core/interfaces/tree-element.ts:55-58 | the editor is never an element of any type, whatever its type property holds |
| TreePaths.Bump | src/core/interfaces/tree-path.ts:253 | `p[i] += d` on a copy changes entry `i` by `d` and no other entry |
| TreePaths.Compare | src/core/interfaces/tree-path.ts:48-57 | the result is always -1, 0 or 1 |
| TreePaths.ComparePaths | src/core/interfaces/tree-path.ts:48-57 | the loop over the shorter length returns exactly `Compare` |
| TreePaths.CompareZero | src/core/interfaces/tree-path.ts:48-57 | `compare` is 0 exactly when one path is an initial segment of the other |
| TreePaths.CompareSwap | src/core/interfaces/tree-path.ts:48-57 | swapping the arguments negates the result |
| TreePaths.CompareNegative | src/core/interfaces/tree-path.ts:48-57 | `compare` is -1 exactly when the paths first differ at an index where the first is smaller |
| TreePaths.EqualsIsEquality | src/core/interfaces/tree-path.ts:87-91 | `equals` is equality of paths |
| TreePaths.BeforeTransitive | src/core/interfaces/tree-path.ts:107-109 | `isBefore` is transitive |
| TreePaths.BeforeExtends | src/core/interfaces/tree-path.ts:107-109 | a path before `b` is also before every path below `b` |
| TreePaths.BeforeFromPrefix | src/core/interfaces/tree-path.ts:107-109 | every path below a path that is before `c` is also before `c` |
| TreePaths.AncestorIsStrictPrefix | src/core/interfaces/tree-path.ts:101-122 | `isAncestor` is a strict initial segment and `isCommon` a possibly equal one |
| TreePaths.Converses | src/core/interfaces/tree-path.ts:97-135 | ancestor/descendant, parent/child and before/after are converse pairs |
| TreePaths.ParentIsParent | src/core/interfaces/tree-path.ts:130-135 | `isParent(a, b)` holds exactly when `parent(b)` is `a` |
| TreePaths.Trichotomy | src/core/interfaces/tree-path.ts:48-57 | two paths are before, after, or one is an initial segment of the other, and before excludes the rest |
| TreePaths.EndsBeforeIff | src/core/interfaces/tree-path.ts:77-85 | `endsBefore` holds exactly for a non-root path whose parent prefix `another` shares and whose last index is smaller than `another`'s at that depth; a too-short `another` reads `undefined` and gives false |
| TreePaths.EndsAfterIff | src/core/interfaces/tree-path.ts:59-67 | `endsAfter` holds exactly for the same prefix and a larger last index; a too-short `another` gives false |
| TreePaths.EndsAtIff | src/core/interfaces/tree-path.ts:69-75 | `endsAt` holds exactly when `path` is an initial segment of `another` |
| TreePaths.SiblingIff | src/core/interfaces/tree-path.ts:144-155 | siblings are non-root paths of one length with the same parent and different last indexes; the relation is symmetric and irreflexive |
| TreePaths.ComputeLevels | src/core/interfaces/tree-path.ts:157-170 | the loop builds the list of initial segments, reversed on request |
| TreePaths.LevelsOrder | src/core/interfaces/tree-path.ts:157-170 | `levels` lists every initial segment once, shortest first (longest first with `reverse`) |
| TreePaths.AncestorsAreAncestors | src/core/interfaces/tree-path.ts:19-29 | `ancestors` has one entry per index and lists exactly the strict ancestors |
| TreePaths.Common | src/core/interfaces/tree-path.ts:31-46 | the result is an initial segment of both paths, and they differ right after it |
| TreePaths.ComputeCommon | src/core/interfaces/tree-path.ts:31-46 | the loop that stops at the first differing entry returns `Common` |
| TreePaths.CommonIsLongest | src/core/interfaces/tree-path.ts:31-46 | every shared initial segment is an initial segment of `common` |
| TreePaths.CommonUnique | src/core/interfaces/tree-path.ts:31-46 | a shared initial segment that cannot be extended is `common` |
| TreePaths.NextPrevious | src/core/interfaces/tree-path.ts:172-220 | `previous` undoes `next` (for a non-negative last index), `next` undoes `previous`, and `previous` exists exactly when `hasPrevious` holds |
| TreePaths.NextIsLaterSibling | src/core/interfaces/tree-path.ts:172-180 | `next` of a non-root path is a sibling, before which the path sorts and which it ends before |
| TreePaths.NothingBetweenNext | src/core/interfaces/tree-path.ts:172-180 | no path of the same length sorts strictly between a path and its `next` |
| TreePaths.RelativeCompletes | src/core/interfaces/tree-path.ts:222-231 | `relative` is defined exactly when `ancestor` is an initial segment of `path`, and appending it to `ancestor` gives `path` |
| PathTransform.TransformAllConcat | src/core/interfaces/tree-path-ref.ts:17-30 | a ref carried through two runs of operations holds what it holds carried through the first run and then the second |
| PathTransform.TransformAllGone | src/core/interfaces/tree-path-ref.ts:20-22 | a ref that holds `null` keeps `null` whatever operations follow |
| PathTransform.Shift | src/core/interfaces/tree-path.ts:253 | the index at `q`'s depth moves by `d`; every other index stays |
| PathTransform.TransformKeeps | src/core/interfaces/tree-path.ts:240-242 | the root path, and every path under `set_node`, stays where it is |
| PathTransform.TransformNoneIff | src/core/interfaces/tree-path.ts:303-308 | only a removal loses a path, and it loses exactly the paths at or below the removed node |
| PathTransform.TransformInsert | src/core/interfaces/tree-path.ts:245-256 | an insertion at a non-root slot moves the paths at or after the slot, and those below them, one place along |
| PathTransform.TransformInsertAtRoot | src/core/interfaces/tree-path.ts:248-254 | an insertion at the root path changes no path (`p[-1] += 1` touches no index) |
| PathTransform.TransformRemove | src/core/interfaces/tree-path.ts:303-314 | a removal loses the paths at or below it and moves its later siblings, and those below them, back one place |
| PathTransform.TransformMovedSubtree | src/core/interfaces/tree-path.ts:265-273 | the moved node and its descendants keep their relative paths under the node's new place |
| PathTransform.TransformMoveInPlace | src/core/interfaces/tree-path.ts:261-264 | a move whose two paths are equal changes no path |
| PathTransform.TransformMoveByIndexes | src/core/interfaces/tree-path.ts:274-301 | away from the moved subtree, the three move branches restated as index shifts |
| PathTransform.MoveTargetByIndexes | src/core/interfaces/tree-path.ts:266-270 | the moved node ends at `newPath`, one place back when its old slot was an earlier sibling of an ancestor of `newPath` |
| PathTransform.TransformMoveElsewhere | src/core/interfaces/tree-path.ts:258-302 | away from the moved subtree, a well-formed move acts on a path as the removal at its source followed by the insertion at the node's final place |
| OperationInverse.MoveInverseShape | src/core/interfaces/tree-operation.ts:47-70 | the inverse of a non-trivial well-formed move is a well-formed move from the node's final place that puts the node back at its old path |
| OperationInverse.NonSiblingInverse | src/core/interfaces/tree-operation.ts:60-69 | for a move between different parents, the re-derived paths `transform(path, op)` and `transform(next(path), op)` form a move whose target is the old path |
| OperationInverse.RoundTrip | src/core/interfaces/tree-operation.ts:42-80 | for a well-formed operation, every path it keeps is brought back to where it was by the inverse |
| OperationInverse.MoveRoundTrip | src/core/interfaces/tree-operation.ts:47-70 | the same round trip for a move, on every non-root path |
| OperationInverse.InverseInvolution | src/core/interfaces/tree-operation.ts:42-80 | the inverse of a well-formed operation is well-formed, and inverting it again gives the operation back |
| OperationInverse.InsertAtRootNotUndone | src/core/interfaces/tree-operation.ts:44-46 | an insertion at the root path moves no path, but its inverse, a removal at the root, loses every path |
| TreeNodes.Get | src/core/interfaces/tree-node.ts:209-221 | the walk down one index at a time returns the node at the path, or nothing as soon as an index names no child |
| TreeNodes.Has | src/core/interfaces/tree-node.ts:223-235 | the same walk answers true exactly when a node exists at the path |
| TreeNodes.NodeAtConcat | src/core/interfaces/tree-node.ts:209-221 | looking up `a + b` is looking up `a`, then `b` from the node found there |
| TreeNodes.NodeAtPrefix | src/core/interfaces/tree-node.ts:209-221 | `get(root, [])` is the root, and a path below a missing node is missing too |
| TreeNodes.NodeAtLonger | src/core/interfaces/tree-node.ts:209-221 | below a missing prefix, every longer prefix of the path is missing |
| TreeNodes.NodeAtChild | src/core/interfaces/tree-node.ts:212-218 | the node at `path + [i]` is child `i` of the node at `path`, when that child exists |
| TreeNodes.Child | src/core/interfaces/tree-node.ts:95-107 | `child` gives child `index` exactly when the index is in range |
| TreeNodes.Descendant | src/core/interfaces/tree-node.ts:146-154 | `descendant` gives the node at the path exactly when it exists and is not the editor |
| TreeNodes.ChildEntries | src/core/interfaces/tree-node.ts:109-131 | one entry per child of the node at `path`, child `i` at `path + [i]`, by increasing index or by decreasing index under `reverse`; none when the node is missing |
| TreeNodes.Children | src/core/interfaces/tree-node.ts:109-131 | the counting loop yields exactly `ChildEntries` |
| TreeNodes.Leftmost | src/core/interfaces/tree-node.ts:197-204 | the path the walk of `first` appends holds only 0s and ends at a node without children |
| TreeNodes.Rightmost | src/core/interfaces/tree-node.ts:266-273 | the path the walk of `last` appends takes the last index at every step and ends at a node without children |
| TreeNodes.FirstLastLeaves | src/core/interfaces/tree-node.ts:191-276 | `first` and `last` exist exactly when the node at `path` does; they extend `path` with first (or last) indexes only, hold the node stored there, and that node has no children |
| TreeNodes.FirstLeaf | src/core/interfaces/tree-node.ts:191-207 | the loop of `first` reaches `FirstEntry` |
| TreeNodes.LastLeaf | src/core/interfaces/tree-node.ts:260-276 | the loop of `last` reaches `LastEntry` |
| TreeNodes.UntilMissing | src/core/interfaces/tree-node.ts:283-289 | the entries for the levels stop at the first path that has no node, and each entry is the node at its path |
| TreeNodes.ExistingOnly | src/core/interfaces/tree-node.ts:84-91 | the entries for the ancestors are exactly the listed paths that have a node, with those nodes |
| TreeNodes.LevelEntriesDown | src/core/interfaces/tree-node.ts:278-290 | going down, `levels` yields one entry per existing prefix, root first, and every level when `path` exists |
| TreeNodes.LevelEntriesUpMissing | src/core/interfaces/tree-node.ts:278-290 | going up from a missing path, `levels` yields nothing at all |
| TreeNodes.AncestorEntriesAre | src/core/interfaces/tree-node.ts:79-92 | `ancestors` yields exactly the existing strict ancestors of the path |
| TreeNodes.CommonEntry | src/core/interfaces/tree-node.ts:133-144 | `common` yields, when it exists, the node at a prefix shared by both paths |
| TreeNodes.CommonEntryDeepest | src/core/interfaces/tree-node.ts:133-144 | when the node at a path exists, `common` exists and lies at or below every shared prefix |
| TreeNodes.ParentNode | src/core/interfaces/tree-node.ts:391-400 | `parent` is nothing for the root path, else the node at the path without its last index |
| TreeTraversal.AllPathsIff | src/core/interfaces/tree-node.ts:223-235 | a path is among the paths of a tree exactly when a node exists there |
| TreeTraversal.MaxWidth | src/core/interfaces/tree-node.ts:321-333 | no node has more children than the tree's widest node, which bounds every index the walk can descend to |
| TreeTraversal.RunSound | src/core/interfaces/tree-node.ts:310-319 | every entry the walk yields pairs a node with its own path, lies inside the `to` bound in the walk's direction and never lies wholly before `from` |
| TreeTraversal.RunOrdered | src/core/interfaces/tree-node.ts:310-391 | the walk from any reachable cursor yields entries in strictly increasing pre-order of its direction |
| TreeTraversal.NodesStartAtRoot | src/core/interfaces/tree-node.ts:307-319 | the first entry yielded is the root at the empty path |
| TreeTraversal.NodesGuarantees | src/core/interfaces/tree-node.ts:300-392 | `nodes` yields each node with its own path, in strict pre-order (so no path twice), none beyond `to`, none wholly before `from` |
| TreeTraversal.RunComplete | src/core/interfaces/tree-node.ts:310-391 | from any cursor that keeps the walk's invariant, the walk yields every due node that is still ahead of the cursor or below it |
| TreeTraversal.NodesComplete | src/core/interfaces/tree-node.ts:300-392 | with non-negative indexes in `from`, `nodes` yields every node that lies within `to`, not wholly before `from`, and below no node `pass` approves |
| TreeTraversal.NoVetoAbove | src/core/interfaces/tree-node.ts:321-341 | no strict ancestor of a yielded node is approved by `pass` |
| TreeTraversal.NodesYieldIff | src/core/interfaces/tree-node.ts:300-392 | with non-negative indexes in `from`, a path is yielded if and only if its node is due |
| TreeTraversal.WholeTreePaths | src/core/interfaces/tree-node.ts:300-392 | with no `from`, `to` or `pass`, the paths `nodes` yields are exactly the paths of the tree |
| TreeTraversal.RunVeto | src/core/interfaces/tree-node.ts:321-341 | once `pass` approves an entry, the walk yields nothing below it |
| TreeTraversal.NodesVeto | src/core/interfaces/tree-node.ts:321-325 | no entry of `nodes` lies below an entry `pass` approved |
| TreeTraversal.Walk | src/core/interfaces/tree-node.ts:300-392 | the `while (true)` loop collects exactly the entries of the specification walk `Nodes` |
| TreeTraversal.Turn | src/core/interfaces/tree-node.ts:320-391 | one turn after the yield stops exactly when the specification step has no successor, and otherwise moves to that successor's cursor and node |
| TreeTraversal.Down | src/core/interfaces/tree-node.ts:321-341 | going down lands on the specification step's cursor: `from`'s index along an ancestor of `from`, else the first (last in reverse) child |
| TreeTraversal.Along | src/core/interfaces/tree-node.ts:342-391 | not going down, the loop breaks exactly when the specification step ends, else moves to the next sibling, the previous one in reverse, or the parent |
| TreeTraversal.Filter | src/core/interfaces/tree-node.ts:156-178 | an entry is kept exactly when it is in the input and accepted, and no more entries come out than go in |
| TreeTraversal.FilterOrdered | src/core/interfaces/tree-node.ts:156-178 | filtering the walk keeps its order |
| TreeTraversal.Descendants | src/core/interfaces/tree-node.ts:156-167 | `descendants` holds exactly the entries of `nodes` with a non-empty path |
| TreeTraversal.Elements | src/core/interfaces/tree-node.ts:169-178 | `elements` holds exactly the entries of `nodes` whose node is an element |
| TreeTraversal.DescendantsAreElements | src/core/interfaces/tree-node.ts:156-178 | both keep the walk's order, and in a tree whose only editor is the root they hold the same entries |
| TreeTraversal.RunAlongFrom | src/core/interfaces/tree-node.ts:327-331 | with no veto and nothing on the way past the bound, the walk from depth `i` of `from` first yields the nodes along `from` below depth `i` |
| TreeTraversal.NodesReachFrom | src/core/interfaces/tree-node.ts:327-331 | with no veto and no prefix of `from` past the bound, `nodes` begins with the levels of `from`, the root first and `from` last |
| PathsByLevels.PathsByLevel | src/core/editor-extension/pathsByLevel.ts:3-38 | the breadth-first queue loop returns exactly the specification levels `ByLevel` |
| PathsByLevels.Visit | src/core/editor-extension/pathsByLevel.ts:17-34 | one turn within `maxDepth` takes the front entry, records its path in the list of its depth and queues its children; it keeps the walk's invariant (earlier depths complete, the current depth recorded in order up to the next entry, the queue holding the rest of that depth then the children taken so far) and moves the walk strictly forward |
| PathsByLevels.Enqueue | src/core/editor-extension/pathsByLevel.ts:30-34 | the `forEach` appends to the queue exactly the entry's children, each with its path, in index order |
| PathsByLevels.ByLevelLevels | src/core/editor-extension/pathsByLevel.ts:16-35 | every path in level `d` has length `d` and names a node, and the level's paths are in strictly increasing order |
| PathsByLevels.ByLevelRoot | src/core/editor-extension/pathsByLevel.ts:11-22 | the result starts with the root's level `[[]]`, which stays empty when `maxDepth` is negative |
| PathsByLevels.ByLevelComplete | src/core/editor-extension/pathsByLevel.ts:16-35 | every path that names a node and is no deeper than `maxDepth` is in the level of its length |
| PathsByLevels.ByLevelBounded | src/core/editor-extension/pathsByLevel.ts:22 | no level deeper than `maxDepth` is present |
| EditorExtensions.GetLastChild | src/core/editor-extension/getLastChild.ts:9-19 | there is no last child exactly when the node has no children |
| EditorExtensions.LastChildIsLast | src/core/editor-extension/getLastChild.ts:9-19 | the last child is the node one level below the entry at its path, and no sibling follows it; a childless entry has no node below it |
| EditorExtensions.GetLastChildPath | src/core/editor-extension/getLastChild.ts:22-30 | the entry's path extended by the number of children minus one (so -1 for a childless node), which is the last child's path when there is one |
| EditorExtensions.IsLastChildIff | src/core/editor-extension/getLastChild.ts:33-40 | a node is the last child of `parent` exactly when it is a child of it with no following sibling |
| EditorExtensions.LevelIndex | src/core/editor-extension/sibling.ts:43-45 | the first index of `target` in the level, or -1 exactly when it is absent |
| EditorExtensions.Sibling | src/core/editor-extension/sibling.ts:13-54 | the node at the adjacent-index path when one exists; throws exactly when there is none and the target's depth has no level; any node returned is at the target's depth |
| EditorExtensions.SiblingFindsNextCousin | src/core/editor-extension/sibling.ts:27-53 | from a node of the tree, forwards: no error, and the result is the first node of the same depth after the target, none when it is the last |
| EditorExtensions.SiblingFindsPreviousCousin | src/core/editor-extension/sibling.ts:27-53 | from a node of the tree, in reverse: no error, and the result is the last node of the same depth before the target, none when it is the first |
| EditorExtensions.SiblingOfMissingTarget | src/core/editor-extension/sibling.ts:47-53 | as written, forwards from a path naming no node with no adjacent node, `sibling` returns the first node of the level |
| EditorExtensions.SiblingOfFound | src/core/editor-extension/sibling.ts:47-53 | `sibling` with the neighbour taken only when the target was found: the same adjacent-node, error and depth guarantees |
| EditorExtensions.SiblingOfFoundMissingTarget | src/core/editor-extension/sibling.ts:47-53 | with that guard, a path naming no node and with no adjacent node has no sibling |
| EditorExtensions.SiblingOfFoundAgrees | src/core/editor-extension/sibling.ts:13-54 | for a node of the tree the corrected guard gives the same answer as the source |
| EditorExtensions.Traversal | src/core/editor-extension/traverseNodes.ts:4-30 | the walk reports a stop exactly when its own node's call answers true; pre-order consumes the node first (and alone when it stops), post-order last |
| EditorExtensions.TraversalPaths | src/core/editor-extension/traverseNodes.ts:20-24 | every call receives a node of the subtree with `rootPath` extended by the index chain to it |
| EditorExtensions.TraversalComplete | src/core/editor-extension/traverseNodes.ts:4-30 | with a consumer that never stops, every node of the subtree is consumed with its path |
| EditorExtensions.StopSkipsLaterSiblings | src/core/editor-extension/traverseNodes.ts:24-26 | a child whose own call answers true ends its parent's loop: nothing at a later sibling is consumed |
| EditorExtensions.TraverseNodes | src/core/editor-extension/traverseNodes.ts:4-30 | the recursive method with its counting loop makes exactly the calls, and gives exactly the answer, that `Traversal` describes |
| OnErrors.OnError | src/core/on-error.ts:4-17 | the policy goes on exactly for the key `node`, and otherwise fails with the report's message |
| OnErrors.Report | src/core/on-error.ts:4-17 | a query's report answers `undefined` exactly for the key `node` and throws the report's message for every other key |
| GeneralTransforms.SpliceStart | src/core/interfaces/transforms/general.ts:38 | where `splice` starts: always inside the array, and at the given index whenever that lies within it |
| GeneralTransforms.SpliceIn | src/core/interfaces/transforms/general.ts:38 | one entry longer; the new entry at the start position, the earlier entries in place and the later ones one along |
| GeneralTransforms.SpliceOut | src/core/interfaces/transforms/general.ts:81 | one entry shorter with the later entries one back when the start is inside the array, unchanged at its end |
| GeneralTransforms.SpliceOutIn | src/core/interfaces/transforms/general.ts:81-97 | taking out what was just put in at the same index gives the array back |
| GeneralTransforms.SpliceInOut | src/core/interfaces/transforms/general.ts:81-97 | putting back what was just taken out at the same index gives the array back |
| GeneralTransforms.Replace | src/core/interfaces/transforms/general.ts:176-182 | the draft's copy-on-write: after replacing the node at `at`, the tree holds the new node there |
| GeneralTransforms.ReplaceBelow | src/core/interfaces/transforms/general.ts:176-182 | below the replaced node the tree is the new node's subtree |
| GeneralTransforms.ReplaceBeside | src/core/interfaces/transforms/general.ts:176-182 | beside the replaced node the tree is unchanged |
| GeneralTransforms.ReplaceAbove | src/core/interfaces/transforms/general.ts:176-182 | above the replaced node every node keeps its kind and properties |
| GeneralTransforms.ReplaceSame | src/core/interfaces/transforms/general.ts:176-182 | replacing a node by itself leaves the tree unchanged |
| GeneralTransforms.ReplaceTwice | src/core/interfaces/transforms/general.ts:176-182 | a second replacement at the same path overrides the first |
| GeneralTransforms.Patched | src/core/interfaces/transforms/general.ts:139-167 | a key ends up present exactly when `newProperties` gives it a non-null value, or neither map names it and the node had it; a present key holds the new value if given, else the old |
| GeneralTransforms.AssignProperties | src/core/interfaces/transforms/general.ts:139-157 | each key of `newProperties` is deleted for a nullish value and assigned otherwise; other keys are untouched |
| GeneralTransforms.DeleteDropped | src/core/interfaces/transforms/general.ts:159-167 | each key of `properties` absent from `newProperties` is deleted; other keys are untouched |
| GeneralTransforms.SetProperties | src/core/interfaces/transforms/general.ts:139-167 | the two loops in order produce exactly the patched properties |
| GeneralTransforms.Attached | src/core/interfaces/transforms/general.ts:38 | after the splice the parent is still there with one child more |
| GeneralTransforms.Detached | src/core/interfaces/transforms/general.ts:114 | after the splice the parent is still there |
| GeneralTransforms.ApplyInsert | src/core/interfaces/transforms/general.ts:16-41 | succeeds exactly when the path has a parent node and its last index is not past the parent's children; a failure leaves the tree unchanged |
| GeneralTransforms.ApplyMove | src/core/interfaces/transforms/general.ts:42-100 | succeeds only for a non-root node that exists and is not moved into itself; a failure on any of those checks leaves the tree unchanged |
| GeneralTransforms.ApplyRemove | src/core/interfaces/transforms/general.ts:101-117 | succeeds exactly when the path has a parent node; a failure leaves the tree unchanged |
| GeneralTransforms.ApplySet | src/core/interfaces/transforms/general.ts:118-170 | succeeds exactly for a non-root node that exists when `newProperties` names neither `children` nor `text`; a failure leaves the tree unchanged |
| GeneralTransforms.ApplyToDraft | src/core/interfaces/transforms/general.ts:14-172 | every failed operation other than a move leaves the tree unchanged |
| GeneralTransforms.ApplyOperation | src/core/interfaces/transforms/general.ts:174-184 | the edit on the draft, with the `set_node` loops run, gives exactly `ApplyToDraft`'s tree and outcome |
| GeneralTransforms.WithChildrenBack | src/core/interfaces/transforms/general.ts:38 | swapping the old children back in gives the node back |
| GeneralTransforms.WithPropsBack | src/core/interfaces/transforms/general.ts:139-167 | swapping the old properties back in gives the node back |
| GeneralTransforms.AttachedAt | src/core/interfaces/transforms/general.ts:38 | a node spliced in at an index within the children is found at that path |
| GeneralTransforms.AttachedKeeps | src/core/interfaces/transforms/general.ts:38 | splicing in moves every node other than the new one's ancestors to where the insert shift sends its path |
| GeneralTransforms.DetachedKeeps | src/core/interfaces/transforms/general.ts:114 | splicing out moves every node outside the removed subtree and off its parent's line to where the remove shift sends its path |
| GeneralTransforms.DetachAttached | src/core/interfaces/transforms/general.ts:38-114 | splicing a node in and then out at the same place gives the tree back |
| GeneralTransforms.AttachDetached | src/core/interfaces/transforms/general.ts:38-114 | splicing the node at a path out and then back in at the same place gives the tree back |
| GeneralTransforms.InsertIsAttach | src/core/interfaces/transforms/general.ts:16-41 | a successful `insert_node` is the splice into the parent at the last index |
| GeneralTransforms.InsertPlaces | src/core/interfaces/transforms/general.ts:16-41 | after a successful `insert_node` at a non-negative index the inserted node is at `path` |
| GeneralTransforms.InsertKeeps | src/core/interfaces/transforms/general.ts:16-41 | after a successful `insert_node`, every other node outside the new one's ancestors is found where path transformation sends its path |
| GeneralTransforms.InsertKeepsAncestors | src/core/interfaces/transforms/general.ts:16-41 | the new node's ancestors keep their kind and properties |
| GeneralTransforms.RemoveKeeps | src/core/interfaces/transforms/general.ts:101-117 | path transformation drops exactly the removed subtree, and every other node off the parent's line is found where it sends its path |
| GeneralTransforms.InsertThenRemove | src/core/interfaces/transforms/general.ts:16-117 | applying the inverse of a successful `insert_node` gives the tree back |
| GeneralTransforms.RemoveThenInsert | src/core/interfaces/transforms/general.ts:16-117 | applying the inverse of a `remove_node` of an existing node gives the tree back |
| GeneralTransforms.PatchedBack | src/core/interfaces/transforms/general.ts:139-167 | patching with the recorded old properties undoes a patch |
| GeneralTransforms.SetIsReplace | src/core/interfaces/transforms/general.ts:118-170 | a successful `set_node` replaces the node by its patched copy |
| GeneralTransforms.SetPatches | src/core/interfaces/transforms/general.ts:118-170 | after a successful `set_node` the node holds the patched properties and every node off its line is as it was |
| GeneralTransforms.SetThenUnset | src/core/interfaces/transforms/general.ts:118-170 | applying the inverse of a successful `set_node` whose old properties were recorded gives the tree back |
| GeneralTransforms.MoveInPlace | src/core/interfaces/transforms/general.ts:42-100 | moving a node onto its own path leaves the tree unchanged |
| GeneralTransforms.MoveIsDetachAttach | src/core/interfaces/transforms/general.ts:73-97 | when the place path transformation sends the node to has a parent node, `move_node` succeeds as the splice out followed by the splice in at that place |
| GeneralTransforms.MoveKeeps | src/core/interfaces/transforms/general.ts:73-97 | after such a move the moved node is at its new place and every other node off the old parent's line is found where path transformation sends its path |
| GeneralTransforms.MovedElsewhereKeeps | src/core/interfaces/transforms/general.ts:73-97 | a node outside the moved subtree is found where the remove shift followed by the insert shift sends it |
| GeneralTransforms.MovedSubtreeKeeps | src/core/interfaces/transforms/general.ts:73-97 | a node of the moved subtree is found under the node's new place |
| DirtyPaths.Moved | src/core/get-dirty-paths.ts:32-40 | carrying paths through a move keeps every path, one result per input |
| DirtyPaths.MoveAncestors | src/core/get-dirty-paths.ts:32-40 | each loop pushes every ancestor carried through the move, in order |
| DirtyPaths.GetDirtyPaths | src/core/get-dirty-paths.ts:7-64 | the switch produces exactly the specification list `DirtyPathsOf` |
| DirtyPaths.RemoveDirtiesAncestors | src/core/get-dirty-paths.ts:48-53 | a removal dirties exactly the strict ancestors of the removed path |
| DirtyPaths.SetDirtiesLevels | src/core/get-dirty-paths.ts:54-58 | setting properties dirties exactly the path and its ancestors |
| DirtyPaths.InsertDirtiesSubtree | src/core/get-dirty-paths.ts:12-21 | a path is dirtied by an insertion if and only if it is the insertion path, one of its ancestors, or the path of a node of the new subtree below the insertion path; every path of that subtree is there |
| DirtyPaths.MoveDirtiesBothPlaces | src/core/get-dirty-paths.ts:22-47 | a real move dirties the old ancestors where the move leaves them, then the new ancestors, then the node's new path |
| Editors.KeyedHas | src/core/apply.ts:18-27 | while the key set mirrors the dirty list, a path's key is known exactly when the path is listed |
| Editors.AddKeyed | src/core/apply.ts:18-27 | `add` keeps the list free of repeats with its key set mirroring it, keeps every listed path, and adds exactly the given path |
| Editors.AddEachKeyed | src/core/apply.ts:33-46 | adding a list of paths keeps the mirror, keeps every listed path, and adds exactly the given ones |
| Editors.NextDirtyKeyed | src/core/apply.ts:13-49 | the stored list is free of repeats with a mirroring key set; for a structural operation it holds exactly the new dirty paths and the old ones carried through the operation, otherwise the new and the old ones |
| Editors.Recompute | src/core/apply.ts:29-46 | the two loops over `add` produce exactly the specification list `NextDirty` |
| Editors.AddPath | src/core/apply.ts:18-27 | one call of `add` updates the list and key set exactly as `Add` does |
| Editors.Initial | src/history/with-tree-history.ts:17-20 | a new editor, with or without history, is in a reachable state |
| Editors.DropOldest | src/history/with-tree-history.ts:89-91 | the `shift` loop keeps exactly the capped undo stack |
| Editors.ApplyEffect | src/history/with-tree-history.ts:66-97 | one apply sends exactly its own operation, whatever its outcome |
| Editors.CoreEffectValid | src/core/apply.ts:8-62 | the core `apply` keeps a reachable state reachable |
| Editors.SavedStacks | src/history/with-tree-history.ts:66-94 | saving keeps at most 100 batches, dropping the oldest first, empties the redo stack and ends the last batch with `op`; it extends the last batch exactly when merging (by default: when operations are pending) and there is one |
| Editors.UnsavedKeepsStacks | src/history/with-tree-history.ts:73-96 | with saving off, `apply` leaves both stacks alone |
| Editors.ApplyEffectValid | src/history/with-tree-history.ts:66-97 | the history's `apply` keeps a reachable state reachable |
| Editors.ReplayValid | src/history/with-tree-history.ts:66-97 | a run of applies keeps a reachable state reachable |
| Editors.ApplyLogs | src/core/apply.ts:50-51 | a successful apply appends its operation to the log, a failed one leaves the log alone, and no apply notifies `onChange` |
| Editors.ReplaySent | src/history/with-tree-history.ts:29-35 | a run is sent its operations up to and including the first failure, all of them when it succeeds |
| Editors.ReplayLogs | src/core/apply.ts:51 | a successful run appends all its operations to the log, and no run notifies `onChange` |
| Editors.ReplayStep | src/history/with-tree-history.ts:31-33 | after the `i`-th apply the run goes on from the state it leaves, or ends there when it fails |
| Editors.FlushArmedOnce | src/core/apply.ts:53-61 | only a successful apply that finds no flush armed arms one, with its own operation; later applies keep the first |
| Editors.FlushNotifiesFirst | src/core/apply.ts:53-61 | a flush after a successful run that started unarmed notifies `onChange` of the run's first operation and empties the log |
| Editors.UndoOpsReversed | src/history/with-tree-history.ts:51-57 | undo applies the inverse of each operation of the batch, last first, back to the last move of the root path; it covers the whole batch exactly when there is none |
| Editors.UndoOpsOfWellFormed | src/history/with-tree-history.ts:51-57 | for a batch of well-formed operations nothing blocks, and inverting the undo operations gives the batch back in order |
| Editors.Pop | src/history/with-tree-history.ts:37-62 | `pop` removes the last entry, and an empty stack stays empty |
| Editors.UnsavedRunKeepsHistory | src/history/tree-history-editor.ts:59-64 | with saving off, a run leaves both stacks and both flags alone |
| Editors.RunKeepsFlags | src/history/with-tree-history.ts:66-97 | any run keeps both flags and whether the editor has a history |
| Editors.WithoutSavingKeepsStacks | src/history/tree-history-editor.ts:59-64 | `withoutSaving` saves nothing; saving is back to its old value after a run that finishes and stays off after one that throws |
| Editors.WithoutMergingRestores | src/history/tree-history-editor.ts:48-53 | `withoutMerging` restores merging after a run that finishes and leaves it off after one that throws, and leaves saving alone |
| Editors.UnmergedPushes | src/history/with-tree-history.ts:80-87 | with merging off, a saved operation is pushed as a batch of its own |
| Editors.UndoMovesBatch | src/history/with-tree-history.ts:42-64 | a successful undo moves the last batch from the undo stack to the redo stack after sending the inverse of each of its operations, last first; a failed one moves nothing and leaves saving off |
| Editors.RedoMovesBatch | src/history/with-tree-history.ts:22-40 | a successful redo moves the last batch from the redo stack to the undo stack after sending its operations in order; a failed one moves nothing and leaves saving off |
| Editors.UndoValid | src/history/with-tree-history.ts:42-64 | undo keeps a reachable state reachable |
| Editors.RedoValid | src/history/with-tree-history.ts:22-40 | redo keeps a reachable state reachable |
| Editors.UndoThenRedo | src/history/with-tree-history.ts:22-64 | a successful undo followed by a successful redo leaves both stacks and saving as they were, and redo sends the undone batch again |
| Editors.PathRef.constructor | src/core/editor/path-ref.ts:5-15 | a new ref holds the given path |
| Editors.Editor.constructor | src/history/with-tree-history.ts:17-20 | a new editor is in the initial state, with no refs and nothing sent |
| Editors.Editor.NewPathRef | src/core/editor/path-ref.ts:4-21 | the new ref holds the path and joins the live refs; nothing else changes |
| Editors.Editor.Unref | src/core/editor/path-ref.ts:7-14 | `unref` returns what the ref held, clears it and takes it out of the live refs; nothing else changes |
| Editors.Editor.TransformRef | src/core/interfaces/tree-path-ref.ts:17-30 | a ref takes its path as the operation leaves it, and is released exactly when the operation removes a path it held |
| Editors.Editor.CarryRefs | src/core/apply.ts:9-11 | every live ref is carried through the operation, and the live refs are exactly those still holding a path |
| Editors.Editor.StoreDirty | src/core/apply.ts:13-49 | the dirty list and key set become `NextDirty` of the old ones; nothing else changes |
| Editors.Editor.EditAndLog | src/core/apply.ts:50-61 | the tree becomes the edited draft, a successful operation is logged, and the flush is armed with it when none was |
| Editors.Editor.CoreApply | src/core/apply.ts:8-62 | refs are carried through the operation, and the new state and outcome are exactly `CoreEffect` of the old state |
| Editors.Editor.Save | src/history/with-tree-history.ts:67-94 | the stacks become exactly `Saved` of the old state |
| Editors.Editor.HistoryApply | src/history/with-tree-history.ts:66-97 | the operation is saved, then applied by the core `apply`, with refs carried |
| Editors.Editor.Apply | src/history/with-tree-history.ts:66-97 | `editor.apply` goes through the history when there is one, with refs carried, and gives exactly `ApplyEffect` |
| Editors.Editor.Flush | src/core/apply.ts:56-60 | the scheduled callback disarms the flush, notifies `onChange` of the scheduled operation and empties the log |
| Editors.Editor.ApplyEach | src/history/with-tree-history.ts:31-33 | applying each operation until one fails gives exactly `Replay`, and every live ref is carried through what was sent |
| Editors.Editor.ApplyUnsaved | src/history/tree-history-editor.ts:59-62 | the run with saving off gives exactly `Replay` from the state with saving off |
| Editors.Editor.ApplyBlocked | src/history/with-tree-history.ts:51-57 | when the batch holds a move of the root path, whose inverse has a null new path, the inverses of the later operations are applied and then the apply of that inverse throws, changing nothing |
| Editors.Editor.WithoutSaving | src/history/tree-history-editor.ts:59-64 | the run inside `withoutSaving` gives exactly `WithoutSavingEffect`, with refs carried |
| Editors.Editor.WithoutMerging | src/history/tree-history-editor.ts:48-53 | the run inside `withoutMerging` gives exactly `WithoutMergingEffect`, with refs carried |
| Editors.Editor.Undo | src/history/with-tree-history.ts:42-64 | `undo` gives exactly `UndoEffect`, with refs carried through the operations it sent |
| Editors.Editor.UndoBatch | src/history/with-tree-history.ts:49-63 | undoing a batch with no blocked operation gives exactly `Undone` |
| Editors.Editor.Redo | src/history/with-tree-history.ts:22-40 | `redo` gives exactly `RedoEffect`, with refs carried through the operations it sent |
| EditorQueries.EditorPath | src/core/editor/path.ts:3-15 | the resolved path is a prefix of `at`: `at` itself without a depth, else cut with `slice` semantics to the first `depth` indexes (negative depths counting from the end) |
| EditorQueries.NodeEntry | src/core/editor/node.ts:4-30 | never throws; finds an entry exactly when a node exists at the resolved path, and then pairs that node with that path; the root path always finds the root |
| EditorQueries.ParentEntry | src/core/editor/parent.ts:5-33 | throws "Cannot find the parent path" exactly for the root path; otherwise the entry one level up, or `undefined` exactly when no node is there |
| EditorQueries.NodesFor | src/core/editor/nodes.ts:25-47 | the walk's options from the location are well formed, and the `pass` never prunes |
| EditorQueries.EditorNodes | src/core/editor/nodes.ts:11-58 | every entry is a node at its own path accepted by `match`; every accepted entry of the walk is there; they come in the walk's order, between `from` and `to` |
| EditorQueries.EditorNodesAtPath | src/core/editor/nodes.ts:31-36 | for a single path every entry lies on its line: an ancestor, the path or below it |
| EditorQueries.EditorNodesBegin | src/core/editor/nodes.ts:31-47 | for an existing path and no `match`, the entries begin with the root, the path's ancestors and the path itself |
| EditorQueries.LevelEntriesAre | src/core/interfaces/tree-node.ts:278-290 | the entries of `levels` are exactly the existing prefixes of the path, shortest first |
| EditorQueries.EditorLevels | src/core/editor/levels.ts:12-50 | nothing without `at`; otherwise exactly the existing prefixes of `at` that `match` accepts, shortest first, or deepest first under `reverse` |
| EditorQueries.Above | src/core/editor/above.ts:4-33 | the deepest existing strict ancestor of `at` that `match` accepts, or none when there is no such ancestor or no `at` |
| EditorQueries.FirstOf | src/core/editor/next.ts:52-54 | destructuring the first entry: present exactly for a non-empty list, and then the list's first entry |
| EditorQueries.SiblingMatch | src/core/editor/next.ts:33-50 | the given `match`, else the children of `at`'s parent, else none when that parent is missing |
| EditorQueries.NextEntry | src/core/editor/next.ts:4-55 | no `at` answers `undefined`; the root path throws "Cannot get the next node"; a missing parent with no `match` throws; a result is an existing node not before `at`, and with the default match a sibling of `at` |
| EditorQueries.PreviousEntry | src/core/editor/previous.ts:4-64 | the same for the reverse walk: the root path throws, a missing parent with no `match` throws, and a result is an existing node not after `at`, a sibling of `at` with the default match |
| EditorQueries.NextFindsAtItself | src/core/editor/next.ts:33-54 | with the default match, `next` of an existing non-root path is the node at that path itself |
| EditorQueries.PreviousFindsAtItself | src/core/editor/previous.ts:37-63 | with the default match, `previous` of an existing non-root path is the node at that path itself |
| EditorQueries.SearchFindsAt | src/core/editor/next.ts:46-52 | the walk over the span from `at`, filtered to the children of `at`'s parent, finds `at` first |
| EditorQueries.LevelsFirstChild | src/core/editor/next.ts:46 | along the levels of `at`, the first child of `at`'s parent met is `at` itself |
| EditorQueries.MatchTreePath | src/core/utils/match-tree-path.ts:5-12 | the matcher exists exactly when a node is at the path, and then accepts exactly the entry at that path |
| EditorQueries.FindNode | src/core/editor-extension/findNode.ts:10-19 | the result is an accepted node at its own path that comes before every other accepted entry; none exactly when the walk has no accepted entry |
| TransformSupport.Targets | src/core/transforms/remove-nodes.ts:16-22 | the target list throws exactly when no `match` is given, `at` is a path, and no node is at it; otherwise its entries are nodes found at their own paths, in document order, each accepted by the given match |
| TransformSupport.PathsOf | src/core/transforms/remove-nodes.ts:23-25 | the refs taken on the entries hold the entries' paths, one per entry, in order |
| TransformSupport.Carry | src/core/interfaces/tree-path-ref.ts:17-30 | one result per ref, each ref's path carried through every operation sent since it was taken |
| TransformSupport.SingleTarget | src/core/utils/match-tree-path.ts:5-12 | with the default match, a path holding a node yields exactly that node's entry |
| TransformSupport.CarryConcat | src/core/interfaces/tree-path-ref.ts:17-30 | carrying paths through two runs of operations is carrying them through one run after the other |
| TransformSupport.NewRefs | src/core/transforms/remove-nodes.ts:23-25 | `pathRef` on each entry's path, in order: fresh live refs holding exactly those paths, with the document and the operations sent unchanged |
| TransformSupport.Release | src/core/transforms/remove-nodes.ts:27-28 | `unref` of the `i`-th own ref returns the path it holds and takes it out of the live refs; nothing else changes |
| TransformSupport.ApplyCarrying | src/core/apply.ts:8-11 | `editor.apply` inside a transform sends exactly that operation with the effect `ApplyEffect` gives; every ref, the caller's and the transform's own, is carried through it, and the refs left live are those whose path survived |
| InsertNodesTransform.InsertTarget | src/core/transforms/insert-nodes.ts:19-34 | with no `match` the insertion path is `at`, or `[0]` when absent; with a `match` it is that path or the path of a node the match accepts |
| InsertNodesTransform.InsertEffect | src/core/transforms/insert-nodes.ts:5-71 | no nodes send nothing; an empty insertion path fails with "Cannot find the parent path" and sends nothing; otherwise the insertions are applied in turn until one fails |
| InsertNodesTransform.InsertRunSends | src/core/transforms/insert-nodes.ts:46-61 | the insertions send the nodes in input order, the `k`-th at `parent + [index + k]`, all of them unless one fails |
| InsertNodesTransform.InsertOpAt | src/core/transforms/insert-nodes.ts:48-51 | the `k`-th insertion puts the `k`-th node at `parent + [index + k]` |
| InsertNodesTransform.InsertNodes | src/core/transforms/insert-nodes.ts:5-71 | `insertNodes` in the editor gives exactly `InsertEffect`, and every live ref follows the operations sent |
| InsertNodesTransform.InsertEach | src/core/transforms/insert-nodes.ts:46-61 | the loop applies exactly the insertion operations, in order, until one fails |
| InsertNodesTransform.InsertNext | src/core/transforms/insert-nodes.ts:49-52 | one turn applies the `k`-th insertion, and the run goes on from there or ends with its failure |
| RemoveNodesTransform.RemoveAt | src/core/transforms/remove-nodes.ts:27-45 | a released ref sends nothing; a path holding no node fails with the "could not be found" report and sends nothing; otherwise exactly the `remove_node` of the node found there is applied |
| RemoveNodesTransform.RemoveFromSends | src/core/transforms/remove-nodes.ts:27-46 | every operation the loop sends is a `remove_node`, at most one per ref |
| RemoveNodesTransform.RemoveSendsRemovals | src/core/transforms/remove-nodes.ts:5-48 | everything `removeNodes` sends is a `remove_node`, at most one per target |
| RemoveNodesTransform.RemoveSingle | src/core/transforms/remove-nodes.ts:16-44 | with no `match`, removing at a path holding a node is exactly one apply of that node's `remove_node` |
| RemoveNodesTransform.RemoveMissing | src/core/transforms/remove-nodes.ts:16-20 | with no `match` and no node at the path, nothing is sent, the document is unchanged and the run fails |
| RemoveNodesTransform.RemoveNodes | src/core/transforms/remove-nodes.ts:5-48 | `removeNodes` in the editor gives exactly `RemoveEffect`; the caller's refs follow every operation sent; when it finishes, the refs it took are released |
| RemoveNodesTransform.RemoveEach | src/core/transforms/remove-nodes.ts:27-46 | the loop over the transform's refs gives exactly `RemoveFrom` on the paths they were taken on |
| RemoveNodesTransform.RemoveNext | src/core/transforms/remove-nodes.ts:28-44 | one turn releases the `i`-th ref and removes its node; the run goes on with the other refs' paths carried through what was sent, or ends with its failure |
| SetNodesTransform.CompareOr | src/core/transforms/set-nodes.ts:28-30 | without a `compare`, a key counts as changed exactly when the values differ |
| SetNodesTransform.SetResult | src/core/transforms/set-nodes.ts:46-70 | after the built `set_node`, a key that did not compare as changed keeps its value or its absence; a changed key holds its new (or merged) value, or is gone when either is nullish; `newProperties` never names `children` or `text` |
| SetNodesTransform.SetOpShape | src/core/transforms/set-nodes.ts:39-70 | no operation exactly for the root or when no key changed; otherwise a `set_node` at the entry's path, which applies without error wherever a node is found at that path |
| SetNodesTransform.SetFromSends | src/core/transforms/set-nodes.ts:32-71 | every operation the loop sends is a `set_node` at a non-root path, at most one per entry |
| SetNodesTransform.Diff | src/core/transforms/set-nodes.ts:46-61 | the key loop fills `properties` with the old values of the changed keys the node owns, `newProperties` with their non-nullish new values, and notes a change exactly when some key changed |
| SetNodesTransform.DiffKey | src/core/transforms/set-nodes.ts:47-60 | one key's turn extends the three records exactly as the specification does for that key |
| SetNodesTransform.DiffStep | src/core/transforms/set-nodes.ts:47-60 | one key more: the records grow by that key exactly when it compares as changed and is neither `children` nor `text` |
| SetNodesTransform.SetNodes | src/core/transforms/set-nodes.ts:10-73 | `setNodes` in the editor gives exactly `SetEffect`, every live ref follows, and no ref is taken |
| SetNodesTransform.SetEach | src/core/transforms/set-nodes.ts:32-71 | the loop over the targets, each compared with the snapshot the walk yielded, gives exactly `SetFrom` |
| SetNodesTransform.SetNext | src/core/transforms/set-nodes.ts:36-70 | one turn skips the root, compares the keys and applies a change; the run goes on from there or ends with its failure |
| UnsetNodesTransform.NullProps | src/core/transforms/unset-nodes.ts:10-16 | the object holds exactly the given keys, each mapped to `null` |
| UnsetNodesTransform.UnsetDeletes | src/core/transforms/unset-nodes.ts:5-19 | with the default `compare`, the `set_node` records in `properties` exactly the named keys (other than `children` and `text`) that the node owns with a non-null value, with those values, and sets nothing new; afterwards such a key is gone, a key held as `null` stays, and every other key is as it was |
| UnsetNodesTransform.BuildNullProps | src/core/transforms/unset-nodes.ts:14-16 | the loop builds exactly `NullProps` |
| UnsetNodesTransform.UnsetNodes | src/core/transforms/unset-nodes.ts:5-19 | `unsetNodes` in the editor gives exactly `UnsetEffect`, and every live ref follows |
| MoveNodesTransform.MovedTo | src/core/transforms/move-nodes.ts:28-44 | a `move_node` always carries the destination path to some path, so the destination ref is never released by a move |
| MoveNodesTransform.MoveSingle | src/core/transforms/move-nodes.ts:26-53 | with no `match`, moving a non-root node to a path that is not its later sibling is exactly one apply of that `move_node`; moving the root sends nothing and succeeds |
| MoveNodesTransform.MoveAtSends | src/core/transforms/move-nodes.ts:30-32 | one turn sends exactly the `move_node` of the path to the destination for a non-root path, and nothing for the root |
| MoveNodesTransform.MoveFromSends | src/core/transforms/move-nodes.ts:26-53 | every operation the loop sends is a `move_node` of a non-root path, at most one per ref, and the first goes to `to` |
| MoveNodesTransform.MoveNodes | src/core/transforms/move-nodes.ts:6-57 | `moveNodes` in the editor gives exactly `MoveEffect`; the caller's refs follow every operation sent; when it finishes, the refs it took are released |
| MoveNodesTransform.MoveRun | src/core/transforms/move-nodes.ts:20-55 | the destination ref, the target refs and the loop over them give exactly `MoveFrom` on the targets' paths |
| MoveNodesTransform.MoveEach | src/core/transforms/move-nodes.ts:26-53 | the loop over the target refs, with the destination ref beside them, gives exactly `MoveFrom` |
| MoveNodesTransform.MoveNext | src/core/transforms/move-nodes.ts:27-52 | one turn releases the `i`-th ref and moves its node; the run goes on with the carried paths and destination, or ends with its failure |
| MoveNodesTransform.MoveStep | src/core/transforms/move-nodes.ts:28-52 | the move of one target and the advance of the destination ref after a move to a later sibling, exactly as `MoveAt` describes |
| LiftNodesTransform.PlacementOf | src/core/transforms/lift-nodes.ts:72-113 | the only-child case exactly when the parent has one child; else the first-child case exactly at index 0; else the last-child case exactly at the last index; otherwise the interior case |
| LiftNodesTransform.LiftShallowStops | src/core/transforms/lift-nodes.ts:47-55 | a target with fewer than two indexes ends the run with the "depth of less than `2`" error, sending nothing |
| LiftNodesTransform.LiftOnlyChild | src/core/transforms/lift-nodes.ts:72-84 | an only child moves to the slot after its parent, and then the emptied parent is removed |
| LiftNodesTransform.LiftFirstChild | src/core/transforms/lift-nodes.ts:85-86 | a first child of several moves to its parent's path, in front of the parent |
| LiftNodesTransform.LiftLaterChild | src/core/transforms/lift-nodes.ts:87-113 | a last or interior child moves to the slot after its parent |
| LiftNodesTransform.LiftNodes | src/core/transforms/lift-nodes.ts:13-116 | `liftNodes` in the editor gives exactly `LiftEffect`; the caller's refs follow every operation sent |
| LiftNodesTransform.LiftEach | src/core/transforms/lift-nodes.ts:35-114 | the loop over the transform's refs gives exactly `LiftFrom` on the paths they were taken on |
| LiftNodesTransform.LiftNext | src/core/transforms/lift-nodes.ts:35-114 | one turn releases the `i`-th ref and lifts its node; the run goes on with the other paths carried, or ends with its failure |
| LiftNodesTransform.LiftStep | src/core/transforms/lift-nodes.ts:47-113 | the lift of one node, exactly as `LiftAt` describes |
| LiftNodesTransform.MoveCarrying | src/core/transforms/lift-nodes.ts:82-110 | the `moveNodes` call inside the lift gives exactly `MoveEffect` while the lift's own refs follow |
| LiftNodesTransform.RemoveCarrying | src/core/transforms/lift-nodes.ts:83 | the `removeNodes` call inside the lift gives exactly `RemoveEffect` while the lift's own refs follow |
| UnwrapNodesTransform.UnwrapPaths | src/core/transforms/unwrap-nodes.ts:36-43 | the refs are taken on the targets' paths in reverse order, the deepest and last first |
| UnwrapNodesTransform.UnwrapSingle | src/core/transforms/unwrap-nodes.ts:59-75 | unwrapping one existing node is exactly lifting the children of that node |
| UnwrapNodesTransform.UnwrapMissingStops | src/core/transforms/unwrap-nodes.ts:45-57 | a released ref or a path with no node ends the run with the "could not be found" error, sending nothing |
| UnwrapNodesTransform.UnwrapMatchesChildren | src/core/transforms/unwrap-nodes.ts:71-75 | the `children.includes` match accepts an entry exactly when its path is one level below the unwrapped node's path |
| UnwrapNodesTransform.UnwrapNodes | src/core/transforms/unwrap-nodes.ts:14-77 | `unwrapNodes` in the editor gives exactly `UnwrapEffect`; the caller's refs follow every operation sent |
| UnwrapNodesTransform.UnwrapEach | src/core/transforms/unwrap-nodes.ts:44-76 | the loop over the transform's refs gives exactly `UnwrapFrom` on the paths they were taken on |
| UnwrapNodesTransform.UnwrapNext | src/core/transforms/unwrap-nodes.ts:44-76 | one turn releases the `i`-th ref and unwraps its node; the run goes on with the other paths carried, or ends with its failure |
| UnwrapNodesTransform.LiftCarrying | src/core/transforms/unwrap-nodes.ts:71-75 | the `liftNodes` call inside the unwrap gives exactly `LiftEffect` while the unwrap's own refs follow |
| WrapNodesTransform.Wrapper | src/core/transforms/wrap-nodes.ts:79 | the wrapper is an element with the given element's properties and no children |
| WrapNodesTransform.WrapSingle | src/core/transforms/wrap-nodes.ts:52-67 | a single non-root match gets its wrapper at the slot right after it |
| WrapNodesTransform.WrapperAfterLast | src/core/transforms/wrap-nodes.ts:52-77 | for several matches whose first and last paths differ and the last is not a prefix of the first, the wrapper goes one level below their common path, right after the last match's ancestor at that depth |
| WrapNodesTransform.CommonBelowLast | src/core/interfaces/tree-path.ts:31-46 | the common initial segment of two distinct paths, the second not a prefix of the first, is a strict initial segment of the second |
| WrapNodesTransform.WrapNodes | src/core/transforms/wrap-nodes.ts:10-89 | `wrapNodes` in the editor gives exactly `WrapEffect`; the caller's refs follow every operation sent |
| WrapNodesTransform.WrapEach | src/core/transforms/wrap-nodes.ts:36-87 | the loop over the editor roots gives exactly `WrapFrom` |
| WrapNodesTransform.WrapStep | src/core/transforms/wrap-nodes.ts:37-85 | one root's matches wrapped exactly as `WrapAt` describes |
| WrapNodesTransform.WrapIntoStep | src/core/transforms/wrap-nodes.ts:79-85 | the wrapper is inserted and the matched nodes moved into it, exactly as `WrapInto` describes |
| WrapNodesTransform.InsertFollowing | src/core/transforms/wrap-nodes.ts:80 | the `insertNodes` call gives exactly `InsertEffect` of the one wrapper at the wrapper path |
| WrapNodesTransform.MoveFollowing | src/core/transforms/wrap-nodes.ts:82-85 | the `moveNodes` call gives exactly `MoveEffect` of `at` to the wrapper's first child slot |

## Left out

- The React bindings, the plugin wiring outside `withTreeHistory`, and every I/O path are not part of this model.
- A host-supplied `onError` is not modelled: only the default policy is, so every transform error ends the run. The `data` objects of error reports are not modelled, only the key and message.
- The microtask that `apply` schedules becomes an explicit `Flush` method. The model keeps the scheduled operation in a field and does not model promise timing.
- The callbacks of `withoutSaving` and `withoutMerging` are modelled as a sequence of operations applied through the editor. Arbitrary code in the callback is not modelled.
- Node identity is modelled by path within one snapshot. This covers the visited set of `nodes`, `matchTreePath` and the `children.includes` match of `unwrapNodes`. It is exact while every node object sits at one place in the tree; shared or repeated node objects are not modelled.
- InsertNodesTransform.InsertNodes: `at` is a path only. A span `at` is not modelled.
- `insertNodes.next` and `moveNodes.next` are reports for a path with no next path. `TreePaths.next` always has one for a non-empty path, so these branches are modelled but cannot fire.
- The commonPath and wrapperPath reports of `wrapNodes` are modelled as the code has them, though no list of matches reaches them.
- A released target ref in `moveNodes` (`unref()!`) is modelled as the `length` read on `null` throwing. A `move_node` never releases the destination ref (`MoveNodesTransform.MovedTo`), so a null `toRef.current` cannot occur and is not modelled.
- LiftNodesTransform.LiftLaterChild: an interior child moves after its parent without splitting the parent, as the code does. The `splitNodes` call is commented out in the source.
- WrapNodesTransform.WrapIntoStep: the move into the wrapper uses the default match of `at`, not the caller's match, as the code does.
- UnwrapNodesTransform.UnwrapNodes: the model takes the refs on the reversed list of targets. The source takes them in document order and then reverses the array. Both visit the last target first, and the order in which refs are made is not observable in the model.
- SetNodesTransform.SetNodes: the lazy walk of `nodes` is modelled by the list of entries it yields over the document at the start. A `set_node` changes no path and only the properties of the entry just yielded, so the later entries are the same.
- GeneralTransforms.ApplySet: the checks for `children`, `text` and the root come before any change. A `set_node` whose key order puts a valid key before an error key changes that key first in the source; that partial update is not modelled.
- UnsetNodesTransform.UnsetDeletes: a key the node holds as `null` compares as unchanged and so stays `null`. The contract states this literally; the model does not clear it.
- GeneralTransforms.InsertKeeps, GeneralTransforms.RemoveKeeps, GeneralTransforms.MoveKeeps: negative indexes, which JavaScript `splice` counts from the end, are excluded from these lemmas. The functions themselves model them.
- TreeTraversal.NodesComplete, TreeTraversal.NodesYieldIff: they require non-negative indexes in `from`. Forwards, a negative index in `from` sends the walk to a child that does not exist, and the walk can then skip later siblings; which nodes it yields then is not stated.
- TreeTraversal.Nodes: a reverse walk from a path with a negative index loops forever in the source. The walk requires non-negative indexes when reversed (`Ready`), and so do `EditorQueries.EditorNodes` and `EditorQueries.FindNode` on a reverse walk.
- EditorQueries.PreviousEntry: requires non-negative indexes in `at`, for the same reason.
- EditorQueries.NextEntry, EditorQueries.PreviousEntry: `at` is a path only. A span `at`, for which src/core/editor/next.ts:47-49 and src/core/editor/previous.ts:51-53 fall back to a match that accepts every node, is not modelled.
- Runtime `TypeError` messages, such as the one for destructuring `undefined`, are modelled by the text V8 gives them; other engines word them differently.
- InsertNodesTransform.InsertTarget: with a `match`, the contract states that the result is `at` or an accepted node's path, not that it is the first such node in the walk.
- Refs that a transform takes and that the run then abandons by throwing stay live in the source. The transform methods state the caller's refs exactly, and their own refs only when the run ends `Done`.
- Integer width: indexes and numbers are unbounded `int`. JavaScript's doubles are not modelled, and no index here comes near 2^53.

## Findings

| source | as written | input that shows it | evidently intended | confidence | as-written member | corrected member |
|---|---|---|---|---|---|---|
| src/core/editor-extension/sibling.ts:47-53 | the forward branch tests only `targetIndex < length - 1`, so a `targetIndex` of -1 (the target is not on its level) lets the search return the first node of the level | a level whose nodes do not include the target, searched forward | a target missing from the level yields no sibling, in both directions | not executed | EditorExtensions.SiblingOfMissingTarget | EditorExtensions.SiblingOfFoundMissingTarget |
