# Depth-first tree iterator

This project models `rust-tree`, a small Rust library for generic depth-first traversal. Any type
that can list its direct children (the `Tree` trait) gets `df_traverse`. That call returns a
`TreeIter`, an iterator that keeps a stack (`Vec<&T>`) of pending nodes. Each call to `next`:

1. pops the most recently pushed node;
2. pushes that node's children in the order they are yielded;
3. returns the popped node.

An empty stack yields `None`, and the stack then stays empty.

Files:

- `wrappers.dfy` (module `Wrappers`): `Option`, the result of one iterator step.
- `trees.dfy` (module `Trees`): the node datatype, and functions for the order a stack yields.
  - `Tree<V> = Node(value, children)`. The `children` field stands for the trait method.
  - `Expected(t)`: the traversal of one tree, i.e. the root, then its children's traversals in
    reverse of their declared order.
  - `Pending(stack)`: what a whole stack still yields, i.e. the top's traversal, then the rest's.
  - `PreOrder(t)`: the textbook pre-order in declared order, used as an independent reference.
  - `Mirror(t)`: the tree with every node's children reversed.
  - The lemmas connecting these definitions.
- `iterator.dfy` (module `TreeIterator`):
  - the class `TreeIter`, whose `stack: seq<Tree<V>>` field is updated in place by `Next`;
  - `CollectRemaining`, the drain loop behind `collect`;
  - client methods for the properties of a fresh traversal and the test tree of the repository.

`TreeIter` is specified through two ghost functions:

- `Remaining()` is `Pending(stack)`, the exact sequence the iterator will still yield.
- `Count()` is the number of nodes in the subtrees on the stack.

Every `Next` removes the first element of `Remaining()` and returns it, and lowers `Count()` by
exactly one. Therefore draining a fresh iterator yields exactly `Expected(root)`, with
`Size(root)` elements. Those elements are a permutation of the tree's pre-order list.

## Model

| member | source | states |
|---|---|---|
| `TreeIterator.TreeIter.constructor` | src/lib.rs:8-12 | `df_traverse`: the stack holds exactly the root; the iterator will yield exactly `Expected(root)`, and its subtrees hold `Size(root)` nodes |
| `TreeIterator.TreeIter.Next` | src/lib.rs:20-27 | `None` iff the stack was empty, and then the stack stays empty (exhaustion is terminal). Otherwise it returns the last stack element (LIFO), and the new stack is the old one without its last element followed by that node's children in declared order. The returned node is the head of what remained, and the rest is what remains now. The node count on the stack drops by exactly one |
| `TreeIterator.TreeIter.CollectRemaining` | src/lib.rs:79 | draining the iterator with `Next` until `None` yields exactly what remained, and leaves the stack empty |
| `TreeIterator.Collect` | src/lib.rs:8-27 | a fresh traversal collects `Expected(root)`: `Size(root)` nodes, the root first, and a permutation of the tree's pre-order list (every node as often as it occurs in the tree) |
| `TreeIterator.FirstIsRoot` | src/lib.rs:8-26 | the first `next` of a fresh iterator returns the root |
| `TreeIterator.LeafTraversal` | src/lib.rs:21-25 | a root with no children is yielded once, and the next call returns `None` |
| `TreeIterator.RestartIndependence` | src/lib.rs:8-12 | two iterators built from the same root share no state: draining one and then the other yields the same sequence twice |
| `TreeIterator.DfTraversal` | src/lib.rs:50-80 | the test tree (0 with children [4 with child 5, 1 with children [3, 2]]) yields the values 0, 1, 2, 3, 4, 5 in that order |
| `Trees.PendingStep` | src/lib.rs:21-25 | popping the top `top` off a stack `rest + [top]` and pushing its children yields the top, followed by exactly what the old stack yielded after it. It removes exactly one node from the stack's subtrees |
| `Trees.PendingAppend` | src/lib.rs:25 | children pushed on top of a stack are all yielded before anything under them: `Pending(a + b) == Pending(b) + Pending(a)` |
| `Trees.ExpectedLength` | src/lib.rs:20-27 | a traversal yields exactly as many nodes as the tree has, so it ends after that many steps |
| `Trees.PendingLength` | src/lib.rs:20-27 | a stack yields exactly as many nodes as its subtrees hold |
| `Trees.ExpectedIsPermutation` | src/lib.rs:20-27 | the traversal is a permutation of the pre-order list: every node is produced exactly as often as it occurs in the tree |
| `Trees.PendingIsPermutation` | src/lib.rs:20-27 | what a stack yields is a permutation of its subtrees' pre-order lists |
| `Trees.ExpectedIsMirroredPreOrder` | src/lib.rs:21-26 | siblings come out in reverse of their declared order: mirroring every yielded node gives exactly the pre-order of the mirrored tree |
| `Trees.PendingIsMirroredPreOrder` | src/lib.rs:21-26 | the same for a whole stack: its yield, mirrored, is the pre-order of its mirrored elements taken from the top down |
| `Trees.MirrorInvolution` | src/lib.rs:21-26 | mirroring a tree twice gives it back; `ExpectedFromMirror` uses this to fix the sibling-reversed order exactly |
| `Trees.MirrorAllInvolution` | src/lib.rs:21-26 | the same for a sequence of siblings: mirroring and reversing twice gives the sequence back |
| `Trees.ExpectedFromMirror` | src/lib.rs:21-26 | the traversal order is fixed exactly by the textbook pre-order: it is the pre-order of the mirrored tree with every node mirrored back |
| `Trees.SubtreeFollows` | src/lib.rs:21-26 | depth first: every yielded node is immediately followed by its own subtree's complete traversal. So every ancestor precedes all its descendants, and a subtree is finished before anything else is visited |
| `Trees.PendingSubtreeFollows` | src/lib.rs:21-26 | the same for what a whole stack yields |

## Left out

- Lifetimes and borrowing (`'a`, `&'a Self`): nodes are immutable datatype values, and the stack holds values, not references. Two equal subtrees are therefore the same value. "Exactly once" is stated as a multiset equality with the pre-order list, which counts every occurrence.
- Laziness of the `children` iterator: children are a finite `seq`, pushed eagerly as `extend` does.
- Genericity over any `T: Tree`: one node datatype with a generic payload stands for every implementing type whose `children` form a finite tree.
- Infinite or cyclic child structures: the trait does not forbid them (children can lead back to an ancestor through shared links), and then `next` never returns `None` and `collect` never returns. The datatype expresses only finite, acyclic trees, so the termination of `CollectRemaining`, the `Size(root)` length in `Collect` and `ExpectedLength`, and the bounded number of steps cover finite trees only. The lazy use of a prefix of an infinite traversal is not modelled.
- The nightly feature attribute, and the test-only `Debug` and `PartialEq<u32>` implementations. The test compares `value` fields directly, and `u32` payloads are `nat`s; the test never does arithmetic on them.
- `Vec` capacity growth and reallocation: the stack is a sequence without a capacity limit.
