/** The depth-first iterator: a stack of pending nodes that every step pops
    one node from and pushes that node's children onto. */
module TreeIterator {
  import opened Wrappers
  import opened Trees

  class TreeIter<V> {
    /** The pending nodes; the last element is the top of the stack. */
    var stack: seq<Tree<V>>

    /** What the iterator will still yield, in order. */
    ghost function Remaining(): seq<Tree<V>>
      reads this
    {
      Pending(stack)
    }

    /** How many nodes the subtrees on the stack hold together. */
    ghost function Count(): nat
      reads this
    {
      ForestSize(stack)
    }

    /** `df_traverse`: an iterator whose stack holds only the root, and that
        will therefore yield exactly the root's traversal. */
    constructor (root: Tree<V>)
      ensures stack == [root]
      ensures Remaining() == Expected(root)
      ensures Count() == Size(root)
    {
      var s := [root];
      assert Pending(s) == Expected(root) + Pending(s[..0]);
      assert ForestSize(s) == ForestSize(s[..0]) + Size(root);
      stack := s;
    }

    /** One step: pop the top of the stack, push its children in their
        declared order, and return the popped node; `None` once the stack is
        empty, which leaves it empty. */
    method Next() returns (r: Option<Tree<V>>)
      modifies this
      ensures r.None? <==> old(stack) == []
      ensures r.None? ==> stack == []
      ensures r.Some? ==> r.value == old(stack)[|old(stack)| - 1]
      ensures r.Some? ==> stack == old(stack)[..|old(stack)| - 1] + r.value.children
      ensures old(Remaining()) == (if r.Some? then [r.value] else []) + Remaining()
      ensures r.Some? ==> Count() + 1 == old(Count())
    {
      if stack == [] {
        return None;
      }
      var node := stack[|stack| - 1];
      PendingStep(stack[..|stack| - 1], node);
      assert stack == stack[..|stack| - 1] + [node];
      stack := stack[..|stack| - 1];
      stack := stack + node.children;
      r := Some(node);
    }

    /** `collect`: call `Next` until it returns `None`, keeping every node
        it yields. */
    method CollectRemaining() returns (out: seq<Tree<V>>)
      modifies this
      ensures out == old(Remaining())
      ensures stack == []
    {
      out := [];
      while true
        invariant out + Remaining() == old(Remaining())
        decreases Count()
      {
        var r := Next();
        if r.None? {
          break;
        }
        out := out + [r.value];
      }
    }
  }

  /** Collecting a fresh traversal yields the root first, every node of the
      tree exactly as often as it occurs in it, and in the order `Expected`
      describes. */
  method Collect<V>(root: Tree<V>) returns (out: seq<Tree<V>>)
    ensures out == Expected(root)
    ensures |out| == Size(root) && out[0] == root
    ensures multiset(out) == multiset(PreOrder(root))
  {
    var it := new TreeIter(root);
    out := it.CollectRemaining();
    ExpectedLength(root);
    ExpectedIsPermutation(root);
  }

  /** The first step of a fresh traversal yields the root. */
  method FirstIsRoot<V>(root: Tree<V>) returns (first: Option<Tree<V>>)
    ensures first == Some(root)
  {
    var it := new TreeIter(root);
    first := it.Next();
  }

  /** Two iterators over the same root do not share state: draining one
      leaves the other to yield the same sequence. */
  method RestartIndependence<V>(root: Tree<V>) returns (first: seq<Tree<V>>, second: seq<Tree<V>>)
    ensures first == second == Expected(root)
  {
    var a := new TreeIter(root);
    var b := new TreeIter(root);
    first := a.CollectRemaining();
    second := b.CollectRemaining();
  }

  /** A leaf root is yielded alone, after which the iterator is exhausted. */
  method LeafTraversal<V>(v: V) returns (first: Option<Tree<V>>, second: Option<Tree<V>>)
    ensures first == Some(Node(v, [])) && second == None
  {
    var it := new TreeIter(Node(v, []));
    first := it.Next();
    second := it.Next();
  }

  /** The test tree: root 0 with children [4, 1]; 4 has the one child 5; 1
      has the children [3, 2]. */
  function TestTree(): Tree<nat>
  {
    Node(0, [Node(4, [Node(5, [])]), Node(1, [Node(3, []), Node(2, [])])])
  }

  /** Collecting the test tree's traversal yields the values 0 to 5 in
      order: siblings come out in reverse of their declared order. */
  method DfTraversal() returns (values: seq<nat>)
    ensures values == [0, 1, 2, 3, 4, 5]
  {
    var out := Collect(TestTree());
    values := Values(out);
  }
}
