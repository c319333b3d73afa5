/** Trees as immutable values, and the order in which a last-in-first-out
    traversal stack yields their nodes. */
module Trees {

  /** A node: its payload and its direct children in declared order. The
      `children` field stands for the one operation a traversable type
      supplies. */
  datatype Tree<V> = Node(value: V, children: seq<Tree<V>>)

  /** Number of nodes in the subtree rooted at `t`. */
  function Size<V>(t: Tree<V>): (n: nat)
    ensures n >= 1
  {
    1 + ForestSize(t.children)
  }

  /** Number of nodes in all the subtrees of `ts`, counted from the last
      element, the end a stack pops from. */
  function ForestSize<V>(ts: seq<Tree<V>>): nat
  {
    if ts == [] then 0 else ForestSize(ts[..|ts| - 1]) + Size(ts[|ts| - 1])
  }

  /** The nodes a traversal started at `t` yields, in order: `t` itself, then
      what its children yield once they are pushed, in declared order, onto an
      otherwise empty stack. */
  function Expected<V>(t: Tree<V>): seq<Tree<V>>
    decreases Size(t), 0
  {
    [t] + Pending(t.children)
  }

  /** The nodes a traversal stack still yields, in order: everything the top
      (last) element yields, then everything the rest of the stack yields. */
  function Pending<V>(stack: seq<Tree<V>>): seq<Tree<V>>
    decreases ForestSize(stack), 1
  {
    if stack == [] then []
    else Expected(stack[|stack| - 1]) + Pending(stack[..|stack| - 1])
  }

  /** Textbook pre-order, the reference: a node, then the pre-orders of its
      children in declared order. */
  function PreOrder<V>(t: Tree<V>): seq<Tree<V>>
    decreases Size(t), 0
  {
    [t] + PreOrderAll(t.children)
  }

  /** The pre-orders of `ts`, concatenated in declared order. */
  function PreOrderAll<V>(ts: seq<Tree<V>>): seq<Tree<V>>
    decreases ForestSize(ts), 1
  {
    if ts == [] then []
    else PreOrderAll(ts[..|ts| - 1]) + PreOrder(ts[|ts| - 1])
  }

  /** The mirror image of `t`: every node's children in reverse order. */
  function Mirror<V>(t: Tree<V>): Tree<V>
    decreases Size(t), 0
  {
    Node(t.value, MirrorAll(t.children))
  }

  /** The mirror images of `ts`, in reverse order. */
  function MirrorAll<V>(ts: seq<Tree<V>>): seq<Tree<V>>
    decreases ForestSize(ts), 1
  {
    if ts == [] then []
    else [Mirror(ts[|ts| - 1])] + MirrorAll(ts[..|ts| - 1])
  }

  /** `Mirror` applied to every element of `s`. */
  function MapMirror<V>(s: seq<Tree<V>>): seq<Tree<V>>
  {
    seq(|s|, i requires 0 <= i < |s| => Mirror(s[i]))
  }

  /** The payloads of `s`, in order. */
  function Values<V>(s: seq<Tree<V>>): seq<V>
  {
    seq(|s|, i requires 0 <= i < |s| => s[i].value)
  }

  // ---------------------------------------------------------------------
  // Counting: a traversal yields as many nodes as the tree has.

  lemma {:induction false} ExpectedLength<V>(t: Tree<V>)
    ensures |Expected(t)| == Size(t)
    decreases Size(t), 0
  {
    PendingLength(t.children);
  }

  lemma {:induction false} PendingLength<V>(stack: seq<Tree<V>>)
    ensures |Pending(stack)| == ForestSize(stack)
    decreases ForestSize(stack), 1
  {
    if stack != [] {
      ExpectedLength(stack[|stack| - 1]);
      PendingLength(stack[..|stack| - 1]);
    }
  }

  // ---------------------------------------------------------------------
  // One step of the stack: pop the top, push its children.

  lemma {:induction false} ForestSizeAppend<V>(a: seq<Tree<V>>, b: seq<Tree<V>>)
    ensures ForestSize(a + b) == ForestSize(a) + ForestSize(b)
    decreases |b|
  {
    if b == [] {
      assert a + b == a;
    } else {
      var n := |b| - 1;
      assert (a + b)[..|a + b| - 1] == a + b[..n];
      ForestSizeAppend(a, b[..n]);
    }
  }

  /** Pushing `b` on top of `a`: all of `b` is yielded before any of `a`. */
  lemma {:induction false} PendingAppend<V>(a: seq<Tree<V>>, b: seq<Tree<V>>)
    ensures Pending(a + b) == Pending(b) + Pending(a)
    decreases |b|
  {
    if b == [] {
      assert a + b == a;
    } else {
      var n := |b| - 1;
      assert (a + b)[..|a + b| - 1] == a + b[..n];
      PendingAppend(a, b[..n]);
    }
  }

  /** Popping `top` off a stack and pushing its children yields `top`,
      followed by exactly what the old stack yielded after it, and removes
      exactly one node from the stack's subtrees. */
  lemma PendingStep<V>(rest: seq<Tree<V>>, top: Tree<V>)
    ensures Pending(rest + [top]) == [top] + Pending(rest + top.children)
    ensures ForestSize(rest + [top]) == ForestSize(rest + top.children) + 1
  {
    var stack := rest + [top];
    assert stack[..|stack| - 1] == rest;
    PendingAppend(rest, top.children);
    ForestSizeAppend(rest, top.children);
  }

  // ---------------------------------------------------------------------
  // Every node exactly once: the traversal is a permutation of the
  // pre-order list of the tree's nodes.

  lemma {:induction false} ExpectedIsPermutation<V>(t: Tree<V>)
    ensures multiset(Expected(t)) == multiset(PreOrder(t))
    decreases Size(t), 0
  {
    PendingIsPermutation(t.children);
  }

  lemma {:induction false} PendingIsPermutation<V>(stack: seq<Tree<V>>)
    ensures multiset(Pending(stack)) == multiset(PreOrderAll(stack))
    decreases ForestSize(stack), 1
  {
    if stack != [] {
      ExpectedIsPermutation(stack[|stack| - 1]);
      PendingIsPermutation(stack[..|stack| - 1]);
    }
  }

  // ---------------------------------------------------------------------
  // Sibling order: the traversal is the pre-order of the mirror image.

  lemma {:induction false} PreOrderAllAppend<V>(a: seq<Tree<V>>, b: seq<Tree<V>>)
    ensures PreOrderAll(a + b) == PreOrderAll(a) + PreOrderAll(b)
    decreases |b|
  {
    if b == [] {
      assert a + b == a;
    } else {
      var n := |b| - 1;
      assert (a + b)[..|a + b| - 1] == a + b[..n];
      PreOrderAllAppend(a, b[..n]);
    }
  }

  lemma MapMirrorAppend<V>(a: seq<Tree<V>>, b: seq<Tree<V>>)
    ensures MapMirror(a + b) == MapMirror(a) + MapMirror(b)
  {
  }

  lemma {:induction false} MirrorAllAppend<V>(a: seq<Tree<V>>, b: seq<Tree<V>>)
    ensures MirrorAll(a + b) == MirrorAll(b) + MirrorAll(a)
    decreases |b|
  {
    if b == [] {
      assert a + b == a;
    } else {
      var n := |b| - 1;
      assert (a + b)[..|a + b| - 1] == a + b[..n];
      MirrorAllAppend(a, b[..n]);
    }
  }

  /** Mirroring twice gives the tree back, so the mirrored pre-order below
      determines the traversal order exactly. */
  lemma {:induction false} MirrorInvolution<V>(t: Tree<V>)
    ensures Mirror(Mirror(t)) == t
    decreases Size(t), 0
  {
    MirrorAllInvolution(t.children);
  }

  lemma {:induction false} MirrorAllInvolution<V>(ts: seq<Tree<V>>)
    ensures MirrorAll(MirrorAll(ts)) == ts
    decreases ForestSize(ts), 1
  {
    if ts != [] {
      var top, rest := ts[|ts| - 1], ts[..|ts| - 1];
      var single := [Mirror(top)];
      MirrorAllAppend(single, MirrorAll(rest));
      assert single[..0] == [];
      assert MirrorAll(single) == [Mirror(Mirror(top))];
      MirrorInvolution(top);
      MirrorAllInvolution(rest);
      assert rest + [top] == ts;
    }
  }

  /** A node's later-declared children come out before its earlier ones:
      mirroring every node of the traversal gives the textbook pre-order of
      the mirrored tree. */
  lemma {:induction false} ExpectedIsMirroredPreOrder<V>(t: Tree<V>)
    ensures MapMirror(Expected(t)) == PreOrder(Mirror(t))
    decreases Size(t), 0
  {
    MapMirrorAppend([t], Pending(t.children));
    PendingIsMirroredPreOrder(t.children);
  }

  lemma {:induction false} PendingIsMirroredPreOrder<V>(stack: seq<Tree<V>>)
    ensures MapMirror(Pending(stack)) == PreOrderAll(MirrorAll(stack))
    decreases ForestSize(stack), 1
  {
    if stack != [] {
      var top, rest := stack[|stack| - 1], stack[..|stack| - 1];
      MapMirrorAppend(Expected(top), Pending(rest));
      ExpectedIsMirroredPreOrder(top);
      PendingIsMirroredPreOrder(rest);
      PreOrderAllAppend([Mirror(top)], MirrorAll(rest));
      assert [Mirror(top)][..0] == [];
    }
  }

  /** The traversal order, recovered from the textbook pre-order alone: take
      the pre-order of the mirrored tree and mirror every node back. */
  lemma ExpectedFromMirror<V>(t: Tree<V>)
    ensures Expected(t) == MapMirror(PreOrder(Mirror(t)))
  {
    ExpectedIsMirroredPreOrder(t);
    forall i | 0 <= i < |Expected(t)|
      ensures Mirror(Mirror(Expected(t)[i])) == Expected(t)[i]
    {
      MirrorInvolution(Expected(t)[i]);
    }
  }

  // ---------------------------------------------------------------------
  // Depth first: every yielded node is immediately followed by the whole
  // traversal of its own subtree, so it comes before all its descendants.

  lemma {:induction false} SubtreeFollows<V>(t: Tree<V>, i: nat)
    requires i < |Expected(t)|
    ensures i + Size(Expected(t)[i]) <= |Expected(t)|
    ensures Expected(t)[i..i + Size(Expected(t)[i])] == Expected(Expected(t)[i])
    decreases Size(t), 0
  {
    ExpectedLength(t);
    if i > 0 {
      var p := Pending(t.children);
      assert Expected(t)[i] == p[i - 1];
      PendingSubtreeFollows(t.children, i - 1);
      assert Expected(t)[i..i + Size(p[i - 1])] == p[i - 1..i - 1 + Size(p[i - 1])];
    }
  }

  lemma {:induction false} PendingSubtreeFollows<V>(stack: seq<Tree<V>>, i: nat)
    requires i < |Pending(stack)|
    ensures i + Size(Pending(stack)[i]) <= |Pending(stack)|
    ensures Pending(stack)[i..i + Size(Pending(stack)[i])] == Expected(Pending(stack)[i])
    decreases ForestSize(stack), 1
  {
    var top, rest := stack[|stack| - 1], stack[..|stack| - 1];
    var e, p := Expected(top), Pending(rest);
    assert Pending(stack) == e + p;
    if i < |e| {
      SubtreeFollows(top, i);
      assert (e + p)[i..i + Size(e[i])] == e[i..i + Size(e[i])];
    } else {
      var j := i - |e|;
      PendingSubtreeFollows(rest, j);
      assert (e + p)[i..i + Size(p[j])] == p[j..j + Size(p[j])];
    }
  }
}
