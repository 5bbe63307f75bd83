/**
  A tree of shared, immutable nodes in which every node caches the summary of
  the items below it. Nodes are values (an `Arc` is never mutated through);
  the tree object itself owns the root and `push` replaces it.
 */
module SumTrees {
  import opened Options
  import opened Summaries

  datatype Node<T, S> =
    | Leaf(items: seq<T>, summary: S)
    | Internal(children: seq<Node<T, S>>, summary: S)

  /** The items below a node, left to right. */
  function NodeItems<T, S>(n: Node<T, S>): seq<T>
    decreases n
  {
    match n
    case Leaf(items, _) => items
    case Internal(children, _) => ChildrenItems(children)
  }

  function ChildrenItems<T, S>(cs: seq<Node<T, S>>): seq<T>
    decreases cs
  {
    if cs == [] then [] else NodeItems(cs[0]) + ChildrenItems(cs[1..])
  }

  /** The summary of a sequence of items: their measures combined left to right. */
  function Fold<T, S>(m: Monoid<T, S>, xs: seq<T>): S
  {
    if xs == [] then m.identity else m.combine(m.measure(xs[0]), Fold(m, xs[1..]))
  }

  /** The cached summaries of a sequence of nodes combined left to right. */
  function SumSummaries<T, S>(m: Monoid<T, S>, cs: seq<Node<T, S>>): S
  {
    if cs == [] then m.identity else m.combine(cs[0].summary, SumSummaries(m, cs[1..]))
  }

  /** Every leaf caches the sum over its items and every internal node the sum over its children. */
  ghost predicate WellFormed<T, S>(m: Monoid<T, S>, n: Node<T, S>)
    decreases n
  {
    match n
    case Leaf(items, summary) => summary == Fold(m, items)
    case Internal(children, summary) =>
      summary == SumSummaries(m, children) && forall i :: 0 <= i < |children| ==> WellFormed(m, children[i])
  }

  lemma {:induction false} FoldConcat<T, S(!new)>(m: Monoid<T, S>, xs: seq<T>, ys: seq<T>)
    requires Lawful(m)
    ensures Fold(m, xs + ys) == m.combine(Fold(m, xs), Fold(m, ys))
  {
    if xs == [] {
      assert xs + ys == ys;
    } else {
      assert (xs + ys)[1..] == xs[1..] + ys;
      FoldConcat(m, xs[1..], ys);
      assert AssocAt(m, m.measure(xs[0]), Fold(m, xs[1..]), Fold(m, ys));
    }
  }

  /** The cached summary of a well-formed node is the sum over all the items below it. */
  lemma {:induction false} SummaryIsFold<T, S(!new)>(m: Monoid<T, S>, n: Node<T, S>)
    requires Lawful(m) && WellFormed(m, n)
    ensures n.summary == Fold(m, NodeItems(n))
    decreases n, 1
  {
    if n.Internal? {
      ChildrenSummaryIsFold(m, n.children);
    }
  }

  lemma {:induction false} ChildrenSummaryIsFold<T, S(!new)>(m: Monoid<T, S>, cs: seq<Node<T, S>>)
    requires Lawful(m) && forall i :: 0 <= i < |cs| ==> WellFormed(m, cs[i])
    ensures SumSummaries(m, cs) == Fold(m, ChildrenItems(cs))
    decreases cs, 0
  {
    if cs != [] {
      SummaryIsFold(m, cs[0]);
      ChildrenSummaryIsFold(m, cs[1..]);
      FoldConcat(m, NodeItems(cs[0]), ChildrenItems(cs[1..]));
    }
  }

  /** Largest leaf that `Build` creates. */
  const LeafCapacity: nat := 16

  /** A balanced tree over a non-empty sequence of items, built in one pass. */
  function Build<T, S>(m: Monoid<T, S>, xs: seq<T>): Node<T, S>
    requires xs != []
    decreases |xs|
  {
    if |xs| <= LeafCapacity then Leaf(xs, Fold(m, xs))
    else
      var mid := |xs| / 2;
      var left := Build(m, xs[..mid]);
      var right := Build(m, xs[mid..]);
      Internal([left, right], SumSummaries(m, [left, right]))
  }

  /** `Build` holds exactly the given items, in order, and is well formed. */
  lemma {:induction false} BuildCorrect<T, S>(m: Monoid<T, S>, xs: seq<T>)
    requires xs != []
    ensures NodeItems(Build(m, xs)) == xs
    ensures WellFormed(m, Build(m, xs))
    decreases |xs|
  {
    if |xs| > LeafCapacity {
      var mid := |xs| / 2;
      BuildCorrect(m, xs[..mid]);
      BuildCorrect(m, xs[mid..]);
      var left := Build(m, xs[..mid]);
      var right := Build(m, xs[mid..]);
      PairItems(left, right);
      assert xs == xs[..mid] + xs[mid..];
      var n := Build(m, xs);
      assert n.children == [left, right];
      assert forall i :: 0 <= i < |n.children| ==> WellFormed(m, n.children[i]);
    }
  }

  lemma PairItems<T, S>(left: Node<T, S>, right: Node<T, S>)
    ensures ChildrenItems([left, right]) == NodeItems(left) + NodeItems(right)
  {
    assert [left, right][1..] == [right];
    assert [right][1..] == [];
    assert ChildrenItems([right]) == NodeItems(right) + ChildrenItems([right][1..]);
    assert NodeItems(right) + [] == NodeItems(right);
  }

  /** Pushing onto a non-empty tree: the internal node over the old root and the new leaf is well formed and sums all items. */
  lemma PushedNode<T, S(!new)>(m: Monoid<T, S>, oldRoot: Node<T, S>, item: T)
    requires Lawful(m) && WellFormed(m, oldRoot)
    ensures var leaf := Leaf([item], m.measure(item));
      var n := Internal([oldRoot, leaf], m.combine(oldRoot.summary, m.measure(item)));
      && WellFormed(m, n)
      && NodeItems(n) == NodeItems(oldRoot) + [item]
      && n.summary == m.combine(Fold(m, NodeItems(oldRoot)), m.measure(item))
  {
    var leaf := Leaf([item], m.measure(item));
    assert [item][1..] == [];
    assert WellFormed(m, leaf);
    PairItems(oldRoot, leaf);
    SummaryIsFold(m, oldRoot);
    var n := Internal([oldRoot, leaf], m.combine(oldRoot.summary, m.measure(item)));
    assert [oldRoot, leaf][1..] == [leaf];
    assert [leaf][1..] == [];
    assert SumSummaries(m, [leaf]) == m.combine(leaf.summary, SumSummaries(m, [leaf][1..]));
    assert SumSummaries(m, [oldRoot, leaf]) == m.combine(oldRoot.summary, SumSummaries(m, [oldRoot, leaf][1..]));
    assert forall i :: 0 <= i < |n.children| ==> WellFormed(m, n.children[i]);
  }

  /** Number of nodes below and including `n`; it bounds the iterator's work. */
  function NodeSize<T, S>(n: Node<T, S>): nat
    decreases n
  {
    match n
    case Leaf(_, _) => 1
    case Internal(children, _) => 1 + ChildrenSize(children)
  }

  function ChildrenSize<T, S>(cs: seq<Node<T, S>>): nat
    decreases cs
  {
    if cs == [] then 0 else NodeSize(cs[0]) + ChildrenSize(cs[1..])
  }

  /** Items still to come from an iterator stack whose top is the last element. */
  function StackItems<T, S>(stack: seq<Node<T, S>>): seq<T>
  {
    if stack == [] then [] else NodeItems(stack[|stack| - 1]) + StackItems(stack[..|stack| - 1])
  }

  function StackSize<T, S>(stack: seq<Node<T, S>>): nat
  {
    if stack == [] then 0 else NodeSize(stack[|stack| - 1]) + StackSize(stack[..|stack| - 1])
  }

  class SumTree<T, S(!new)> {
    const monoid: Monoid<T, S>
    var root: Option<Node<T, S>>

    /** The summary laws hold and a present root is well formed and holds at least one item. */
    ghost predicate Valid()
      reads this
    {
      Lawful(monoid) && (root.Some? ==> WellFormed(monoid, root.value) && NodeItems(root.value) != [])
    }

    /** The items of the tree in order. */
    ghost function Items(): seq<T>
      reads this
    {
      if root.Some? then NodeItems(root.value) else []
    }

    /** `SumTree::new`: the empty tree. */
    constructor (m: Monoid<T, S>)
      requires Lawful(m)
      ensures Valid() && monoid == m
      ensures root == None && Items() == []
    {
      monoid := m;
      root := None;
    }

    /** A tree holding `items` in order (`SumTree::from_items`, which the rope uses). */
    static method FromItems(m: Monoid<T, S>, items: seq<T>) returns (t: SumTree<T, S>)
      requires Lawful(m)
      ensures fresh(t) && t.Valid() && t.monoid == m
      ensures t.Items() == items
    {
      t := new SumTree(m);
      if items != [] {
        BuildCorrect(m, items);
        t.root := Some(Build(m, items));
      }
    }

    /** `summary()`: the cached root summary, or `Default` when empty; it is the sum over all items. */
    function Summary(): (s: S)
      reads this
      requires Valid()
      ensures s == Fold(monoid, Items())
    {
      match root
      case None => monoid.identity
      case Some(n) => SummaryIsFold(monoid, n); n.summary
    }

    /** `is_empty()`: no root, which is exactly when there are no items. */
    function IsEmpty(): (b: bool)
      reads this
      requires Valid()
      ensures b <==> Items() == []
    {
      root.None?
    }

    /**
      `push(item)`: the new leaf becomes the root of an empty tree; otherwise the
      old root, untouched, becomes the left child of a new internal node.
     */
    method Push(item: T)
      requires Valid()
      modifies this
      ensures Valid()
      ensures Items() == old(Items()) + [item]
      ensures Summary() == monoid.combine(old(Summary()), monoid.measure(item))
      ensures old(root).Some? ==> root.Some? && root.value.Internal? && |root.value.children| == 2 && root.value.children[0] == old(root).value
    {
      var newSummary := monoid.measure(item);
      var newLeaf := Leaf([item], newSummary);
      match root
      case None =>
        root := Some(newLeaf);
        assert [item][1..] == [];
        assert Fold(monoid, [item]) == monoid.combine(newSummary, monoid.identity);
      case Some(oldRoot) =>
        var combined := monoid.combine(oldRoot.summary, newSummary);
        PushedNode(monoid, oldRoot, item);
        root := Some(Internal([oldRoot, newLeaf], combined));
    }

    /** `clone()`: a new tree sharing the same immutable nodes. */
    method Clone() returns (t: SumTree<T, S>)
      requires Valid()
      ensures fresh(t) && t.Valid() && t.monoid == monoid && t.Items() == Items()
    {
      t := new SumTree(monoid);
      t.root := root;
    }

    /** `iter()`: an iterator positioned before the first item. */
    method Iter() returns (it: SumTreeIter<T, S>)
      requires Valid()
      ensures fresh(it) && it.Valid()
      ensures it.Remaining() == Items()
    {
      it := new SumTreeIter(root);
    }
  }

  /** An in-order iterator: the current leaf's items, then the nodes on the stack, top first. */
  class SumTreeIter<T, S> {
    var stack: seq<Node<T, S>>
    var currentItems: seq<T>
    var currentIndex: nat

    ghost predicate Valid()
      reads this
    {
      currentIndex <= |currentItems|
    }

    /** The items the iterator has yet to yield, in order. */
    ghost function Remaining(): seq<T>
      reads this
      requires Valid()
    {
      currentItems[currentIndex..] + StackItems(stack)
    }

    constructor (root: Option<Node<T, S>>)
      ensures Valid()
      ensures Remaining() == if root.Some? then NodeItems(root.value) else []
    {
      stack := if root.Some? then [root.value] else [];
      currentItems := [];
      currentIndex := 0;
      new;
      assert currentItems[currentIndex..] == [];
      if root.Some? {
        assert stack[..0] == [];
        assert StackItems(stack) == NodeItems(root.value) + StackItems(stack[..0]);
      }
    }

    /** `next()`: yields the first remaining item, or `None` once all are yielded. */
    method Next() returns (r: Option<T>)
      requires Valid()
      modifies this
      ensures Valid()
      ensures old(Remaining()) == [] ==> r == None && Remaining() == []
      ensures old(Remaining()) != [] ==> r == Some(old(Remaining())[0]) && Remaining() == old(Remaining())[1..]
    {
      ghost var rem := Remaining();
      while true
        invariant Valid() && Remaining() == rem
        decreases StackSize(stack)
      {
        if currentIndex < |currentItems| {
          var item := currentItems[currentIndex];
          assert currentItems[currentIndex..] == [item] + currentItems[currentIndex + 1..];
          currentIndex := currentIndex + 1;
          return Some(item);
        }
        if stack == [] {
          return None;
        }
        var node := stack[|stack| - 1];
        stack := stack[..|stack| - 1];
        match node
        case Leaf(items, _) =>
          currentItems := items;
          currentIndex := 0;
        case Internal(children, _) =>
          ghost var base := stack;
          var i := |children|;
          assert children[i..] == [];
          while i > 0
            invariant 0 <= i <= |children|
            invariant StackItems(stack) == ChildrenItems(children[i..]) + StackItems(base)
            invariant StackSize(stack) == ChildrenSize(children[i..]) + StackSize(base)
            invariant currentIndex <= |currentItems| && currentItems[currentIndex..] == []
          {
            i := i - 1;
            var s := stack;
            stack := stack + [children[i]];
            assert stack[..|stack| - 1] == s;
            assert children[i..][1..] == children[i + 1..];
          }
          assert children[0..] == children;
      }
    }
  }

  /** Pushing 10, 20 and 30 onto a fresh tree of counts gives a summary of 60. */
  method PushTenTwentyThirty() returns (total: nat)
    ensures total == 60
  {
    CountMonoidLawful();
    var t := new SumTree(CountMonoid());
    assert t.Summary() == Count(0);
    t.Push(10);
    assert t.Summary() == Count(10);
    t.Push(20);
    assert t.Summary() == Count(30);
    t.Push(30);
    total := t.Summary().value;
  }

  /** Draining a fresh iterator yields exactly the tree's items, and each call terminates. */
  method Collect<T, S(!new)>(t: SumTree<T, S>) returns (out: seq<T>)
    requires t.Valid()
    ensures out == t.Items()
  {
    var it := t.Iter();
    out := [];
    while true
      invariant it.Valid() && out + it.Remaining() == t.Items()
      decreases |it.Remaining()|
    {
      var next := it.Next();
      match next
      case None => return;
      case Some(x) =>
        out := out + [x];
    }
  }
}
