/** What insertion writes into an arena's nodes, and that it leaves a sound arena. */
module ArenaInsertion {
  import opened Wrappers
  import opened OrderKeys
  import opened Patricia
  import opened ArenaLayout

  lemma FirstLeaf(a: Image, trees: Trees, free: seq<nat>, slot: nat, tree: Bit, order: Order)
    requires Sound(a, trees, free, [slot]) && trees.At(tree).None? && IsKey(order.key)
    ensures slot < a.bump && a.counts.At(tree) == 0
    ensures Sound(a.(nodes := a.nodes[slot := Leaf(order)], roots := a.roots.With(tree, slot),
                     counts := a.counts.With(tree, 1)),
                  trees.With(tree, Some(Tip(slot, order))), free, [])
  {
    assert [slot] + [] == [slot];
    SpareIsAlone(a, trees, free, slot, []);
    var nodes', t := a.nodes[slot := Leaf(order)], Tip(slot, order);
    ChainSame(a.nodes, nodes', a.freeHead, free);
    forall x: nat
      ensures Share(Some(t), free, [], x) == Share(trees.At(tree), free, [slot], x)
    {
      ListedMore([], slot, x);
    }
    OneTreeChanges(a, trees, free, [slot], tree, nodes', slot, Some(t), a.freeHead, free, []);
  }

  function MakeInner(prefix: nat, key: Key, existing: nat, added: nat, branch: Bit): Node {
    if branch == 0 then Inner(prefix, key, added, existing, NO_EXPIRY, NO_EXPIRY)
    else Inner(prefix, key, existing, added, NO_EXPIRY, NO_EXPIRY)
  }

  function MadeFor(t: Tree, leaf: Tree): Node
    requires leaf.Tip? && CommonPrefix(KeyOf(t), leaf.order.key) < KEY_BITS && IsKey(leaf.order.key)
  {
    var prefix := CommonPrefix(KeyOf(t), leaf.order.key);
    MakeInner(prefix, KeyOf(t), t.slot, leaf.slot, leaf.order.key[prefix])
  }

  lemma MadeOutlines(t: Tree, inner: nat, leaf: Tree)
    requires leaf.Tip? && CommonPrefix(KeyOf(t), leaf.order.key) < KEY_BITS && IsKey(leaf.order.key)
    ensures Outlines(MadeFor(t, leaf), Split(t, inner, leaf))
  {}

  /** What two spare slots, a way and everything else have in common: nothing. */
  lemma PairIsAlone(a: Image, trees: Trees, free: seq<nat>, tree: Bit, frames: seq<Frame>, t: Tree, p: nat, q: nat,
                    x: nat)
    requires Sound(a, trees, free, [p, q]) && trees.At(tree) == Some(Plug(frames, t))
    ensures WayUses(frames, t, x) + (if p == x then 1 else 0) + (if q == x then 1 else 0) <= 1
    ensures x == p || x == q || FrameUses(frames, x) > 0 ==> x < a.bump
    ensures Elsewhere(trees, free, tree, x) ==> FrameUses(frames, x) == 0 && x != p && x != q
  {
    WayIsAlone(a, trees, free, [p, q], tree, frames, t, x);
    ListedPair(p, q, x);
  }

  lemma SplitUses(frames: seq<Frame>, t: Tree, inner: nat, leaf: Tree, x: nat)
    requires leaf.Tip? && CommonPrefix(KeyOf(t), leaf.order.key) < |leaf.order.key|
    ensures WayUses(frames, Split(t, inner, leaf), x)
         == WayUses(frames, t, x) + (if inner == x then 1 else 0) + (if leaf.slot == x then 1 else 0)
  {
    assert Uses(leaf, x) == if leaf.slot == x then 1 else 0;
  }

  lemma SplitSlots(a: Image, trees: Trees, free: seq<nat>, tree: Bit, frames: seq<Frame>, t: Tree, inner: nat,
                   leaf: Tree)
    requires Sound(a, trees, free, [inner, leaf.slot]) && trees.At(tree) == Some(Plug(frames, t))
    requires leaf.Tip? && CommonPrefix(KeyOf(t), leaf.order.key) < |leaf.order.key|
    ensures inner != leaf.slot && inner < a.bump && leaf.slot < a.bump
    ensures WayUses(frames, t, inner) == 0 && WayUses(frames, t, leaf.slot) == 0
    ensures Apart(frames, Split(t, inner, leaf))
  {
    PairIsAlone(a, trees, free, tree, frames, t, inner, leaf.slot, inner);
    PairIsAlone(a, trees, free, tree, frames, t, inner, leaf.slot, leaf.slot);
    forall x: nat
      ensures WayUses(frames, Split(t, inner, leaf), x) <= 1
    {
      PairIsAlone(a, trees, free, tree, frames, t, inner, leaf.slot, x);
      SplitUses(frames, t, inner, leaf, x);
    }
  }

  /** A new leaf and the outline of the new fork, written into slots not on the way. */
  lemma SplitReady(nodes: seq<Node>, frames: seq<Frame>, t: Tree, inner: nat, leaf: Tree)
    requires Rep(nodes, Plug(frames, t)) && inner < |nodes| && leaf.slot < |nodes|
    requires leaf.Tip? && CommonPrefix(KeyOf(t), leaf.order.key) < KEY_BITS && IsKey(leaf.order.key)
    requires inner != leaf.slot && WayUses(frames, t, inner) == 0 && WayUses(frames, t, leaf.slot) == 0
    ensures t.slot < |nodes| && nodes[t.slot] == NodeOf(t)
    ensures var split := Split(t, inner, leaf);
            var written := nodes[leaf.slot := Leaf(leaf.order)][inner := MadeFor(t, leaf)];
            && Rep(written, split.left) && Rep(written, split.right)
            && Uses(split.left, inner) == 0 && Uses(split.right, inner) == 0
  {
    RepOpens(nodes, frames, t);
    var written := nodes[leaf.slot := Leaf(leaf.order)][inner := MadeFor(t, leaf)];
    RepSame(nodes, written, t);
    assert Rep(written, leaf);
  }

  lemma WayUntouched(nodes: seq<Node>, nodes': seq<Node>, frames: seq<Frame>, t: Tree, p: nat, q: nat)
    requires Rep(nodes, Plug(frames, t)) && |nodes'| == |nodes| && WayUses(frames, t, p) == 0
             && WayUses(frames, t, q) == 0
    requires forall x :: 0 <= x < |nodes| && x != p && x != q ==> nodes'[x] == nodes[x]
    ensures Linked(nodes', frames, t.slot)
  {
    RepOpens(nodes, frames, t);
    LinkedSame(nodes, nodes', frames, t.slot);
  }

  lemma SplitShare(frames: seq<Frame>, t: Tree, inner: nat, leaf: Tree, free: seq<nat>, x: nat)
    requires leaf.Tip? && CommonPrefix(KeyOf(t), leaf.order.key) < |leaf.order.key|
    ensures Share(Some(Plug(frames, Split(t, inner, leaf))), free, [], x)
            == Share(Some(Plug(frames, t)), free, [inner, leaf.slot], x)
  {
    UsesOfPlug(frames, t, x);
    UsesOfPlug(frames, Split(t, inner, leaf), x);
    SplitUses(frames, t, inner, leaf, x);
    ListedPair(inner, leaf.slot, x);
  }

  lemma SplitSize(frames: seq<Frame>, t: Tree, inner: nat, leaf: Tree)
    requires leaf.Tip? && PartsAt(frames, t, leaf.order.key)
    ensures var t' := Plug(frames, Split(t, inner, leaf));
            Size(t') == Size(Plug(frames, t)) + 2 && t'.slot == if frames == [] then inner else Plug(frames, t).slot
  {
    SplitInserts(frames, t, inner, leaf);
    SizeIsTwiceLess(Plug(frames, t));
    SizeIsTwiceLess(Plug(frames, Split(t, inner, leaf)));
    PlugKeepsRoot(frames, t);
    PlugKeepsRoot(frames, Split(t, inner, leaf));
  }

  /** The fields after an insertion below a root. */
  function AfterGraft(a: Image, tree: Bit, frames: seq<Frame>, inner: nat, nodes: seq<Node>): Image {
    var roots := if frames == [] then a.roots.With(tree, inner) else a.roots;
    a.(nodes := nodes, roots := roots, counts := a.counts.With(tree, a.counts.At(tree) + 1))
  }

  lemma SplitDone(a: Image, trees: Trees, free: seq<nat>, tree: Bit, frames: seq<Frame>, t: Tree, inner: nat,
                  leaf: Tree, nodes: seq<Node>)
    requires Sound(a, trees, free, [inner, leaf.slot]) && trees.At(tree) == Some(Plug(frames, t)) && |nodes| == CAPACITY
    requires leaf.Tip? && PartsAt(frames, t, leaf.order.key) && Rep(nodes, Plug(frames, Split(t, inner, leaf)))
    requires forall x :: 0 <= x < CAPACITY && Elsewhere(trees, free, tree, x) ==> nodes[x] == a.nodes[x]
    ensures var t' := Some(Plug(frames, Split(t, inner, leaf)));
            && |Orders(t')| == a.counts.At(tree) + 1
            && Sound(AfterGraft(a, tree, frames, inner, nodes),
                     trees.With(tree, t'), free, [])
  {
    var t' := Plug(frames, Split(t, inner, leaf));
    SplitInserts(frames, t, inner, leaf);
    SplitKeepsShape(frames, t, inner, leaf);
    SplitSize(frames, t, inner, leaf);
    forall x: nat
      ensures Share(Some(t'), free, [], x) == Share(trees.At(tree), free, [inner, leaf.slot], x)
    {
      SplitShare(frames, t, inner, leaf, free, x);
    }
    ElsewhereSame(a, trees, free, tree, nodes);
    OneTreeChanges(a, trees, free, [inner, leaf.slot], tree, nodes, t'.slot, Some(t'), a.freeHead, free, []);
  }

  lemma GraftLeaves(a: Image, trees: Trees, free: seq<nat>, tree: Bit, frames: seq<Frame>, t: Tree, inner: nat,
                    slot: nat, nodes: seq<Node>)
    requires Sound(a, trees, free, [inner, slot]) && trees.At(tree) == Some(Plug(frames, t)) && |nodes| == CAPACITY
    requires forall x :: 0 <= x < CAPACITY && x != slot && x != inner && FrameUses(frames, x) == 0 ==>
             nodes[x] == a.nodes[x]
    ensures forall x :: 0 <= x < CAPACITY && Elsewhere(trees, free, tree, x) ==> nodes[x] == a.nodes[x]
    ensures forall x :: a.bump <= x < CAPACITY ==> nodes[x] == a.nodes[x]
  {
    forall x | 0 <= x < CAPACITY && (Elsewhere(trees, free, tree, x) || a.bump <= x)
      ensures nodes[x] == a.nodes[x]
    {
      PairIsAlone(a, trees, free, tree, frames, t, inner, slot, x);
    }
  }

  /** The effect of an insertion below a root on the nodes. */
  ghost predicate Grafted(nodes: seq<Node>, nodes': seq<Node>, frames: seq<Frame>, t: Tree, inner: nat, leaf: Tree)
    requires leaf.Tip? && CommonPrefix(KeyOf(t), leaf.order.key) < |leaf.order.key|
  {
    && |nodes'| == |nodes| && Rep(nodes', Plug(frames, Split(t, inner, leaf)))
    && forall x :: 0 <= x < |nodes| && x != leaf.slot && x != inner && FrameUses(frames, x) == 0 ==>
         nodes'[x] == nodes[x]
  }

  lemma GraftStarts(a: Image, trees: Trees, free: seq<nat>, tree: Bit, frames: seq<Frame>, t: Tree, inner: nat,
                    leaf: Tree)
    requires Sound(a, trees, free, [inner, leaf.slot]) && trees.At(tree) == Some(Plug(frames, t))
    requires leaf.Tip? && PartsAt(frames, t, leaf.order.key)
    ensures inner != leaf.slot && inner < a.bump && leaf.slot < a.bump
    ensures WayUses(frames, t, inner) == 0 && WayUses(frames, t, leaf.slot) == 0 && Apart(frames, Split(t, inner, leaf))
  {
    SplitSlots(a, trees, free, tree, frames, t, inner, leaf);
  }

  lemma GraftDone(a: Image, trees: Trees, free: seq<nat>, tree: Bit, frames: seq<Frame>, t: Tree, inner: nat,
                  leaf: Tree,
                  nodes: seq<Node>)
    requires Sound(a, trees, free, [inner, leaf.slot]) && trees.At(tree) == Some(Plug(frames, t))
    requires leaf.Tip? && PartsAt(frames, t, leaf.order.key) && Grafted(a.nodes, nodes, frames, t, inner, leaf)
    ensures forall x :: a.bump <= x < CAPACITY ==> nodes[x] == a.nodes[x]
    ensures Sound(AfterGraft(a, tree, frames, inner, nodes),
                  trees.With(tree, Some(Plug(frames, Split(t, inner, leaf)))), free, [])
  {
    GraftLeaves(a, trees, free, tree, frames, t, inner, leaf.slot, nodes);
    SplitDone(a, trees, free, tree, frames, t, inner, leaf, nodes);
  }
}
