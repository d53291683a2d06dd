/** What removal writes into an arena's nodes, and that it leaves a sound arena. */
module ArenaRemoval {
  import opened Wrappers
  import opened Patricia
  import opened ArenaLayout

  /** The slots of a removed leaf and its fork are nowhere else. */
  lemma PruneSlot(a: Image, trees: Trees, free: seq<nat>, tree: Bit, frames: seq<Frame>, t: Tree, x: nat)
    requires Sound(a, trees, free, []) && trees.At(tree) == Some(Plug(frames, t)) && t.Tip? && frames != []
    ensures var front, f := frames[..|frames| - 1], frames[|frames| - 1];
            && WayUses(front, f.sibling, x) + (if f.slot == x then 1 else 0) + (if t.slot == x then 1 else 0)
              == TreeUses(trees.At(tree), x)
            && WayUses(front, f.sibling, x) + (if f.slot == x then 1 else 0) + (if t.slot == x then 1 else 0)
               + TreeUses(trees.At(1 - tree), x) + Listed(free, x) == if x < a.bump then 1 else 0
  {
    WayIsAlone(a, trees, free, [], tree, frames, t, x);
    assert Uses(t, x) == if t.slot == x then 1 else 0;
  }

  /** The effect of a removal below a root on the nodes. */
  ghost predicate Pruned(nodes: seq<Node>, nodes': seq<Node>, frames: seq<Frame>, slot: nat, free: seq<nat>)
    requires frames != []
  {
    var front, f := frames[..|frames| - 1], frames[|frames| - 1];
    && |nodes'| == |nodes| && Rep(nodes', Plug(front, f.sibling)) && Chain(nodes', slot, [slot, f.slot] + free)
    && forall x :: 0 <= x < |nodes| && x != slot && x != f.slot && FrameUses(front, x) == 0 ==> nodes'[x] == nodes[x]
  }

  /** What a removal may rely on. */
  ghost predicate Prunable(frames: seq<Frame>, t: Tree, free: seq<nat>, bump: nat) {
    && t.Tip? && frames != []
    && var front, f := frames[..|frames| - 1], frames[|frames| - 1];
    && f.slot != t.slot && f.slot < bump && t.slot < bump
    && Listed(free, f.slot) == 0 && Listed(free, t.slot) == 0
    && WayUses(front, f.sibling, f.slot) == 0 && WayUses(front, f.sibling, t.slot) == 0
    && Apart(front, f.sibling)
    && forall x: nat :: Listed(free, x) > 0 ==> FrameUses(front, x) == 0
  }

  lemma PruneReady(a: Image, trees: Trees, free: seq<nat>, tree: Bit, frames: seq<Frame>, t: Tree)
    requires Sound(a, trees, free, []) && trees.At(tree) == Some(Plug(frames, t)) && t.Tip? && frames != []
    ensures Prunable(frames, t, free, a.bump)
  {
    var front, f := frames[..|frames| - 1], frames[|frames| - 1];
    PruneSlot(a, trees, free, tree, frames, t, f.slot);
    PruneSlot(a, trees, free, tree, frames, t, t.slot);
    forall x: nat
      ensures WayUses(front, f.sibling, x) <= 1
      ensures Listed(free, x) > 0 ==> FrameUses(front, x) == 0
    {
      PruneSlot(a, trees, free, tree, frames, t, x);
    }
  }

  lemma ChainOffWay(nodes: seq<Node>, nodes': seq<Node>, head: nat, free: seq<nat>, frames: seq<Frame>)
    requires Chain(nodes, head, free) && OnlyWayChanged(nodes, nodes', frames)
    requires forall x: nat :: Listed(free, x) > 0 ==> FrameUses(frames, x) == 0
    ensures Chain(nodes', head, free)
  {
    ChainSame(nodes, nodes', head, free);
  }

  lemma PairOffWay(p: nat, q: nat, free: seq<nat>, frames: seq<Frame>)
    requires FrameUses(frames, p) == 0 && FrameUses(frames, q) == 0
    requires forall x: nat :: Listed(free, x) > 0 ==> FrameUses(frames, x) == 0
    ensures forall x: nat :: Listed([p, q] + free, x) > 0 ==> FrameUses(frames, x) == 0
  {
    forall x: nat | Listed([p, q] + free, x) > 0
      ensures FrameUses(frames, x) == 0
    {
      assert [p, q] + free == [p] + ([q] + free);
      ListedMore([q] + free, p, x);
      ListedMore(free, q, x);
    }
  }

  lemma PruneSize(frames: seq<Frame>, t: Tree)
    requires t.Tip? && frames != [] && Shaped(Plug(frames, t))
    ensures var front, f := frames[..|frames| - 1], frames[|frames| - 1];
            var t' := Plug(front, f.sibling);
            && Size(t') + 2 == Size(Plug(frames, t))
            && t'.slot == if front == [] then f.sibling.slot else Plug(frames, t).slot
  {
    var front, f := frames[..|frames| - 1], frames[|frames| - 1];
    UnsplitRemoves(frames, t);
    SizeIsTwiceLess(Plug(frames, t));
    SizeIsTwiceLess(Plug(front, f.sibling));
    PlugKeepsRoot(frames, t);
    PlugKeepsRoot(front, f.sibling);
  }

  lemma PruneLeaves(a: Image, trees: Trees, free: seq<nat>, tree: Bit, frames: seq<Frame>, t: Tree, nodes: seq<Node>)
    requires Sound(a, trees, free, []) && trees.At(tree) == Some(Plug(frames, t)) && t.Tip? && frames != []
    requires Pruned(a.nodes, nodes, frames, t.slot, free)
    ensures forall x :: 0 <= x < CAPACITY && TreeUses(trees.At(1 - tree), x) > 0 ==> nodes[x] == a.nodes[x]
    ensures forall x :: a.bump <= x < CAPACITY ==> nodes[x] == a.nodes[x]
  {
    forall x | 0 <= x < CAPACITY && (TreeUses(trees.At(1 - tree), x) > 0 || a.bump <= x)
      ensures nodes[x] == a.nodes[x]
    {
      PruneSlot(a, trees, free, tree, frames, t, x);
    }
  }

  /** The fields after a removal below a root. */
  function AfterPrune(a: Image, tree: Bit, frames: seq<Frame>, slot: nat, nodes: seq<Node>): Image
    requires frames != [] && a.counts.At(tree) > 0
  {
    var front, f := frames[..|frames| - 1], frames[|frames| - 1];
    var roots := if front == [] then a.roots.With(tree, f.sibling.slot) else a.roots;
    Image(nodes, roots, a.counts.With(tree, a.counts.At(tree) - 1), a.bump, slot, a.freeLen + 2)
  }

  lemma PrunedImage(a: Image, after: Image, tree: Bit, frames: seq<Frame>, slot: nat)
    requires frames != [] && a.counts.At(tree) > 0 && after.bump == a.bump
    requires after.roots == if frames[..|frames| - 1] == [] then a.roots.With(tree, frames[|frames| - 1].sibling.slot) else a.roots
    requires after.counts == a.counts.With(tree, a.counts.At(tree) - 1) && after.freeHead == slot && after.freeLen == a.freeLen + 2
    ensures after == AfterPrune(a, tree, frames, slot, after.nodes)
  {}

  lemma PruneDone(a: Image, trees: Trees, free: seq<nat>, tree: Bit, frames: seq<Frame>, t: Tree, nodes: seq<Node>)
    requires Sound(a, trees, free, []) && trees.At(tree) == Some(Plug(frames, t)) && t.Tip? && frames != []
    requires Pruned(a.nodes, nodes, frames, t.slot, free)
    ensures var front, f := frames[..|frames| - 1], frames[|frames| - 1];
            && a.counts.At(tree) > 0
            && (forall x :: a.bump <= x < CAPACITY ==> nodes[x] == a.nodes[x])
            && Sound(AfterPrune(a, tree, frames, t.slot, nodes),
                     trees.With(tree, Some(Plug(front, f.sibling))), [t.slot, f.slot] + free, [])
  {
    var front, f := frames[..|frames| - 1], frames[|frames| - 1];
    var t', free' := Plug(front, f.sibling), [t.slot, f.slot] + free;
    UnsplitRemoves(frames, t);
    PruneSize(frames, t);
    forall x: nat
      ensures Share(Some(t'), free', [], x) == Share(trees.At(tree), free, [], x)
    {
      PruneSlot(a, trees, free, tree, frames, t, x);
      PruneShare(front, f.sibling, t.slot, f.slot, free, x);
    }
    PruneLeaves(a, trees, free, tree, frames, t, nodes);
    OneTreeChanges(a, trees, free, [], tree, nodes, t'.slot, Some(t'), t.slot, free', []);
  }

  lemma PruneStarts(a: Image, trees: Trees, free: seq<nat>, tree: Bit, frames: seq<Frame>, t: Tree)
    requires Sound(a, trees, free, []) && trees.At(tree) == Some(Plug(frames, t)) && t.Tip? && frames != []
    ensures Prunable(frames, t, free, a.bump) && a.counts.At(tree) > 0
  {
    PruneReady(a, trees, free, tree, frames, t);
    assert Holds(a.nodes, a.roots.At(tree), a.counts.At(tree), trees.At(tree));
  }

  lemma PruneShare(frames: seq<Frame>, t: Tree, p: nat, q: nat, free: seq<nat>, x: nat)
    ensures Share(Some(Plug(frames, t)), [p, q] + free, [], x)
         == WayUses(frames, t, x) + (if p == x then 1 else 0) + (if q == x then 1 else 0) + Listed(free, x)
  {
    UsesOfPlug(frames, t, x);
    assert [p, q] + free == [p] + ([q] + free);
    ListedMore([q] + free, p, x);
    ListedMore(free, q, x);
  }

  lemma LastLeaf(a: Image, trees: Trees, free: seq<nat>, tree: Bit)
    requires Sound(a, trees, free, []) && trees.At(tree).Some? && trees.At(tree).value.Tip?
    ensures var slot := trees.At(tree).value.slot;
            && slot < a.bump && Listed(free, slot) == 0 && a.counts.At(tree) == 1
            && Sound(Image(a.nodes[slot := FreeNode(a.freeHead)], a.roots.With(tree, NONE), a.counts.With(tree, 0),
                           a.bump, slot, a.freeLen + 1),
                     trees.With(tree, None), [slot] + free, [])
  {
    var slot := trees.At(tree).value.slot;
    forall x: nat
      ensures Share(None, [slot] + free, [], x) == Share(trees.At(tree), free, [], x)
    {
      ListedMore(free, slot, x);
    }
    assert Places(trees, free, [], slot) == if slot < a.bump then 1 else 0;
    ChainGrows(a.nodes, a.freeHead, free, slot);
    OneTreeChanges(a, trees, free, [], tree, a.nodes[slot := FreeNode(a.freeHead)], NONE, None, slot, [slot] + free, []);
  }
}
