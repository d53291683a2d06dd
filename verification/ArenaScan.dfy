/** Reading an arena slot by slot: which slots hold orders, and whose. */
module ArenaScan {
  import opened Wrappers
  import opened OrderKeys
  import opened Patricia
  import opened ArenaLayout

  lemma {:induction false} RepEntry(nodes: seq<Node>, t: Tree, e: Entry)
    requires Rep(nodes, t) && Shaped(t) && e in Entries(t)
    ensures e.slot < |nodes| && nodes[e.slot] == Leaf(e.order) && IsKey(e.order.key) && Uses(t, e.slot) > 0
  {
    if t.Fork? {
      if e in Entries(t.left) { RepEntry(nodes, t.left, e); } else { RepEntry(nodes, t.right, e); }
    }
  }

  lemma {:induction false} LookupFinds(es: seq<Entry>, e: Entry)
    requires Ascending(es) && e in es
    ensures Lookup(es, e.order.key) == Some(e)
  {
    AscendingTail(es);
    if es[0] != e { LookupFinds(es[1..], e); }
  }

  /** An entry's slot holds its leaf, and its key finds it. */
  lemma EntryIsLeaf(a: Image, trees: Trees, free: seq<nat>, tree: Bit, e: Entry)
    requires Sound(a, trees, free, []) && e in Orders(trees.At(tree))
    ensures e.slot < a.bump && a.nodes[e.slot] == Leaf(e.order) && IsKey(e.order.key)
    ensures Ascending(Orders(trees.At(tree))) && Lookup(Orders(trees.At(tree)), e.order.key) == Some(e)
  {
    var t := trees.At(tree).value;
    RepEntry(a.nodes, t, e);
    ShapedAscends(t);
    LookupFinds(Entries(t), e);
    assert Places(trees, free, [], e.slot) == if e.slot < a.bump then 1 else 0;
  }

  lemma SlotsAreDistinct(a: Image, trees: Trees, free: seq<nat>, tree: Bit)
    requires Sound(a, trees, free, [])
    ensures Ascending(Orders(trees.At(tree))) && OneSlotEach(Orders(trees.At(tree)))
  {
    var es := Orders(trees.At(tree));
    if trees.At(tree).Some? { ShapedAscends(trees.At(tree).value); }
    forall x, y | x in es && y in es && x.slot == y.slot
      ensures x == y
    {
      EntryIsLeaf(a, trees, free, tree, x);
      EntryIsLeaf(a, trees, free, tree, y);
    }
  }

  lemma SlotsAreHandedOut(a: Image, trees: Trees, free: seq<nat>, tree: Bit)
    requires Sound(a, trees, free, [])
    ensures forall e :: e in Orders(trees.At(tree)) ==> e.slot < a.bump
  {
    forall e | e in Orders(trees.At(tree))
      ensures e.slot < a.bump
    {
      EntryIsLeaf(a, trees, free, tree, e);
    }
  }

  lemma ScanReachesAll(a: Image, trees: Trees, free: seq<nat>, owner: nat)
    requires Sound(a, trees, free, [])
    ensures Unscanned(Orders(trees.At(0)), owner, a.bump) == OthersOf(Orders(trees.At(0)), owner)
    ensures Unscanned(Orders(trees.At(1)), owner, a.bump) == OthersOf(Orders(trees.At(1)), owner)
    ensures Ascending(Orders(trees.At(0))) && OneSlotEach(Orders(trees.At(0)))
    ensures Ascending(Orders(trees.At(1))) && OneSlotEach(Orders(trees.At(1)))
  {
    SlotsAreDistinct(a, trees, free, 0);
    SlotsAreDistinct(a, trees, free, 1);
    SlotsAreHandedOut(a, trees, free, 0);
    SlotsAreHandedOut(a, trees, free, 1);
    FullScan(Orders(trees.At(0)), owner, a.bump);
    FullScan(Orders(trees.At(1)), owner, a.bump);
  }

  lemma {:induction false} LeafInTree(nodes: seq<Node>, t: Tree, slot: nat)
    requires Rep(nodes, t) && Uses(t, slot) > 0 && slot < |nodes| && nodes[slot].Leaf?
    ensures Entry(slot, nodes[slot].order) in Entries(t)
  {
    if t.Fork? {
      if Uses(t.left, slot) > 0 { LeafInTree(nodes, t.left, slot); } else { LeafInTree(nodes, t.right, slot); }
    }
  }

  lemma FreeIsNoLeaf(nodes: seq<Node>, head: nat, free: seq<nat>, slot: nat)
    requires Chain(nodes, head, free) && Listed(free, slot) > 0
    ensures slot < |nodes| && !nodes[slot].Leaf?
  {
    var i := ListedIndex(free, slot);
    assert LinkAt(nodes, free, i);
  }

  /** Every leaf in the array is a resting order. */
  lemma LeafIsEntry(a: Image, trees: Trees, free: seq<nat>, slot: nat)
    requires Sound(a, trees, free, []) && slot < a.bump && a.nodes[slot].Leaf?
    ensures var e := Entry(slot, a.nodes[slot].order); e in Orders(trees.At(0)) || e in Orders(trees.At(1))
  {
    assert Places(trees, free, [], slot) == 1;
    if TreeUses(trees.At(0), slot) > 0 {
      LeafInTree(a.nodes, trees.At(0).value, slot);
    } else if TreeUses(trees.At(1), slot) > 0 {
      LeafInTree(a.nodes, trees.At(1).value, slot);
    } else {
      FreeIsNoLeaf(a.nodes, a.freeHead, free, slot);
    }
  }

  lemma LeafHasKey(a: Image, trees: Trees, free: seq<nat>, slot: nat)
    requires Sound(a, trees, free, []) && slot < a.bump && a.nodes[slot].Leaf?
    ensures IsKey(a.nodes[slot].order.key)
  {
    LeafIsEntry(a, trees, free, slot);
    var e := Entry(slot, a.nodes[slot].order);
    if e in Orders(trees.At(0)) { EntryIsLeaf(a, trees, free, 0, e); } else { EntryIsLeaf(a, trees, free, 1, e); }
  }

  lemma SlotView(a: Image, trees: Trees, free: seq<nat>, tree: Bit, slot: nat)
    requires Sound(a, trees, free, []) && slot < a.bump
    ensures forall e :: e in Orders(trees.At(tree)) && e.slot == slot ==>
              a.nodes[slot] == Leaf(e.order) && Lookup(Orders(trees.At(tree)), e.order.key) == Some(e)
  {
    forall e | e in Orders(trees.At(tree)) && e.slot == slot
      ensures a.nodes[slot] == Leaf(e.order) && Lookup(Orders(trees.At(tree)), e.order.key) == Some(e)
    {
      EntryIsLeaf(a, trees, free, tree, e);
    }
  }

  lemma ScanSlot(es: seq<Entry>, owner: nat, slot: nat, n: Node)
    requires Ascending(es) && Unscanned(es, owner, slot) == es
    requires forall e :: e in es && e.slot == slot ==> n == Leaf(e.order) && Lookup(es, e.order.key) == Some(e)
    ensures Unscanned(es, owner, slot + 1)
         == if n.Leaf? && n.order.owner == owner && Lookup(es, n.order.key) == Some(Entry(slot, n.order))
            then Without(es, n.order.key) else es
    ensures OrderIn(es, owner, slot)
         == if n.Leaf? && n.order.owner == owner
           && Lookup(es, n.order.key) == Some(Entry(slot, n.order)) then Some(n.order) else None
  {
    if n.Leaf? && n.order.owner == owner && Lookup(es, n.order.key) == Some(Entry(slot, n.order)) {
      ScanHits(es, owner, Entry(slot, n.order));
      OrderInHits(es, owner, Entry(slot, n.order));
    } else {
      ScanMisses(es, owner, slot);
      OrderInMisses(es, owner, slot);
    }
  }

  lemma CancelView(a: Image, trees: Trees, free: seq<nat>, tree: Bit, owner: nat, slot: nat, start: seq<Entry>)
    requires Sound(a, trees, free, []) && slot < a.bump && Orders(trees.At(tree)) == Unscanned(start, owner, slot)
    ensures a.nodes[slot].Leaf? ==> IsKey(a.nodes[slot].order.key)
    ensures var es, n := Orders(trees.At(tree)), a.nodes[slot];
            Unscanned(start, owner, slot + 1)
            == if n.Leaf? && n.order.owner == owner && Lookup(es, n.order.key) == Some(Entry(slot, n.order))
               then Without(es, n.order.key) else es
    ensures var es, n := Orders(trees.At(tree)), a.nodes[slot];
            OrderIn(start, owner, slot)
            == if n.Leaf? && n.order.owner == owner
              && Lookup(es, n.order.key) == Some(Entry(slot, n.order)) then Some(n.order) else None
    ensures var es, n := Orders(trees.At(tree)), a.nodes[slot];
            n.Leaf? && Lookup(es, n.order.key).Some? && Lookup(es, n.order.key).value.slot == slot
            ==> Lookup(es, n.order.key).value.order == n.order
  {
    if a.nodes[slot].Leaf? { LeafHasKey(a, trees, free, slot); }
    SlotView(a, trees, free, tree, slot);
    if trees.At(tree).Some? { ShapedAscends(trees.At(tree).value); }
    ScanGoesOn(start, owner, slot, slot);
    ScanGoesOn(start, owner, slot, slot + 1);
    OrderInUnscanned(start, owner, slot);
    ScanSlot(Orders(trees.At(tree)), owner, slot, a.nodes[slot]);
  }
}
