/** Changing the quantity of a resting order in its slot. */
module ArenaQuantity {
  import opened Wrappers
  import opened OrderKeys
  import opened Patricia
  import opened ArenaLayout
  import opened ArenaScan

  function Requoted(order: Order, quantity: u64): Order {
    order.(quantity := quantity)
  }

  /** The list with another quantity on the order in a slot. */
  function WithQuantity(es: seq<Entry>, slot: nat, quantity: u64): seq<Entry> {
    if es == [] then []
    else
      [if es[0].slot == slot then Entry(slot, Requoted(es[0].order, quantity)) else es[0]]
      + WithQuantity(es[1..], slot, quantity)
  }

  function TreeWith(t: Tree, slot: nat, quantity: u64): Tree {
    match t
    case Tip(own, order) => if own == slot then Tip(own, Requoted(order, quantity)) else t
    case Fork(own, prefix, key, left, right) =>
      Fork(own, prefix, key, TreeWith(left, slot, quantity), TreeWith(right, slot, quantity))
  }

  lemma {:induction false} WithQuantityConcat(a: seq<Entry>, b: seq<Entry>, slot: nat, quantity: u64)
    ensures WithQuantity(a + b, slot, quantity) == WithQuantity(a, slot, quantity) + WithQuantity(b, slot, quantity)
  {
    if a == [] {
      assert a + b == b;
    } else {
      assert (a + b)[1..] == a[1..] + b;
      WithQuantityConcat(a[1..], b, slot, quantity);
    }
  }

  lemma {:induction false} EntriesWith(t: Tree, slot: nat, quantity: u64)
    ensures Entries(TreeWith(t, slot, quantity)) == WithQuantity(Entries(t), slot, quantity)
  {
    if t.Fork? {
      EntriesWith(t.left, slot, quantity);
      EntriesWith(t.right, slot, quantity);
      WithQuantityConcat(Entries(t.left), Entries(t.right), slot, quantity);
    } else {
      assert Entries(t)[1..] == [];
    }
  }

  lemma {:induction false} WithQuantitySize(es: seq<Entry>, slot: nat, quantity: u64)
    ensures |WithQuantity(es, slot, quantity)| == |es|
  {
    if es != [] { WithQuantitySize(es[1..], slot, quantity); }
  }

  /** Everything but the quantity stays: slots, expiries and branches. */
  lemma {:induction false} TreeWithKeeps(t: Tree, slot: nat, quantity: u64, x: nat)
    ensures var t' := TreeWith(t, slot, quantity);
            t'.slot == t.slot && Earliest(t') == Earliest(t) && Uses(t', x) == Uses(t, x) && Size(t') == Size(t)
  {
    if t.Fork? {
      TreeWithKeeps(t.left, slot, quantity, x);
      TreeWithKeeps(t.right, slot, quantity, x);
    }
  }

  lemma {:induction false} TreeWithBranch(t: Tree, slot: nat, quantity: u64, key: Key, prefix: nat, branch: nat)
    ensures AllOnBranch(TreeWith(t, slot, quantity), key, prefix, branch) == AllOnBranch(t, key, prefix, branch)
  {
    if t.Fork? {
      TreeWithBranch(t.left, slot, quantity, key, prefix, branch);
      TreeWithBranch(t.right, slot, quantity, key, prefix, branch);
    }
  }

  lemma {:induction false} TreeWithShaped(t: Tree, slot: nat, quantity: u64)
    requires Shaped(t)
    ensures Shaped(TreeWith(t, slot, quantity))
  {
    if t.Fork? {
      TreeWithShaped(t.left, slot, quantity);
      TreeWithShaped(t.right, slot, quantity);
      TreeWithBranch(t.left, slot, quantity, t.key, t.prefix, 0);
      TreeWithBranch(t.right, slot, quantity, t.key, t.prefix, 1);
    }
  }

  lemma {:induction false} TreeWithRep(nodes: seq<Node>, t: Tree, slot: nat, quantity: u64)
    requires Rep(nodes, t) && slot < |nodes| && nodes[slot].Leaf? && Uses(t, slot) <= 1
    ensures Rep(nodes[slot := Leaf(Requoted(nodes[slot].order, quantity))], TreeWith(t, slot, quantity))
  {
    if t.Fork? {
      TreeWithRep(nodes, t.left, slot, quantity);
      TreeWithRep(nodes, t.right, slot, quantity);
      TreeWithKeeps(t.left, slot, quantity, slot);
      TreeWithKeeps(t.right, slot, quantity, slot);
    }
  }

  lemma HoldsWith(nodes: seq<Node>, root: nat, count: nat, t: Tree, slot: nat, quantity: u64)
    requires Holds(nodes, root, count, Some(t)) && slot < |nodes| && nodes[slot].Leaf? && Uses(t, slot) <= 1
    ensures Holds(nodes[slot := Leaf(Requoted(nodes[slot].order, quantity))], root, count,
                  Some(TreeWith(t, slot, quantity)))
  {
    TreeWithRep(nodes, t, slot, quantity);
    TreeWithShaped(t, slot, quantity);
    TreeWithKeeps(t, slot, quantity, slot);
    EntriesWith(t, slot, quantity);
    WithQuantitySize(Entries(t), slot, quantity);
  }

  /** An order's slot is in its tree once, and nowhere else. */
  lemma SlotIsAlone(a: Image, trees: Trees, free: seq<nat>, tree: Bit, e: Entry)
    requires Sound(a, trees, free, []) && e in Orders(trees.At(tree))
    ensures e.slot < a.bump && a.nodes[e.slot] == Leaf(e.order) && TreeUses(trees.At(tree), e.slot) == 1
    ensures TreeUses(trees.At(1 - tree), e.slot) == 0 && Listed(free, e.slot) == 0
  {
    EntryIsLeaf(a, trees, free, tree, e);
    RepEntry(a.nodes, trees.At(tree).value, e);
    assert Places(trees, free, [], e.slot) == 1;
  }

  lemma QuantitySet(a: Image, trees: Trees, free: seq<nat>, tree: Bit, e: Entry, quantity: u64)
    requires Sound(a, trees, free, []) && e in Orders(trees.At(tree))
    ensures e.slot < a.bump && a.nodes[e.slot] == Leaf(e.order)
    ensures var t := Some(TreeWith(trees.At(tree).value, e.slot, quantity));
            && Orders(t) == WithQuantity(Orders(trees.At(tree)), e.slot, quantity)
            && Sound(a.(nodes := a.nodes[e.slot := Leaf(Requoted(e.order, quantity))]), trees.With(tree, t), free, [])
  {
    SlotIsAlone(a, trees, free, tree, e);
    var t := trees.At(tree).value;
    var nodes, t' := a.nodes[e.slot := Leaf(Requoted(e.order, quantity))], TreeWith(t, e.slot, quantity);
    assert Holds(a.nodes, a.roots.At(tree), a.counts.At(tree), trees.At(tree));
    HoldsWith(a.nodes, a.roots.At(tree), a.counts.At(tree), t, e.slot, quantity);
    EntriesWith(t, e.slot, quantity);
    forall x: nat
      ensures Share(Some(t'), free, [], x) == Share(trees.At(tree), free, [], x)
    {
      TreeWithKeeps(t, e.slot, quantity, x);
    }
    TreeWithKeeps(t, e.slot, quantity, 0);
    ChainSame(a.nodes, nodes, a.freeHead, free);
    OneTreeChanges(a, trees, free, [], tree, nodes, t'.slot, Some(t'), a.freeHead, free, []);
  }
}
