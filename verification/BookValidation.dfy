/**
 The integrity check of an order-book arena, `Arena::validate` in
 `programs/equinox/src/book.rs`: two walks with an explicit stack, a walk of the
 free list and a sweep over all slots. It accepts exactly the arenas that the
 operations keep.
 */
module BookValidation {
  import opened Wrappers
  import opened OrderKeys
  import opened Patricia
  import opened ArenaLayout
  import opened BookArena

  // ----- shape, checked edge by edge -----

  /** What is checked between a fork and one child. */
  predicate Edge(key: Key, prefix: nat, branch: Bit, child: Tree) {
    OnBranch(KeyOf(child), key, prefix, branch) && (child.Fork? ==> prefix < child.prefix)
  }

  predicate Local(t: Tree) {
    t.Fork? ==>
      && t.prefix < KEY_BITS && Edge(t.key, t.prefix, 0, t.left) && Edge(t.key, t.prefix, 1, t.right)
      && Local(t.left) && Local(t.right)
  }

  predicate Keyed(t: Tree) {
    IsKey(KeyOf(t)) && (t.Fork? ==> Keyed(t.left) && Keyed(t.right))
  }

  lemma {:induction false} ShapedIsLocal(t: Tree)
    requires Shaped(t)
    ensures Local(t) && Keyed(t)
  {
    if t.Fork? {
      ShapedIsLocal(t.left);
      ShapedIsLocal(t.right);
      ChildIsOnBranch(t.left, t.key, t.prefix, 0);
      ChildIsOnBranch(t.right, t.key, t.prefix, 1);
    }
  }

  lemma ChildIsOnBranch(c: Tree, key: Key, prefix: nat, branch: Bit)
    requires Shaped(c) && AllOnBranch(c, key, prefix, branch) && IsKey(key) && prefix < KEY_BITS
    ensures Edge(key, prefix, branch, c)
  {
    if c.Fork? {
      ForkIsBelow(c, key, prefix, branch);
      var e := Leftmost(c.left);
      LeftmostIsFirst(c.left);
      AllOnBranchIsPointwise(c.left, c.key, c.prefix, 0);
      AllOnBranchIsPointwise(c, key, prefix, branch);
      assert e in Entries(c.left) && e in Entries(c);
      AgreeBelow(e.order.key, c.key, c.prefix);
      AgreeBelow(e.order.key, key, prefix);
      AgreeBelow(c.key, key, prefix);
    }
  }

  lemma {:induction false} LocalIsShaped(t: Tree)
    requires Local(t) && Keyed(t)
    ensures Shaped(t)
  {
    if t.Fork? {
      LocalIsShaped(t.left);
      LocalIsShaped(t.right);
      EdgeSpreads(t.left, t.key, t.prefix, 0);
      EdgeSpreads(t.right, t.key, t.prefix, 1);
    }
  }

  /** A checked edge holds for everything below it. */
  lemma {:induction false} EdgeSpreads(c: Tree, key: Key, prefix: nat, branch: Bit)
    requires Local(c) && Keyed(c) && IsKey(key) && prefix < KEY_BITS && Edge(key, prefix, branch, c)
    ensures AllOnBranch(c, key, prefix, branch)
  {
    if c.Fork? {
      EdgeInherits(c, c.left, 0, key, prefix, branch);
      EdgeInherits(c, c.right, 1, key, prefix, branch);
      EdgeSpreads(c.left, key, prefix, branch);
      EdgeSpreads(c.right, key, prefix, branch);
    }
  }

  lemma EdgeInherits(c: Tree, d: Tree, way: Bit, key: Key, prefix: nat, branch: Bit)
    requires c.Fork? && IsKey(c.key) && IsKey(KeyOf(d)) && IsKey(key) && c.prefix < KEY_BITS
    requires Edge(key, prefix, branch, c) && Edge(c.key, c.prefix, way, d)
    ensures Edge(key, prefix, branch, d)
  {
    AgreeBelow(KeyOf(d), c.key, c.prefix);
    AgreeBelow(c.key, key, prefix);
    AgreeBelow(KeyOf(d), key, prefix);
  }

  // ----- a tree as far as it has been walked -----

  /** Holes are handles still on the stack. */
  datatype Part =
    | Hole(slot: nat)
    | Bud(slot: nat, order: Order)
    | Limb(slot: nat, prefix: nat, key: Key, left: Part, right: Part)

  /** A stack entry: a handle, the fork above it and the branch taken there. */
  datatype Pending = Pending(slot: nat, parent: nat, branch: Bit)

  /** The holes from left to right are the stack from the bottom up. */
  function Holes(p: Part, parent: nat, branch: Bit): seq<Pending> {
    match p
    case Hole(slot) => [Pending(slot, parent, branch)]
    case Bud(_, _) => []
    case Limb(slot, _, _, left, right) => Holes(left, slot, 0) + Holes(right, slot, 1)
  }

  predicate Open(p: Part) {
    p.Hole? || (p.Limb? && (Open(p.left) || Open(p.right)))
  }

  /** Fills the last hole. */
  function Fill(p: Part, q: Part): Part
    requires Open(p)
  {
    if p.Hole? then q
    else if Open(p.right) then Limb(p.slot, p.prefix, p.key, p.left, Fill(p.right, q))
    else Limb(p.slot, p.prefix, p.key, Fill(p.left, q), p.right)
  }

  function Visits(p: Part, slot: nat): nat {
    match p
    case Hole(_) => 0
    case Bud(own, _) => if own == slot then 1 else 0
    case Limb(own, _, _, left, right) => (if own == slot then 1 else 0) + Visits(left, slot) + Visits(right, slot)
  }

  function Buds(p: Part): nat {
    match p
    case Hole(_) => 0
    case Bud(_, _) => 1
    case Limb(_, _, _, left, right) => Buds(left) + Buds(right)
  }

  predicate IsTreeNode(nodes: seq<Node>, slot: nat) {
    slot < |nodes| && (nodes[slot].Leaf? || nodes[slot].Inner?)
  }

  function NodeKey(n: Node): Key
    requires n.Leaf? || n.Inner?
  {
    if n.Leaf? then n.order.key else n.key
  }

  /** The check of a node against the fork above it. */
  predicate EdgeNodes(above: Node, branch: Bit, n: Node) {
    && above.Inner? && (n.Leaf? || n.Inner?)
    && OnBranch(NodeKey(n), above.key, above.prefixLen, branch)
    && (n.Inner? ==> above.prefixLen < n.prefixLen)
  }

  /** The check of a fork by itself. */
  predicate ForkNode(nodes: seq<Node>, n: Node) {
    && n.Inner? && n.prefixLen < KEY_BITS
    && IsTreeNode(nodes, n.child0) && IsTreeNode(nodes, n.child1)
    && n.expiry0 == SubtreeExpiry(nodes[n.child0]) && n.expiry1 == SubtreeExpiry(nodes[n.child1])
  }

  /** Everything walked so far is in the array and has been checked. */
  predicate Grown(nodes: seq<Node>, p: Part) {
    match p
    case Hole(_) => true
    case Bud(slot, order) => slot < |nodes| && nodes[slot] == Leaf(order)
    case Limb(slot, prefix, key, left, right) =>
      && LimbNode(nodes, slot, prefix, key, left.slot, right.slot)
      && (!left.Hole? ==> Joined(nodes, slot, 0, left.slot)) && (!right.Hole? ==> Joined(nodes, slot, 1, right.slot))
      && Grown(nodes, left) && Grown(nodes, right)
  }

  predicate LimbNode(nodes: seq<Node>, slot: nat, prefix: nat, key: Key, left: nat, right: nat) {
    && slot < |nodes| && ForkNode(nodes, nodes[slot])
    && nodes[slot].prefixLen == prefix && nodes[slot].key == key && nodes[slot].child0 == left
      && nodes[slot].child1 == right
  }

  predicate Joined(nodes: seq<Node>, above: nat, branch: Bit, slot: nat) {
    above < |nodes| && slot < |nodes| && EdgeNodes(nodes[above], branch, nodes[slot])
  }

  lemma {:induction false} OpenHasHoles(p: Part, parent: nat, branch: Bit)
    ensures Open(p) <==> Holes(p, parent, branch) != []
  {
    if p.Limb? {
      OpenHasHoles(p.left, p.slot, 0);
      OpenHasHoles(p.right, p.slot, 1);
    }
  }

  lemma {:induction false} FillHoles(p: Part, q: Part, parent: nat, branch: Bit)
    requires Open(p)
    ensures var hs := Holes(p, parent, branch);
            && hs != []
            && Holes(Fill(p, q), parent, branch) == hs[..|hs| - 1] + Holes(q, hs[|hs| - 1].parent, hs[|hs| - 1].branch)
  {
    if p.Limb? {
      var l, r := Holes(p.left, p.slot, 0), Holes(p.right, p.slot, 1);
      OpenHasHoles(p.right, p.slot, 1);
      if Open(p.right) {
        FillHoles(p.right, q, p.slot, 1);
        LastOfConcat(l, r, Holes(q, r[|r| - 1].parent, r[|r| - 1].branch));
      } else {
        FillHoles(p.left, q, p.slot, 0);
        assert l + r == l && r == [];
      }
    }
  }

  lemma LastOfConcat(l: seq<Pending>, r: seq<Pending>, added: seq<Pending>)
    requires r != []
    ensures (l + r)[|l + r| - 1] == r[|r| - 1]
    ensures (l + r)[..|l + r| - 1] + added == l + (r[..|r| - 1] + added)
  {}

  /** The last hole, found by going down. */
  function LastHole(p: Part, parent: nat, branch: Bit): Pending
    requires Open(p)
  {
    if p.Hole? then Pending(p.slot, parent, branch)
    else if Open(p.right) then LastHole(p.right, p.slot, 1)
    else LastHole(p.left, p.slot, 0)
  }

  lemma {:induction false} TopIsLastHole(p: Part, parent: nat, branch: Bit)
    requires Open(p)
    ensures var hs := Holes(p, parent, branch); hs != [] && hs[|hs| - 1] == LastHole(p, parent, branch)
  {
    if p.Limb? {
      var l, r := Holes(p.left, p.slot, 0), Holes(p.right, p.slot, 1);
      OpenHasHoles(p.right, p.slot, 1);
      if Open(p.right) {
        TopIsLastHole(p.right, p.slot, 1);
        LastOfConcat(l, r, []);
      } else {
        TopIsLastHole(p.left, p.slot, 0);
        assert l + r == l;
      }
    }
  }

  /** Below a walked fork, the last hole's fork has been walked. */
  lemma {:induction false} LastParent(p: Part, parent: nat, branch: Bit)
    requires Open(p) && p.Limb?
    ensures Visits(p, LastHole(p, parent, branch).parent) > 0
  {
    if Open(p.right) {
      if p.right.Limb? { LastParent(p.right, p.slot, 1); }
    } else {
      if p.left.Limb? { LastParent(p.left, p.slot, 0); }
    }
  }

  lemma {:induction false} FillCounts(p: Part, q: Part, slot: nat)
    requires Open(p)
    ensures Visits(Fill(p, q), slot) == Visits(p, slot) + Visits(q, slot)
    ensures Buds(Fill(p, q)) == Buds(p) + Buds(q)
  {
    if p.Limb? {
      if Open(p.right) { FillCounts(p.right, q, slot); } else { FillCounts(p.left, q, slot); }
    }
  }

  /** A node checked against the fork of a stack entry. */
  predicate Checked(nodes: seq<Node>, e: Pending, q: Part) {
    !q.Hole? && q.slot == e.slot && Grown(nodes, q) && Joined(nodes, e.parent, e.branch, e.slot)
  }

  lemma RightFilled(nodes: seq<Node>, p: Part, q: Part)
    requires p.Limb? && Grown(nodes, p) && Grown(nodes, q) && q.slot == p.right.slot && Joined(nodes, p.slot, 1, q.slot)
    ensures Grown(nodes, Limb(p.slot, p.prefix, p.key, p.left, q))
  {}

  lemma LeftFilled(nodes: seq<Node>, p: Part, q: Part)
    requires p.Limb? && Grown(nodes, p) && Grown(nodes, q) && q.slot == p.left.slot && Joined(nodes, p.slot, 0, q.slot)
    ensures Grown(nodes, Limb(p.slot, p.prefix, p.key, q, p.right))
  {}

  /** Filling the last hole with a checked node keeps everything checked. */
  lemma {:induction false} FillGrown(nodes: seq<Node>, p: Part, q: Part, parent: nat, branch: Bit)
    requires Open(p) && p.Limb? && Grown(nodes, p) && Checked(nodes, LastHole(p, parent, branch), q)
    ensures Grown(nodes, Fill(p, q)) && Fill(p, q).slot == p.slot
  {
    if Open(p.right) {
      assert LastHole(p, parent, branch) == LastHole(p.right, p.slot, 1);
      if p.right.Limb? { FillGrown(nodes, p.right, q, p.slot, 1); } else { assert p.right.Hole?; }
      RightFilled(nodes, p, Fill(p.right, q));
    } else {
      assert LastHole(p, parent, branch) == LastHole(p.left, p.slot, 0);
      if p.left.Limb? { FillGrown(nodes, p.left, q, p.slot, 0); } else { assert p.left.Hole?; }
      LeftFilled(nodes, p, Fill(p.left, q));
    }
  }

  // ----- a finished walk is a tree -----

  predicate Typed(nodes: seq<Node>) {
    forall i :: 0 <= i < |nodes| ==> TypedNode(nodes[i])
  }

  /** Whatever its bytes are, a key has 128 bits. */
  predicate TypedNode(n: Node) {
    (n.Leaf? ==> IsKey(n.order.key)) && (n.Inner? ==> IsKey(n.key))
  }

  function Whole(p: Part): Tree
    requires !Open(p)
  {
    if p.Bud? then Tip(p.slot, p.order) else Fork(p.slot, p.prefix, p.key, Whole(p.left), Whole(p.right))
  }

  lemma {:induction false} WholeIsTree(nodes: seq<Node>, p: Part)
    requires !Open(p) && Grown(nodes, p) && Typed(nodes)
    ensures Rep(nodes, Whole(p)) && Local(Whole(p)) && Keyed(Whole(p))
    ensures |Entries(Whole(p))| == Buds(p)
  {
    assert TypedNode(nodes[p.slot]);
    if p.Limb? {
      WholeIsTree(nodes, p.left);
      WholeIsTree(nodes, p.right);
    }
  }

  lemma {:induction false} WholeUses(p: Part, slot: nat)
    requires !Open(p)
    ensures Uses(Whole(p), slot) == Visits(p, slot)
  {
    if p.Limb? { WholeUses(p.left, slot); WholeUses(p.right, slot); }
  }

  // ----- a walk over a sound tree meets no fault -----

  /** The walked part of a given tree. */
  predicate Matches(p: Part, t: Tree) {
    match p
    case Hole(slot) => t.slot == slot
    case Bud(slot, order) => t == Tip(slot, order)
    case Limb(slot, prefix, key, left, right) =>
      t.Fork? && t.slot == slot && t.prefix == prefix && t.key == key && Matches(left, t.left)
          && Matches(right, t.right)
  }

  /** The subtree at the last hole. */
  function AtLast(p: Part, t: Tree): Tree
    requires Open(p) && Matches(p, t)
  {
    if p.Hole? then t else if Open(p.right) then AtLast(p.right, t.right) else AtLast(p.left, t.left)
  }

  /** What the walk learns of a node: its fields, and holes for its children. */
  function Sprout(nodes: seq<Node>, slot: nat): Part
    requires IsTreeNode(nodes, slot)
  {
    var n := nodes[slot];
    if n.Leaf? then Bud(slot, n.order) else Limb(slot, n.prefixLen, n.key, Hole(n.child0), Hole(n.child1))
  }

  lemma {:induction false} LastOfSound(nodes: seq<Node>, p: Part, t: Tree, parent: nat, branch: Bit)
    requires Open(p) && Matches(p, t) && Rep(nodes, t) && Local(t)
    ensures var u, e := AtLast(p, t), LastHole(p, parent, branch);
            && u.slot == e.slot && Rep(nodes, u) && Local(u)
            && (p.Limb? ==> Joined(nodes, e.parent, e.branch, u.slot))
  {
    if p.Limb? {
      if Open(p.right) {
        LastOfSound(nodes, p.right, t.right, p.slot, 1);
      } else {
        LastOfSound(nodes, p.left, t.left, p.slot, 0);
      }
    }
  }

  lemma {:induction false} LastIsNew(nodes: seq<Node>, p: Part, t: Tree)
    requires Open(p) && Matches(p, t) && Rep(nodes, t)
    ensures var u := AtLast(p, t);
            && Rep(nodes, u) && Visits(p, u.slot) < Uses(t, u.slot)
            && Matches(Fill(p, Sprout(nodes, u.slot)), t)
  {
    if p.Limb? {
      VisitsAtMost(p.left, t.left, AtLast(p, t).slot);
      VisitsAtMost(p.right, t.right, AtLast(p, t).slot);
      if Open(p.right) {
        LastIsNew(nodes, p.right, t.right);
      } else {
        LastIsNew(nodes, p.left, t.left);
      }
    }
  }

  lemma {:induction false} VisitsAtMost(p: Part, t: Tree, slot: nat)
    requires Matches(p, t)
    ensures Visits(p, slot) <= Uses(t, slot)
  {
    if p.Limb? { VisitsAtMost(p.left, t.left, slot); VisitsAtMost(p.right, t.right, slot); }
  }

  lemma SoundFork(nodes: seq<Node>, u: Tree)
    requires Rep(nodes, u) && Local(u) && u.Fork?
    ensures ForkNode(nodes, nodes[u.slot])
  {}

  lemma {:induction false} MatchedWhole(p: Part, t: Tree)
    requires Matches(p, t) && !Open(p)
    ensures Whole(p) == t
  {
    if p.Limb? { MatchedWhole(p.left, t.left); MatchedWhole(p.right, t.right); }
  }

  // ----- the walk -----

  const STACK_LENGTH := 129

  /** All checks of one node; `depth` is how many entries stay on the stack. */
  predicate NodeOk(nodes: seq<Node>, bump: nat, seen: seq<bool>, e: Pending, depth: nat) {
    && e.slot < bump && e.slot < |seen| && !seen[e.slot] && IsTreeNode(nodes, e.slot)
    && (e.parent != NONE ==> Joined(nodes, e.parent, e.branch, e.slot))
    && (nodes[e.slot].Inner? ==> ForkNode(nodes, nodes[e.slot]) && depth + 2 <= STACK_LENGTH)
  }

  /** The marks are those found before and the slots walked, each once. */
  ghost predicate Marked(before: seq<bool>, seen: seq<bool>, bump: nat, p: Part) {
    && |seen| == |before|
    && (forall x :: 0 <= x < |seen| ==> (seen[x] <==> before[x] || Visits(p, x) > 0))
    && forall x: nat :: Visits(p, x) <= if x < bump && x < |before| && !before[x] then 1 else 0
  }

  /** An entry lies no higher on the stack than its fork is deep. */
  predicate LowEnough(nodes: seq<Node>, e: Pending, i: nat) {
    if e.parent == NONE then i == 0
    else e.parent < |nodes| && nodes[e.parent].Inner? && i <= nodes[e.parent].prefixLen + e.branch
  }

  ghost predicate Walking(nodes: seq<Node>, bump: nat, before: seq<bool>, seen: seq<bool>, stack: seq<Pending>,
                          leaves: nat, p: Part) {
    && |before| == |nodes| && bump <= |nodes| <= NONE
    && stack == Holes(p, NONE, 0) && Grown(nodes, p) && leaves == Buds(p) && Marked(before, seen, bump, p)
    && forall i :: 0 <= i < |stack| ==> LowEnough(nodes, stack[i], i)
  }

  /** What is pushed for a node. */
  function Pushed(n: Node, slot: nat): seq<Pending> {
    if n.Inner? then [Pending(n.child0, slot, 0), Pending(n.child1, slot, 1)] else []
  }

  lemma WalkStep(nodes: seq<Node>, bump: nat, before: seq<bool>, seen: seq<bool>, stack: seq<Pending>, leaves: nat,
                 p: Part)
    requires Walking(nodes, bump, before, seen, stack, leaves, p) && stack != []
    requires NodeOk(nodes, bump, seen, stack[|stack| - 1], |stack| - 1)
    ensures Open(p)
    ensures var e := stack[|stack| - 1];
            var n, p' := nodes[e.slot], Fill(p, Sprout(nodes, e.slot));
            && p'.slot == p.slot
            && Walking(nodes, bump, before, seen[e.slot := true], stack[..|stack| - 1] + Pushed(n, e.slot),
                       leaves + (if n.Leaf? then 1 else 0), p')
  {
    var e := stack[|stack| - 1];
    OpenHasHoles(p, NONE, 0);
    WalkGrown(nodes, bump, before, seen, stack, p);
    WalkStack(nodes, p, stack);
    WalkMarks(nodes, bump, before, seen, p, e.slot);
    WalkLow(nodes, stack, nodes[e.slot], e);
  }

  lemma WalkStack(nodes: seq<Node>, p: Part, stack: seq<Pending>)
    requires Open(p) && stack == Holes(p, NONE, 0) && stack != [] && IsTreeNode(nodes, stack[|stack| - 1].slot)
    ensures var e := stack[|stack| - 1];
            var n, p' := nodes[e.slot], Fill(p, Sprout(nodes, e.slot));
            && Holes(p', NONE, 0) == stack[..|stack| - 1] + Pushed(n, e.slot)
            && Buds(p') == Buds(p) + if n.Leaf? then 1 else 0
  {
    var e := stack[|stack| - 1];
    var q := Sprout(nodes, e.slot);
    FillHoles(p, q, NONE, 0);
    FillCounts(p, q, 0);
    assert Holes(q, e.parent, e.branch) == Pushed(nodes[e.slot], e.slot);
  }

  lemma WalkGrown(nodes: seq<Node>, bump: nat, before: seq<bool>, seen: seq<bool>, stack: seq<Pending>, p: Part)
    requires stack == Holes(p, NONE, 0) && stack != [] && Open(p) && Grown(nodes, p)
             && Marked(before, seen, bump, p) && bump <= |nodes| <= NONE
    requires NodeOk(nodes, bump, seen, stack[|stack| - 1], |stack| - 1)
    ensures var p' := Fill(p, Sprout(nodes, stack[|stack| - 1].slot)); Grown(nodes, p') && p'.slot == p.slot
  {
    var q := Sprout(nodes, stack[|stack| - 1].slot);
    TopIsLastHole(p, NONE, 0);
    if p.Limb? {
      LastParent(p, NONE, 0);
      FillGrown(nodes, p, q, NONE, 0);
    }
  }

  lemma WalkMarks(nodes: seq<Node>, bump: nat, before: seq<bool>, seen: seq<bool>, p: Part, slot: nat)
    requires Marked(before, seen, bump, p) && |before| == |nodes| && bump <= |nodes| && Open(p)
    requires slot < bump && !seen[slot] && IsTreeNode(nodes, slot)
    ensures Marked(before, seen[slot := true], bump, Fill(p, Sprout(nodes, slot)))
  {
    var q := Sprout(nodes, slot);
    forall x: nat
      ensures Visits(Fill(p, q), x) == Visits(p, x) + if x == slot then 1 else 0
    {
      FillCounts(p, q, x);
    }
  }

  lemma WalkLow(nodes: seq<Node>, stack: seq<Pending>, n: Node, e: Pending)
    requires stack != [] && e == stack[|stack| - 1] && e.slot < |nodes| <= NONE && nodes[e.slot] == n
    requires forall i :: 0 <= i < |stack| ==> LowEnough(nodes, stack[i], i)
    requires n.Inner? && e.parent != NONE ==> Joined(nodes, e.parent, e.branch, e.slot)
    ensures var stack' := stack[..|stack| - 1] + Pushed(n, e.slot);
            forall i :: 0 <= i < |stack'| ==> LowEnough(nodes, stack'[i], i)
  {
    assert LowEnough(nodes, e, |stack| - 1);
  }

  /** Slots a sound tree may use: handed out, not marked, each once. */
  ghost predicate Fresh(t: Tree, bump: nat, before: seq<bool>) {
    forall x: nat :: Uses(t, x) <= if x < bump && x < |before| && !before[x] then 1 else 0
  }

  lemma NewSlot(bump: nat, before: seq<bool>, seen: seq<bool>, p: Part, t: Tree, x: nat)
    requires Marked(before, seen, bump, p) && Fresh(t, bump, before) && Visits(p, x) < Uses(t, x)
    ensures x < bump && x < |seen| && !seen[x]
  {
    assert Uses(t, x) <= 1;
  }

  /** The root of a sound tree in a new slot passes every check. */
  lemma SoundNode(nodes: seq<Node>, bump: nat, seen: seq<bool>, e: Pending, depth: nat, u: Tree)
    requires Rep(nodes, u) && Local(u) && e.slot == u.slot && e.slot < bump && e.slot < |seen| && !seen[e.slot]
    requires e.parent != NONE ==> Joined(nodes, e.parent, e.branch, e.slot)
    requires LowEnough(nodes, e, depth)
    ensures NodeOk(nodes, bump, seen, e, depth)
  {
    if u.Fork? {
      SoundFork(nodes, u);
      StackHasRoom(nodes, e, depth);
    }
  }

  lemma WalkComplete(nodes: seq<Node>, bump: nat, before: seq<bool>, seen: seq<bool>, stack: seq<Pending>,
                     leaves: nat, p: Part, t: Tree)
    requires Walking(nodes, bump, before, seen, stack, leaves, p) && stack != []
    requires Matches(p, t) && Rep(nodes, t) && Local(t) && Fresh(t, bump, before)
    ensures NodeOk(nodes, bump, seen, stack[|stack| - 1], |stack| - 1)
    ensures Open(p) && Matches(Fill(p, Sprout(nodes, stack[|stack| - 1].slot)), t)
  {
    OpenHasHoles(p, NONE, 0);
    TopIsLastHole(p, NONE, 0);
    var e, u := stack[|stack| - 1], AtLast(p, t);
    LastOfSound(nodes, p, t, NONE, 0);
    LastIsNew(nodes, p, t);
    NewSlot(bump, before, seen, p, t, u.slot);
    assert p.Hole? ==> e.parent == NONE;
    SoundNode(nodes, bump, seen, e, |stack| - 1, u);
  }

  /** The stack of 129 entries never overflows. */
  lemma StackHasRoom(nodes: seq<Node>, e: Pending, depth: nat)
    requires e.slot < |nodes| && nodes[e.slot].Inner? && nodes[e.slot].prefixLen < KEY_BITS
             && LowEnough(nodes, e, depth)
    requires e.parent != NONE ==> Joined(nodes, e.parent, e.branch, e.slot)
    ensures depth + 2 <= STACK_LENGTH
  {}

  function Unmarked(bits: seq<bool>): nat {
    if bits == [] then 0 else (if bits[0] then 0 else 1) + Unmarked(bits[1..])
  }

  lemma {:induction false} MarkingFalls(bits: seq<bool>, i: nat)
    requires i < |bits| && !bits[i]
    ensures Unmarked(bits[i := true]) < Unmarked(bits)
  {
    if i > 0 {
      assert bits[i := true][1..] == bits[1..][i - 1 := true];
      MarkingFalls(bits[1..], i - 1);
    } else {
      assert bits[0 := true][1..] == bits[1..];
    }
  }

  /** A tree that the walk of one root accounts for. */
  ghost predicate Found(nodes: seq<Node>, bump: nat, before: seq<bool>, seen: seq<bool>, root: nat, leaves: nat,
                        t: Option<Tree>) {
    && Holds(nodes, root, leaves, t)
    && |seen| == |before| && (forall x :: 0 <= x < |seen| ==> (seen[x] <==> before[x] || TreeUses(t, x) > 0))
    && forall x: nat :: TreeUses(t, x) <= if x < bump && x < |before| && !before[x] then 1 else 0
  }

  ghost predicate Sane(nodes: seq<Node>, bump: nat, before: seq<bool>, root: nat, t: Option<Tree>) {
    && Holds(nodes, root, |Orders(t)|, t)
    && (t.Some? ==> Fresh(t.value, bump, before))
  }

  lemma WalkDone(nodes: seq<Node>, bump: nat, before: seq<bool>, seen: seq<bool>, leaves: nat, p: Part)
    requires Walking(nodes, bump, before, seen, [], leaves, p) && Typed(nodes)
    ensures !Open(p) && Found(nodes, bump, before, seen, p.slot, leaves, Some(Whole(p)))
  {
    OpenHasHoles(p, NONE, 0);
    WholeIsTree(nodes, p);
    LocalIsShaped(Whole(p));
    forall x: nat
      ensures TreeUses(Some(Whole(p)), x) == Visits(p, x)
    {
      WholeUses(p, x);
    }
  }

  /** The walk of one tree. `guess` is any tree a reader may have in mind; it does not steer the walk. */
  method ValidateTree(nodes: array<Node>, bump: nat, root: nat, before: seq<bool>, ghost guess: Option<Tree>)
    returns (leaves: Option<nat>, seen: seq<bool>, ghost t: Option<Tree>)
    requires |before| == nodes.Length <= NONE && bump <= nodes.Length && Typed(nodes[..])
    ensures |seen| == |before|
    ensures leaves.Some? ==> Found(nodes[..], bump, before, seen, root, leaves.value, t)
    ensures Sane(nodes[..], bump, before, root, guess) ==> leaves.Some? && t == guess
  {
    leaves, seen, t := None, before, None;
    if root == NONE {
      return Some(0), seen, None;
    }
    var stack, count := [Pending(root, NONE, 0)], 0;
    ghost var p := Hole(root);
    ghost var sane := Sane(nodes[..], bump, before, root, guess);
    if sane { ShapedIsLocal(guess.value); }
    while stack != []
      invariant Walking(nodes[..], bump, before, seen, stack, count, p) && p.slot == root
      invariant sane ==> Matches(p, guess.value)
      decreases Unmarked(seen)
    {
      var e, rest := stack[|stack| - 1], stack[..|stack| - 1];
      if sane { WalkComplete(nodes[..], bump, before, seen, stack, count, p, guess.value); }
      if !NodeOk(nodes[..], bump, seen, e, |rest|) {
        return;
      }
      WalkStep(nodes[..], bump, before, seen, stack, count, p);
      MarkingFalls(seen, e.slot);
      p := Fill(p, Sprout(nodes[..], e.slot));
      seen := seen[e.slot := true];
      stack := rest + Pushed(nodes[e.slot], e.slot);
      count := count + if nodes[e.slot].Leaf? then 1 else 0;
    }
    WalkDone(nodes[..], bump, before, seen, count, p);
    if sane { MatchedWhole(p, guess.value); }
    return Some(count), seen, Some(Whole(p));
  }

  // ----- the free list -----

  predicate LinkTo(nodes: seq<Node>, list: seq<nat>, i: nat, end: nat)
    requires i < |list|
  {
    list[i] < |nodes| && PointsTo(nodes[list[i]], if i + 1 < |list| then list[i + 1] else end)
  }

  /** The list from the head leads to `end`. */
  predicate Leads(nodes: seq<Node>, head: nat, list: seq<nat>, end: nat) {
    && head == (if list == [] then end else list[0])
    && forall i :: 0 <= i < |list| ==> LinkTo(nodes, list, i, end)
  }

  lemma LeadsFurther(nodes: seq<Node>, head: nat, list: seq<nat>, end: nat, next: nat)
    requires Leads(nodes, head, list, end) && end < |nodes| && PointsTo(nodes[end], next)
    ensures Leads(nodes, head, list + [end], next)
  {
    forall i | 0 <= i < |list| + 1
      ensures LinkTo(nodes, list + [end], i, next)
    {
      if i < |list| { assert LinkTo(nodes, list, i, end); }
    }
  }

  lemma LeadsToNone(nodes: seq<Node>, head: nat, list: seq<nat>)
    requires Leads(nodes, head, list, NONE)
    ensures Chain(nodes, head, list)
  {
    forall i | 0 <= i < |list|
      ensures LinkAt(nodes, list, i)
    {
      assert LinkTo(nodes, list, i, NONE);
    }
  }

  lemma {:induction false} ListedSnoc(list: seq<nat>, slot: nat, x: nat)
    ensures Listed(list + [slot], x) == Listed(list, x) + if slot == x then 1 else 0
  {
    if list != [] {
      assert (list + [slot])[1..] == list[1..] + [slot];
      ListedSnoc(list[1..], slot, x);
    }
  }

  lemma {:induction false} ListedPrefix(list: seq<nat>, k: nat, x: nat)
    requires k <= |list|
    ensures Listed(list[..k], x) <= Listed(list, x)
    decreases |list| - k
  {
    if k < |list| {
      assert list[..k + 1] == list[..k] + [list[k]];
      ListedSnoc(list[..k], list[k], x);
      ListedPrefix(list, k + 1, x);
    } else {
      assert list[..k] == list;
    }
  }

  /** The slots of the list, each once, handed out and in no tree. */
  ghost predicate Separate(list: seq<nat>, bump: nat, seen: seq<bool>) {
    forall x: nat :: Listed(list, x) <= if x < bump && x < |seen| && !seen[x] then 1 else 0
  }

  ghost predicate ListMarked(list: seq<nat>, free: seq<bool>) {
    forall x :: 0 <= x < |free| ==> (free[x] <==> Listed(list, x) > 0)
  }

  /** A given list of which the walk has come through a part. */
  predicate Follows(guess: seq<nat>, list: seq<nat>, cursor: nat) {
    |list| <= |guess| && guess[..|list|] == list && cursor == if |list| < |guess| then guess[|list|] else NONE
  }

  lemma NextIsNew(nodes: seq<Node>, head: nat, guess: seq<nat>, list: seq<nat>, cursor: nat, bump: nat, seen: seq<bool>)
    requires Chain(nodes, head, guess) && Separate(guess, bump, seen) && Follows(guess, list, cursor) && cursor != NONE
    ensures cursor < bump && cursor < |seen| && !seen[cursor] && Listed(list, cursor) == 0
    ensures cursor < |nodes| && (nodes[cursor].Free? || nodes[cursor].LastFree?)
    ensures Follows(guess, list + [cursor], if nodes[cursor].Free? then nodes[cursor].next else NONE)
  {
    var k := |list|;
    assert LinkAt(nodes, guess, k);
    assert guess[..k + 1] == list + [cursor];
    ListedSnoc(list, cursor, cursor);
    ListedPrefix(guess, k + 1, cursor);
    assert Listed(guess, cursor) <= if cursor < bump && cursor < |seen| && !seen[cursor] then 1 else 0;
  }

  lemma FollowedToEnd(nodes: seq<Node>, head: nat, guess: seq<nat>, list: seq<nat>)
    requires Chain(nodes, head, guess) && |nodes| <= NONE && Follows(guess, list, NONE)
    ensures list == guess
  {
    assert |list| < |guess| ==> LinkAt(nodes, guess, |list|);
  }

  lemma ListGrows(list: seq<nat>, slot: nat, bump: nat, seen: seq<bool>, free: seq<bool>)
    requires Separate(list, bump, seen) && ListMarked(list, free) && |free| == |seen|
    requires slot < bump && slot < |seen| && !seen[slot] && !free[slot]
    ensures Separate(list + [slot], bump, seen) && ListMarked(list + [slot], free[slot := true])
  {
    forall x: nat
      ensures Listed(list + [slot], x) == Listed(list, x) + if slot == x then 1 else 0
    {
      ListedSnoc(list, slot, x);
    }
  }

  method ValidateFree(nodes: array<Node>, bump: nat, head: nat, seen: seq<bool>, ghost guess: seq<nat>)
    returns (length: Option<nat>, free: seq<bool>, ghost list: seq<nat>)
    requires |seen| == nodes.Length && bump <= nodes.Length <= NONE
    ensures |free| == |seen|
    ensures length.Some? ==>
              Chain(nodes[..], head, list) && length.value == |list| && Separate(list, bump, seen)
                  && ListMarked(list, free)
    ensures Chain(nodes[..], head, guess) && Separate(guess, bump, seen) ==> length.Some? && list == guess
  {
    length, free, list := None, seq(nodes.Length, _ => false), [];
    var cursor: nat, count: nat := head, 0;
    ghost var sane := Chain(nodes[..], head, guess) && Separate(guess, bump, seen);
    while cursor != NONE
      invariant |free| == |seen| && count == |list| && Leads(nodes[..], head, list, cursor)
      invariant Separate(list, bump, seen) && ListMarked(list, free)
      invariant sane ==> Follows(guess, list, cursor)
      decreases Unmarked(free)
    {
      if sane { NextIsNew(nodes[..], head, guess, list, cursor, bump, seen); }
      if cursor >= bump || free[cursor] || seen[cursor] || !(nodes[cursor].Free? || nodes[cursor].LastFree?) {
        return;
      }
      var next := if nodes[cursor].Free? then nodes[cursor].next else NONE;
      ListGrows(list, cursor, bump, seen, free);
      LeadsFurther(nodes[..], head, list, cursor, next);
      MarkingFalls(free, cursor);
      free, count, list := free[cursor := true], count + 1, list + [cursor];
      cursor := next;
    }
    LeadsToNone(nodes[..], head, list);
    if sane { FollowedToEnd(nodes[..], head, guess, list); }
    length := Some(count);
  }

  // ----- counting slots -----

  function UsesBelow(t: Tree, n: nat): nat {
    (if t.slot < n then 1 else 0) + if t.Tip? then 0 else UsesBelow(t.left, n) + UsesBelow(t.right, n)
  }

  lemma {:induction false} UsesBelowNext(t: Tree, n: nat)
    ensures UsesBelow(t, n + 1) == UsesBelow(t, n) + Uses(t, n)
    ensures UsesBelow(t, 0) == 0
  {
    if t.Fork? { UsesBelowNext(t.left, n); UsesBelowNext(t.right, n); }
  }

  lemma {:induction false} UsesBelowAll(t: Tree, n: nat)
    requires forall x: nat :: Uses(t, x) > 0 ==> x < n
    ensures UsesBelow(t, n) == Size(t)
  {
    assert Uses(t, t.slot) > 0;
    if t.Fork? {
      forall x: nat | Uses(t.left, x) > 0 || Uses(t.right, x) > 0
        ensures x < n
      {
        assert Uses(t, x) > 0;
      }
      UsesBelowAll(t.left, n);
      UsesBelowAll(t.right, n);
    }
  }

  function TreeBelow(t: Option<Tree>, n: nat): nat {
    if t.None? then 0 else UsesBelow(t.value, n)
  }

  function ListedBelow(list: seq<nat>, n: nat): nat {
    if list == [] then 0 else (if list[0] < n then 1 else 0) + ListedBelow(list[1..], n)
  }

  lemma {:induction false} ListedBelowNext(list: seq<nat>, n: nat)
    ensures ListedBelow(list, n + 1) == ListedBelow(list, n) + Listed(list, n)
    ensures ListedBelow(list, 0) == 0
  {
    if list != [] { ListedBelowNext(list[1..], n); }
  }

  lemma {:induction false} ListedBelowAll(list: seq<nat>, n: nat)
    requires forall x: nat :: Listed(list, x) > 0 ==> x < n
    ensures ListedBelow(list, n) == |list|
  {
    if list != [] {
      assert Listed(list, list[0]) > 0;
      forall x: nat | Listed(list[1..], x) > 0
        ensures x < n
      {
        assert Listed(list, x) > 0;
      }
      ListedBelowAll(list[1..], n);
    }
  }

  lemma TreeBelowNext(t: Option<Tree>, n: nat)
    ensures TreeBelow(t, n + 1) == TreeBelow(t, n) + TreeUses(t, n)
    ensures TreeBelow(t, 0) == 0
  {
    if t.Some? { UsesBelowNext(t.value, n); }
  }

  lemma TreeBelowAll(t: Option<Tree>, n: nat)
    requires forall x: nat :: TreeUses(t, x) > 0 ==> x < n
    ensures TreeBelow(t, n) == TreeSize(t)
  {
    if t.Some? {
      forall x: nat | Uses(t.value, x) > 0
        ensures x < n
      {
        assert TreeUses(t, x) > 0;
      }
      UsesBelowAll(t.value, n);
    }
  }

  lemma {:induction false} PlacesBelow(trees: Trees, free: seq<nat>, bump: nat, n: nat)
    requires n <= bump && forall x: nat :: Places(trees, free, [], x) == if x < bump then 1 else 0
    ensures TreeBelow(trees.fixed, n) + TreeBelow(trees.pegged, n) + ListedBelow(free, n) == n
  {
    var k := if n == 0 then 0 else n - 1;
    TreeBelowNext(trees.fixed, k);
    TreeBelowNext(trees.pegged, k);
    ListedBelowNext(free, k);
    if n > 0 {
      PlacesBelow(trees, free, bump, n - 1);
      assert Places(trees, free, [], n - 1) == 1;
    }
  }

  /** Slots used once each add up. */
  lemma SlotsAddUp(trees: Trees, free: seq<nat>, bump: nat)
    requires forall x: nat :: Places(trees, free, [], x) == if x < bump then 1 else 0
    ensures Accounted(trees, free, [], bump)
  {
    PlacesBelow(trees, free, bump, bump);
    forall x: nat | TreeUses(trees.fixed, x) > 0 || TreeUses(trees.pegged, x) > 0 || Listed(free, x) > 0
      ensures x < bump
    {
      assert Places(trees, free, [], x) > 0;
    }
    TreeBelowAll(trees.fixed, bump);
    TreeBelowAll(trees.pegged, bump);
    ListedBelowAll(free, bump);
  }

  // ----- the whole check -----

  lemma FirstIsSane(a: Image, trees: Trees, free: seq<nat>, none: seq<bool>)
    requires Sound(a, trees, free, []) && |none| == CAPACITY && forall x :: 0 <= x < CAPACITY ==> !none[x]
    ensures Sane(a.nodes, a.bump, none, a.roots.At(0), trees.At(0)) && a.counts.At(0) == |Orders(trees.At(0))|
  {
    assert Holds(a.nodes, a.roots.At(0), a.counts.At(0), trees.At(0));
    if trees.fixed.Some? {
      forall x: nat
        ensures Uses(trees.fixed.value, x) <= if x < a.bump && x < |none| && !none[x] then 1 else 0
      {
        assert Places(trees, free, [], x) == if x < a.bump then 1 else 0;
      }
    }
  }

  lemma SecondIsSane(a: Image, trees: Trees, free: seq<nat>, seen: seq<bool>)
    requires Sound(a, trees, free, []) && |seen| == CAPACITY
    requires forall x :: 0 <= x < CAPACITY ==> (seen[x] <==> TreeUses(trees.fixed, x) > 0)
    ensures Sane(a.nodes, a.bump, seen, a.roots.At(1), trees.At(1)) && a.counts.At(1) == |Orders(trees.At(1))|
  {
    assert Holds(a.nodes, a.roots.At(1), a.counts.At(1), trees.At(1));
    if trees.pegged.Some? {
      forall x: nat
        ensures Uses(trees.pegged.value, x) <= if x < a.bump && x < |seen| && !seen[x] then 1 else 0
      {
        assert Places(trees, free, [], x) == if x < a.bump then 1 else 0;
      }
    }
  }

  lemma FreeIsSane(a: Image, trees: Trees, free: seq<nat>, seen: seq<bool>)
    requires Sound(a, trees, free, []) && |seen| == CAPACITY
    requires forall x :: 0 <= x < CAPACITY ==>
               (seen[x] <==> TreeUses(trees.fixed, x) > 0 || TreeUses(trees.pegged, x) > 0)
    ensures Separate(free, a.bump, seen)
    ensures forall x :: 0 <= x < a.bump ==> seen[x] || Listed(free, x) > 0
  {
    forall x: nat
      ensures Listed(free, x) <= if x < a.bump && x < |seen| && !seen[x] then 1 else 0
      ensures x < a.bump ==> seen[x] || Listed(free, x) > 0
    {
      assert Places(trees, free, [], x) == if x < a.bump then 1 else 0;
    }
  }

  /** Two found trees and a separate free list that cover all slots handed out make a sound arena. */
  lemma FoundIsSound(a: Image, trees: Trees, free: seq<nat>, none: seq<bool>, seen0: seq<bool>, seen1: seq<bool>)
    requires |a.nodes| == CAPACITY && a.bump <= CAPACITY && |none| == CAPACITY && forall x :: 0 <= x < CAPACITY ==>
               !none[x]
    requires Found(a.nodes, a.bump, none, seen0, a.roots.At(0), a.counts.At(0), trees.At(0))
    requires Found(a.nodes, a.bump, seen0, seen1, a.roots.At(1), a.counts.At(1), trees.At(1))
    requires Chain(a.nodes, a.freeHead, free) && a.freeLen == |free| && Separate(free, a.bump, seen1)
    requires forall x :: 0 <= x < a.bump ==> seen1[x] || Listed(free, x) > 0
    ensures Sound(a, trees, free, [])
  {
    forall x: nat
      ensures Places(trees, free, [], x) == if x < a.bump then 1 else 0
    {
      assert TreeUses(trees.At(0), x) <= 1 && TreeUses(trees.At(1), x) <= 1 && Listed(free, x) <= 1;
    }
    SlotsAddUp(trees, free, a.bump);
    forall i: Bit
      ensures Holds(a.nodes, a.roots.At(i), a.counts.At(i), trees.At(i))
    {
      assert i == 0 || i == 1;
    }
  }

  /** Some two trees and some free list are what the array spells out. */
  ghost predicate Readable(a: Image) {
    exists trees, free :: Sound(a, trees, free, [])
  }

  /** Accepts an arena if and only if it spells out two well-formed trees and a free list, each slot in one place,
      and every slot past the allocated ones has its first tag. */
  method Validate(arena: Arena) returns (ok: bool)
    requires arena.nodes.Length == CAPACITY && Typed(arena.nodes[..])
    ensures ok <==> Readable(arena.Value()) && arena.Clean()
  {
    var nodes, bump := arena.nodes, arena.bump;
    if bump > CAPACITY {
      return false;
    }
    ghost var a := arena.Value();
    ghost var trees, list := Two(None, None), [];
    if Readable(a) { trees, list :| Sound(a, trees, list, []); }
    var none: seq<bool> := seq(CAPACITY, _ => false);
    if Readable(a) { FirstIsSane(a, trees, list, none); }
    var fixed, seen0, t0 := ValidateTree(nodes, bump, arena.roots.At(0), none, trees.fixed);
    if fixed != Some(arena.counts.At(0)) {
      return false;
    }
    if Readable(a) { SecondIsSane(a, trees, list, seen0); }
    var pegged, seen1, t1 := ValidateTree(nodes, bump, arena.roots.At(1), seen0, trees.pegged);
    if pegged != Some(arena.counts.At(1)) {
      return false;
    }
    if Readable(a) { FreeIsSane(a, trees, list, seen1); }
    var length, listed, found := ValidateFree(nodes, bump, arena.freeHead, seen1, list);
    if length != Some(arena.freeLen) {
      return false;
    }
    var covered := Covers(bump, seen1, listed);
    if !covered {
      return false;
    }
    FoundIsSound(a, Two(t0, t1), found, none, seen0, seen1);
    ok := RestUninitialized(nodes, bump);
  }

  method Covers(bump: nat, seen: seq<bool>, free: seq<bool>) returns (ok: bool)
    requires bump <= |seen| == |free|
    ensures ok <==> forall x :: 0 <= x < bump ==> seen[x] || free[x]
  {
    for slot := 0 to bump
      invariant forall x :: 0 <= x < slot ==> seen[x] || free[x]
    {
      if !seen[slot] && !free[slot] {
        return false;
      }
    }
    return true;
  }

  method RestUninitialized(nodes: array<Node>, bump: nat) returns (ok: bool)
    requires bump <= nodes.Length
    ensures ok <==> forall x :: bump <= x < nodes.Length ==> nodes[x].Uninitialized?
  {
    for slot := bump to nodes.Length
      invariant forall x :: bump <= x < slot ==> nodes[x].Uninitialized?
    {
      if !nodes[slot].Uninitialized? {
        return false;
      }
    }
    return true;
  }
}
