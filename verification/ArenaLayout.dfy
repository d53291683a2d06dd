/**
 What the node array of an order-book arena in `programs/equinox/src/book.rs`
 spells out: two trees and a free list that share its slots. Everything here is
 about values; `BookArena` changes the array in place.
 */
module ArenaLayout {
  import opened Wrappers
  import opened OrderKeys
  import opened Patricia

  const CAPACITY := 1024
  const PATH_LENGTH := 128
  const NONE := 0xFFFF_FFFF

  /** The tagged union of the array's slots; a tag above 4 is unknown. */
  datatype Node =
    | Uninitialized
    | Inner(prefixLen: nat, key: Key, child0: nat, child1: nat, expiry0: u64, expiry1: u64)
    | Leaf(order: Order)
    | Free(next: nat)
    | LastFree
    | Unknown(tag: nat)

  datatype BookError = Full | DuplicateKey | MissingKey | InvalidOwner | Integrity | BadLimit | BadPrice

  datatype Result<+T> = Ok(value: T) | Err(error: BookError)

  /** One value for each tree: the fixed orders and the oracle-pegged ones. */
  datatype Two<+T> = Two(fixed: T, pegged: T) {
    function At(tree: Bit): T {
      if tree == 0 then fixed else pegged
    }

    function With(tree: Bit, value: T): Two<T> {
      if tree == 0 then Two(value, pegged) else Two(fixed, value)
    }
  }

  function Child(n: Node, branch: Bit): nat
    requires n.Inner?
  {
    if branch == 0 then n.child0 else n.child1
  }

  function WithChild(n: Node, branch: Bit, child: nat, expiry: u64): Node
    requires n.Inner?
  {
    if branch == 0 then n.(child0 := child, expiry0 := expiry) else n.(child1 := child, expiry1 := expiry)
  }

  // ----- what the array spells out -----

  function NodeOf(t: Tree): Node {
    match t
    case Tip(_, order) => Leaf(order)
    case Fork(_, prefix, key, left, right) => Inner(prefix, key, left.slot, right.slot, Earliest(left), Earliest(right))
  }

  predicate Rep(nodes: seq<Node>, t: Tree) {
    && t.slot < |nodes| && nodes[t.slot] == NodeOf(t)
    && (t.Fork? ==> Rep(nodes, t.left) && Rep(nodes, t.right))
  }

  /** A fork's node, up to the expiry cached for the branch taken. */
  predicate Links(n: Node, f: Frame, hole: nat) {
    && n.Inner? && n.prefixLen == f.prefix && n.key == f.key && Child(n, f.branch) == hole
    && (if f.branch == 0 then n.child1 == f.sibling.slot && n.expiry1 == Earliest(f.sibling)
        else n.child0 == f.sibling.slot && n.expiry0 == Earliest(f.sibling))
  }

  predicate Linked(nodes: seq<Node>, frames: seq<Frame>, hole: nat) {
    frames == [] ||
    var f := frames[|frames| - 1];
    && f.slot < |nodes| && Links(nodes[f.slot], f, hole) && Rep(nodes, f.sibling)
    && Linked(nodes, frames[..|frames| - 1], f.slot)
  }

  function FreeNode(head: nat): Node {
    if head == NONE then LastFree else Free(head)
  }

  /** The list ends with the last tag, or with a link to none. */
  predicate PointsTo(n: Node, next: nat) {
    n == Free(next) || (n.LastFree? && next == NONE)
  }

  predicate LinkAt(nodes: seq<Node>, free: seq<nat>, i: nat)
    requires i < |free|
  {
    free[i] < |nodes| && PointsTo(nodes[free[i]], if i + 1 < |free| then free[i + 1] else NONE)
  }

  /** The free list: each slot names the next, the last none. */
  predicate Chain(nodes: seq<Node>, head: nat, free: seq<nat>) {
    && head == (if free == [] then NONE else free[0])
    && forall i :: 0 <= i < |free| ==> LinkAt(nodes, free, i)
  }

  function Listed(slots: seq<nat>, slot: nat): nat {
    if slots == [] then 0 else (if slots[0] == slot then 1 else 0) + Listed(slots[1..], slot)
  }

  lemma {:induction false} RepSame(nodes: seq<Node>, nodes': seq<Node>, t: Tree)
    requires Rep(nodes, t) && |nodes'| == |nodes|
    requires forall x :: 0 <= x < |nodes| && Uses(t, x) > 0 ==> nodes'[x] == nodes[x]
    ensures Rep(nodes', t)
  {
    assert Uses(t, t.slot) > 0;
    if t.Fork? {
      forall x | 0 <= x < |nodes| && (Uses(t.left, x) > 0 || Uses(t.right, x) > 0)
        ensures nodes'[x] == nodes[x]
      {
        assert Uses(t, x) > 0;
      }
      RepSame(nodes, nodes', t.left);
      RepSame(nodes, nodes', t.right);
    }
  }

  lemma {:induction false} LinkedSame(nodes: seq<Node>, nodes': seq<Node>, frames: seq<Frame>, hole: nat)
    requires Linked(nodes, frames, hole) && |nodes'| == |nodes|
    requires forall x :: 0 <= x < |nodes| && FrameUses(frames, x) > 0 ==> nodes'[x] == nodes[x]
    ensures Linked(nodes', frames, hole)
  {
    if frames != [] {
      var front, f := frames[..|frames| - 1], frames[|frames| - 1];
      assert FrameUses(frames, f.slot) > 0;
      forall x | 0 <= x < |nodes| && (FrameUses(front, x) > 0 || Uses(f.sibling, x) > 0)
        ensures nodes'[x] == nodes[x]
      {
        assert FrameUses(frames, x) > 0;
      }
      RepSame(nodes, nodes', f.sibling);
      LinkedSame(nodes, nodes', front, f.slot);
    }
  }

  lemma {:induction false} ListedAt(slots: seq<nat>, i: nat)
    requires i < |slots|
    ensures Listed(slots, slots[i]) > 0
  {
    if i > 0 { ListedAt(slots[1..], i - 1); }
  }

  lemma {:induction false} ListedIndex(slots: seq<nat>, slot: nat) returns (i: nat)
    requires Listed(slots, slot) > 0
    ensures i < |slots| && slots[i] == slot
  {
    if slots[0] == slot {
      i := 0;
    } else {
      i := ListedIndex(slots[1..], slot);
      i := i + 1;
    }
  }

  lemma ChainSame(nodes: seq<Node>, nodes': seq<Node>, head: nat, free: seq<nat>)
    requires Chain(nodes, head, free) && |nodes'| == |nodes|
    requires forall x :: 0 <= x < |nodes| && Listed(free, x) > 0 ==> nodes'[x] == nodes[x]
    ensures Chain(nodes', head, free)
  {
    forall i | 0 <= i < |free|
      ensures LinkAt(nodes', free, i)
    {
      assert LinkAt(nodes, free, i);
      ListedAt(free, i);
    }
  }

  lemma {:induction false} RepOpens(nodes: seq<Node>, frames: seq<Frame>, t: Tree)
    requires Rep(nodes, Plug(frames, t))
    ensures Rep(nodes, t) && Linked(nodes, frames, t.slot)
  {
    if frames != [] { RepOpens(nodes, frames[..|frames| - 1], Wrap(frames[|frames| - 1], t)); }
  }

  // ----- the whole arena -----

  type Trees = Two<Option<Tree>>

  /** The fields of an arena. */
  datatype Image = Image(
    nodes: seq<Node>, roots: Two<nat>, counts: Two<nat>, bump: nat, freeHead: nat, freeLen: nat)

  function Orders(t: Option<Tree>): seq<Entry> {
    if t.None? then [] else Entries(t.value)
  }

  function TreeUses(t: Option<Tree>, slot: nat): nat {
    if t.None? then 0 else Uses(t.value, slot)
  }

  function TreeSize(t: Option<Tree>): nat {
    if t.None? then 0 else Size(t.value)
  }

  /** A leaf for every order and a fork for all but one. */
  function SlotsFor(orders: nat): nat {
    if orders == 0 then 0 else 2 * orders - 1
  }

  predicate Holds(nodes: seq<Node>, root: nat, count: nat, t: Option<Tree>) {
    && count == |Orders(t)|
    && (if t.None? then root == NONE else root == t.value.slot && Rep(nodes, t.value) && Shaped(t.value))
  }

  /** A slot's places in one tree, on the free list and among the spare ones. */
  function Share(t: Option<Tree>, free: seq<nat>, spare: seq<nat>, slot: nat): nat {
    TreeUses(t, slot) + Listed(free, slot) + Listed(spare, slot)
  }

  function Places(trees: Trees, free: seq<nat>, spare: seq<nat>, slot: nat): nat
  {
    Share(trees.At(0), free, spare, slot) + TreeUses(trees.At(1), slot)
  }

  /** Every slot handed out is in one tree, on the free list or spare, and once. */
  ghost predicate Accounted(trees: Trees, free: seq<nat>, spare: seq<nat>, bump: nat) {
    && (forall x: nat :: Places(trees, free, spare, x) == if x < bump then 1 else 0)
    && TreeSize(trees.At(0)) + TreeSize(trees.At(1)) + |free| + |spare| == bump
  }

  ghost predicate Sound(a: Image, trees: Trees, free: seq<nat>, spare: seq<nat>) {
    && |a.nodes| == CAPACITY && a.bump <= CAPACITY
    && (forall i: Bit :: Holds(a.nodes, a.roots.At(i), a.counts.At(i), trees.At(i)))
    && Chain(a.nodes, a.freeHead, free) && a.freeLen == |free|
    && Accounted(trees, free, spare, a.bump)
  }

  // ----- slots come and go -----

  lemma HeadIsFree(nodes: seq<Node>, head: nat, free: seq<nat>)
    requires Chain(nodes, head, free) && |nodes| <= NONE
    ensures head == NONE <==> free == []
    ensures free != [] ==> head < |nodes| && !nodes[head].Uninitialized?
  {
    if free != [] { assert LinkAt(nodes, free, 0); }
  }

  lemma ChainGrows(nodes: seq<Node>, head: nat, free: seq<nat>, slot: nat)
    requires Chain(nodes, head, free) && slot < |nodes| <= NONE && Listed(free, slot) == 0
    ensures Chain(nodes[slot := FreeNode(head)], slot, [slot] + free)
  {
    var nodes', free' := nodes[slot := FreeNode(head)], [slot] + free;
    forall i | 0 <= i < |free'|
      ensures LinkAt(nodes', free', i)
    {
      if i > 0 {
        assert LinkAt(nodes, free, i - 1);
        ListedAt(free, i - 1);
      }
    }
  }

  lemma ChainShrinks(nodes: seq<Node>, head: nat, free: seq<nat>)
    requires Chain(nodes, head, free) && head != NONE
    ensures free != [] && head == free[0] < |nodes| && PointsTo(nodes[head], if |free| > 1 then free[1] else NONE)
    ensures Chain(nodes, if |free| > 1 then free[1] else NONE, free[1..])
  {
    assert LinkAt(nodes, free, 0);
    forall i | 0 <= i < |free| - 1
      ensures LinkAt(nodes, free[1..], i)
    {
      assert LinkAt(nodes, free, i + 1);
    }
  }

  lemma ListedMore(slots: seq<nat>, slot: nat, x: nat)
    ensures Listed([slot] + slots, x) == (if slot == x then 1 else 0) + Listed(slots, x)
  {
    assert ([slot] + slots)[1..] == slots;
  }

  /** A free slot becomes spare. */
  lemma TakeFree(a: Image, trees: Trees, free: seq<nat>, spare: seq<nat>)
    requires Sound(a, trees, free, spare) && a.freeHead != NONE
    ensures free != [] && free[0] == a.freeHead < CAPACITY && a.freeLen > 0
    ensures var n := a.nodes[a.freeHead];
            && (n.Free? || n.LastFree?)
            && Sound(a.(freeHead := if n.Free? then n.next else NONE, freeLen := a.freeLen - 1),
                     trees, free[1..], [a.freeHead] + spare)
  {
    ChainShrinks(a.nodes, a.freeHead, free);
    if |free| > 1 { assert LinkAt(a.nodes, free, 1); }
    forall x: nat
      ensures Places(trees, free[1..], [a.freeHead] + spare, x) == Places(trees, free, spare, x)
    {
      ListedMore(spare, a.freeHead, x);
    }
  }

  lemma TakeNext(a: Image, trees: Trees, free: seq<nat>, spare: seq<nat>)
    requires Sound(a, trees, free, spare) && a.bump < CAPACITY
    ensures Sound(a.(bump := a.bump + 1), trees, free, [a.bump] + spare)
  {
    forall x: nat
      ensures Places(trees, free, [a.bump] + spare, x) == (if a.bump == x then 1 else 0) + Places(trees, free, spare, x)
    {
      ListedMore(spare, a.bump, x);
    }
  }

  /** A spare slot is nowhere else. */
  lemma SpareIsAlone(a: Image, trees: Trees, free: seq<nat>, slot: nat, spare: seq<nat>)
    requires Sound(a, trees, free, [slot] + spare)
    ensures slot < a.bump && TreeUses(trees.At(0), slot) == 0 && TreeUses(trees.At(1), slot) == 0
    ensures Listed(free, slot) == 0 && Listed(spare, slot) == 0
  {
    ListedMore(spare, slot, slot);
    assert Places(trees, free, [slot] + spare, slot) <= 1;
  }

  lemma GiveFree(a: Image, trees: Trees, free: seq<nat>, slot: nat)
    requires Sound(a, trees, free, [slot])
    ensures slot < a.bump && Listed(free, slot) == 0
    ensures Sound(a.(nodes := a.nodes[slot := FreeNode(a.freeHead)], freeHead := slot, freeLen := a.freeLen + 1),
                  trees, [slot] + free, [])
  {
    assert [slot] + [] == [slot];
    SpareIsAlone(a, trees, free, slot, []);
    var nodes' := a.nodes[slot := FreeNode(a.freeHead)];
    HoldsSame(a.nodes, nodes', a.roots.At(0), a.counts.At(0), trees.At(0));
    HoldsSame(a.nodes, nodes', a.roots.At(1), a.counts.At(1), trees.At(1));
    ChainGrows(a.nodes, a.freeHead, free, slot);
    forall x: nat
      ensures Places(trees, [slot] + free, [], x) == Places(trees, free, [slot], x)
    {
      ListedMore(free, slot, x);
    }
  }

  lemma GiveLast(a: Image, trees: Trees, free: seq<nat>, slot: nat)
    requires Sound(a, trees, free, [slot]) && slot + 1 == a.bump
    ensures Sound(a.(bump := slot), trees, free, [])
  {
    forall x: nat
      ensures Places(trees, free, [], x) == if x < slot then 1 else 0
    {
      assert [slot] + [] == [slot];
      ListedMore([], slot, x);
      assert Places(trees, free, [slot], x) == if x < a.bump then 1 else 0;
    }
  }

  // ----- operations in place -----

  function PathOf(frames: seq<Frame>): seq<(nat, Bit)> {
    seq(|frames|, i requires 0 <= i < |frames| => (frames[i].slot, frames[i].branch))
  }

  lemma PathSnoc(frames: seq<Frame>, f: Frame)
    ensures PathOf(frames + [f]) == PathOf(frames) + [(f.slot, f.branch)]
  {}

  lemma KidInArray(nodes: seq<Node>, t: Tree, branch: Bit)
    requires t.Fork? && Rep(nodes, t)
    ensures Rep(nodes, Kid(t, branch)) && Child(nodes[t.slot], branch) == Kid(t, branch).slot
  {}

  /** No slot is used twice on a way and below it. */
  ghost predicate Apart(frames: seq<Frame>, t: Tree) {
    forall x: nat :: WayUses(frames, t, x) <= 1
  }

  function WayUses(frames: seq<Frame>, t: Tree, slot: nat): nat {
    FrameUses(frames, slot) + Uses(t, slot)
  }

  ghost predicate OnlyWayChanged(nodes: seq<Node>, nodes': seq<Node>, frames: seq<Frame>) {
    |nodes'| == |nodes| && forall x :: 0 <= x < |nodes| && FrameUses(frames, x) == 0 ==> nodes'[x] == nodes[x]
  }

  /** A fork's node up to its cached expiries. */
  predicate Outlines(n: Node, t: Tree) {
    t.Fork? && n.Inner? && n.prefixLen == t.prefix && n.key == t.key && n.child0 == t.left.slot
        && n.child1 == t.right.slot
  }

  function SubtreeExpiry(n: Node): u64
    requires n.Leaf? || n.Inner?
  {
    if n.Leaf? then ExpiryOf(n.order) else Min(n.expiry0, n.expiry1)
  }

  /** Bringing a fork's node up to date. */
  lemma RefreshedRep(nodes: seq<Node>, t: Tree)
    requires t.slot < |nodes| && Outlines(nodes[t.slot], t) && Rep(nodes, t.left) && Rep(nodes, t.right)
    requires Uses(t.left, t.slot) == 0 && Uses(t.right, t.slot) == 0
    ensures Rep(nodes[t.slot := NodeOf(t)], t)
  {
    RepSame(nodes, nodes[t.slot := NodeOf(t)], t.left);
    RepSame(nodes, nodes[t.slot := NodeOf(t)], t.right);
  }

  lemma LastFrameUses(frames: seq<Frame>, t: Tree)
    requires frames != [] && Apart(frames, t)
    ensures var front, f := frames[..|frames| - 1], frames[|frames| - 1];
            FrameUses(front, f.slot) == 0 && Uses(f.sibling, f.slot) == 0 && Uses(t, f.slot) == 0
              && Apart(front, Wrap(f, t))
  {
    var front, f := frames[..|frames| - 1], frames[|frames| - 1];
    assert WayUses(frames, t, f.slot) <= 1;
    forall x: nat
      ensures WayUses(front, Wrap(f, t), x) == WayUses(frames, t, x)
    {}
  }

  // ----- one tree changes -----

  lemma AccountedMoves(trees: Trees, free: seq<nat>, spare: seq<nat>, bump: nat, tree: Bit,
                       t: Option<Tree>, free': seq<nat>, spare': seq<nat>)
    requires Accounted(trees, free, spare, bump)
    requires forall x: nat :: Share(t, free', spare', x) == Share(trees.At(tree), free, spare, x)
    requires TreeSize(t) + |free'| + |spare'| == TreeSize(trees.At(tree)) + |free| + |spare|
    ensures Accounted(trees.With(tree, t), free', spare', bump)
  {
    var trees' := trees.With(tree, t);
    assert trees'.At(tree) == t && trees'.At(1 - tree) == trees.At(1 - tree);
    forall x: nat
      ensures Places(trees', free', spare', x) == if x < bump then 1 else 0
    {
      assert Share(t, free', spare', x) == Share(trees.At(tree), free, spare, x);
      assert Places(trees, free, spare, x) == if x < bump then 1 else 0;
    }
  }

  /** Slots may move between one tree, the free list and the spare ones; the other tree is not touched. */
  lemma OneTreeChanges(a: Image, trees: Trees, free: seq<nat>, spare: seq<nat>, tree: Bit,
                       nodes: seq<Node>, root: nat, t: Option<Tree>, head: nat, free': seq<nat>, spare': seq<nat>)
    requires Sound(a, trees, free, spare) && |nodes| == CAPACITY
    requires Holds(nodes, root, |Orders(t)|, t) && Chain(nodes, head, free')
    requires forall x: nat :: Share(t, free', spare', x) == Share(trees.At(tree), free, spare, x)
    requires TreeSize(t) + |free'| + |spare'| == TreeSize(trees.At(tree)) + |free| + |spare|
    requires forall x :: 0 <= x < CAPACITY && TreeUses(trees.At(1 - tree), x) > 0 ==> nodes[x] == a.nodes[x]
    ensures Sound(Image(nodes, a.roots.With(tree, root), a.counts.With(tree, |Orders(t)|), a.bump, head, |free'|),
                  trees.With(tree, t), free', spare')
  {
    AccountedMoves(trees, free, spare, a.bump, tree, t, free', spare');
    HoldsSame(a.nodes, nodes, a.roots.At(1 - tree), a.counts.At(1 - tree), trees.At(1 - tree));
  }

  lemma HoldsSame(nodes: seq<Node>, nodes': seq<Node>, root: nat, count: nat, t: Option<Tree>)
    requires Holds(nodes, root, count, t) && |nodes'| == |nodes|
    requires forall x :: 0 <= x < |nodes| && TreeUses(t, x) > 0 ==> nodes'[x] == nodes[x]
    ensures Holds(nodes', root, count, t)
  {
    if t.Some? {
      forall x | 0 <= x < |nodes| && Uses(t.value, x) > 0
        ensures nodes'[x] == nodes[x]
      {
        assert TreeUses(t, x) > 0;
      }
      RepSame(nodes, nodes', t.value);
    }
  }

  /** Where a slot can be, seen from a way down one of the trees. */
  lemma WayIsAlone(a: Image, trees: Trees, free: seq<nat>, spare: seq<nat>, tree: Bit, frames: seq<Frame>, t: Tree,
                   x: nat)
    requires Sound(a, trees, free, spare) && trees.At(tree) == Some(Plug(frames, t))
    ensures WayUses(frames, t, x) == TreeUses(trees.At(tree), x)
    ensures WayUses(frames, t, x) + TreeUses(trees.At(1 - tree), x) + Listed(free, x) + Listed(spare, x)
            == if x < a.bump then 1 else 0
  {
    UsesOfPlug(frames, t, x);
    assert Places(trees, free, spare, x) == if x < a.bump then 1 else 0;
  }

  lemma ListedPair(p: nat, q: nat, x: nat)
    ensures Listed([p, q], x) == (if p == x then 1 else 0) + if q == x then 1 else 0
  {
    assert [p, q] == [p] + [q] && [q] == [q] + [];
    ListedMore([q], p, x);
    ListedMore([], q, x);
  }

  /** Slots of the other tree or the free list, which a change must leave alone. */
  ghost predicate Elsewhere(trees: Trees, free: seq<nat>, tree: Bit, x: nat)
  {
    TreeUses(trees.At(1 - tree), x) > 0 || Listed(free, x) > 0
  }

  lemma ElsewhereSame(a: Image, trees: Trees, free: seq<nat>, tree: Bit, nodes: seq<Node>)
    requires |nodes| == |a.nodes| && Chain(a.nodes, a.freeHead, free)
    requires forall x :: 0 <= x < |nodes| && Elsewhere(trees, free, tree, x) ==> nodes[x] == a.nodes[x]
    ensures Chain(nodes, a.freeHead, free)
    ensures forall x :: 0 <= x < |nodes| && TreeUses(trees.At(1 - tree), x) > 0 ==> nodes[x] == a.nodes[x]
  {
    forall x | 0 <= x < |nodes| && (Listed(free, x) > 0 || TreeUses(trees.At(1 - tree), x) > 0)
      ensures nodes[x] == a.nodes[x]
    {
      assert Elsewhere(trees, free, tree, x);
    }
    ChainSame(a.nodes, nodes, a.freeHead, free);
  }

  lemma {:induction false} FramesUseSlots(frames: seq<Frame>, i: nat)
    requires i < |frames|
    ensures FrameUses(frames, frames[i].slot) > 0
  {
    if i < |frames| - 1 { FramesUseSlots(frames[..|frames| - 1], i); }
  }
}
