/**
 The order-book arena of `programs/equinox/src/book.rs`: two PATRICIA trees and
 a free list in one array of nodes, changed in place. Its methods are proved
 against the sorted lists that the trees stand for.
 */
module BookArena {
  import opened Wrappers
  import opened OrderKeys
  import opened Patricia
  import opened ArenaLayout
  import opened ArenaInsertion
  import opened ArenaRemoval
  import opened ArenaQuantity
  import opened ArenaScan
  import opened CancelSums

  class Arena {
    const nodes: array<Node>
    var roots: Two<nat>
    var counts: Two<nat>
    var bump: nat
    var freeHead: nat
    var freeLen: nat
    ghost var trees: Trees
    ghost var free: seq<nat>

    ghost function Value(): Image
      reads this, nodes
    {
      Image(nodes[..], roots, counts, bump, freeHead, freeLen)
    }

    ghost predicate Valid()
      reads this, nodes
    {
      Sound(Value(), trees, free, [])
    }

    constructor ()
      ensures Valid() && Clean() && trees == Two(None, None) && bump == 0 && freeLen == 0 && fresh(nodes)
    {
      nodes := new Node[CAPACITY](_ => Uninitialized);
      roots, counts, bump, freeHead, freeLen := Two(NONE, NONE), Two(0, 0), 0, NONE, 0;
      trees, free := Two(None, None), [];
    }

    method Allocate(ghost spare: seq<nat>) returns (r: Result<nat>)
      requires Sound(Value(), trees, free, spare)
      modifies this`bump, this`freeHead, this`freeLen, this`free
      ensures r == Err(Full) || r.Ok?
      ensures r.Ok? <==> old(free) != [] || old(bump) < CAPACITY
      ensures Sound(Value(), trees, free, if r.Ok? then [r.value] + spare else spare)
      ensures r.Ok? && old(free) != [] ==> r.value == old(freeHead) && free == old(free)[1..] && bump == old(bump)
      ensures r.Ok? && old(free) == [] ==> r.value == old(bump) && free == [] && bump == old(bump) + 1
      ensures r.Err? ==> free == old(free) && bump == old(bump)
    {
      HeadIsFree(nodes[..], freeHead, free);
      if freeHead != NONE {
        TakeFree(Value(), trees, free, spare);
        var slot := freeHead;
        freeHead := if nodes[slot].Free? then nodes[slot].next else NONE;
        freeLen := freeLen - 1;
        free := free[1..];
        return Ok(slot);
      }
      if bump >= CAPACITY {
        return Err(Full);
      }
      TakeNext(Value(), trees, free, spare);
      bump := bump + 1;
      return Ok(bump - 1);
    }

    method Write(slot: nat, n: Node)
      requires slot < nodes.Length
      modifies nodes
      ensures nodes[..] == old(nodes[..])[slot := n]
    {
      nodes[slot] := n;
    }

    method PushFree(slot: nat)
      requires slot < nodes.Length <= NONE && Chain(nodes[..], freeHead, free) && Listed(free, slot) == 0
      modifies nodes, this`freeHead, this`freeLen, this`free
      ensures nodes[..] == old(nodes[..])[slot := FreeNode(old(freeHead))]
      ensures Chain(nodes[..], freeHead, free) && free == [slot] + old(free) && freeLen == old(freeLen) + 1
    {
      ChainGrows(nodes[..], freeHead, free, slot);
      Write(slot, FreeNode(freeHead));
      freeHead, freeLen, free := slot, freeLen + 1, [slot] + free;
    }

    method RefreshInner(slot: nat, ghost t: Tree)
      requires t.slot == slot < nodes.Length && Outlines(nodes[slot], t) && Rep(nodes[..], t.left)
               && Rep(nodes[..], t.right)
      requires Uses(t.left, slot) == 0 && Uses(t.right, slot) == 0
      modifies nodes
      ensures nodes[..] == old(nodes[..])[slot := NodeOf(t)] && Rep(nodes[..], t)
    {
      RefreshedRep(nodes[..], t);
      var n := nodes[slot];
      Write(slot, n.(expiry0 := SubtreeExpiry(nodes[n.child0]), expiry1 := SubtreeExpiry(nodes[n.child1])));
    }

    method ReplaceChild(tree: Bit, path: seq<(nat, Bit)>, replacement: nat, ghost frames: seq<Frame>,
                        ghost hole: nat, ghost t: Tree)
      requires path == PathOf(frames) && Linked(nodes[..], frames, hole)
      requires Rep(nodes[..], t) && t.slot == replacement && Apart(frames, t)
      modifies nodes, this`roots
      ensures Linked(nodes[..], frames, replacement) && Rep(nodes[..], t)
      ensures roots == if frames == [] then old(roots).With(tree, replacement) else old(roots)
      ensures OnlyWayChanged(old(nodes[..]), nodes[..], frames)
    {
      if path == [] {
        roots := roots.With(tree, replacement);
      } else {
        LastFrameUses(frames, t);
        ghost var front, f := frames[..|frames| - 1], frames[|frames| - 1];
        ghost var before := nodes[..];
        var (parent, branch) := path[|path| - 1];
        Write(parent, WithChild(nodes[parent], branch, replacement, SubtreeExpiry(nodes[replacement])));
        RepSame(before, nodes[..], t);
        RepSame(before, nodes[..], f.sibling);
        LinkedSame(before, nodes[..], front, f.slot);
      }
    }

    method RefreshFrame(slot: nat, ghost frames: seq<Frame>, ghost t: Tree)
      requires frames != [] && frames[|frames| - 1].slot == slot
      requires Linked(nodes[..], frames, t.slot) && Rep(nodes[..], t) && Apart(frames, t)
      modifies nodes
      ensures var front, t' := frames[..|frames| - 1], Wrap(frames[|frames| - 1], t);
              Linked(nodes[..], front, slot) && Rep(nodes[..], t') && Apart(front, t')
      ensures forall x :: 0 <= x < nodes.Length && x != slot ==> nodes[x] == old(nodes[x])
    {
      ghost var front, f := frames[..|frames| - 1], frames[|frames| - 1];
      LastFrameUses(frames, t);
      ghost var before := nodes[..];
      RefreshInner(slot, Wrap(f, t));
      LinkedSame(before, nodes[..], front, f.slot);
    }

    method RefreshPath(path: seq<(nat, Bit)>, ghost frames: seq<Frame>, ghost t: Tree)
      requires path == PathOf(frames) && Linked(nodes[..], frames, t.slot) && Rep(nodes[..], t) && Apart(frames, t)
      modifies nodes
      ensures Rep(nodes[..], Plug(frames, t))
      ensures OnlyWayChanged(old(nodes[..]), nodes[..], frames)
    {
      var index := |path|;
      ghost var upper, below := frames, t;
      while index > 0
        invariant |upper| == index <= |frames| && upper == frames[..index] && Plug(upper, below) == Plug(frames, t)
        invariant Linked(nodes[..], upper, below.slot) && Rep(nodes[..], below) && Apart(upper, below)
        invariant OnlyWayChanged(old(nodes[..]), nodes[..], frames)
      {
        index := index - 1;
        RefreshFrame(path[index].0, upper, below);
        FramesUseSlots(frames, index);
        upper, below := upper[..|upper| - 1], Wrap(upper[|upper| - 1], below);
      }
    }

    // ----- reading -----

    /** The orders of a tree, in key order. */
    ghost function Book(tree: Bit): seq<Entry>
        reads this
    {
      Orders(trees.At(tree))
    }

    method Find(tree: Bit, key: Key) returns (r: Result<nat>)
      requires Valid() && IsKey(key)
      ensures var found := Lookup(Book(tree), key); r == if found.Some? then Ok(found.value.slot) else Err(MissingKey)
    {
      var current := roots.At(tree);
      if current == NONE {
        return Err(MissingKey);
      }
      ghost var t := trees.At(tree).value;
      FindIsLookup(t, key);
      while nodes[current].Inner?
        invariant Rep(nodes[..], t) && Shaped(t) && t.slot == current < nodes.Length
        invariant Patricia.Find(t, key) == Lookup(Book(tree), key)
        decreases t
      {
        var n := nodes[current];
        if CommonPrefix(n.key, key) < n.prefixLen {
          return Err(MissingKey);
        }
        var branch: Bit := key[n.prefixLen];
        current, t := Child(n, branch), Kid(t, branch);
      }
      return if nodes[current].order.key == key then Ok(current) else Err(MissingKey);
    }

    method Best(tree: Bit) returns (r: Option<nat>)
      requires Valid()
      ensures r == if Book(tree) == [] then None else Some(Book(tree)[0].slot)
    {
      var current := roots.At(tree);
      if current == NONE {
        return None;
      }
      ghost var t := trees.At(tree).value;
      LeftmostIsFirst(t);
      while nodes[current].Inner?
        invariant Rep(nodes[..], t) && t.slot == current < nodes.Length && Leftmost(t) == Book(tree)[0]
        decreases t
      {
        current, t := nodes[current].child0, t.left;
      }
      return Some(current);
    }

    method FirstExpired(tree: Bit, now: u64) returns (r: Option<nat>)
      requires Valid()
      ensures var found := Patricia.FirstExpired(Book(tree), now); r == if found.Some? then Some(found.value.slot) else None
    {
      var current := roots.At(tree);
      if current == NONE {
        return None;
      }
      ghost var t := trees.At(tree).value;
      WalkFindsFirstExpired(t, now);
      while nodes[current].Inner?
        invariant Rep(nodes[..], t) && t.slot == current < nodes.Length
        invariant WalkExpired(t, now) == Patricia.FirstExpired(Book(tree), now)
        decreases t
      {
        var n := nodes[current];
        if n.expiry0 <= now {
          current, t := n.child0, t.left;
        } else if n.expiry1 <= now {
          current, t := n.child1, t.right;
        } else {
          return None;
        }
      }
      return if ExpiryOf(nodes[current].order) <= now then Some(current) else None;
    }

    /** The way down that insertion and removal share: to a leaf, or to a fork whose prefix the key does not have. */
    method Descend(tree: Bit, key: Key) returns (path: seq<(nat, Bit)>, current: nat, ghost frames: seq<Frame>,
                   ghost t: Tree)
      requires Valid() && IsKey(key) && trees.At(tree).Some?
      ensures Plug(frames, t) == trees.At(tree).value && t.slot == current < nodes.Length && nodes[current] == NodeOf(t)
      ensures path == PathOf(frames) && Follows(frames, key)
      ensures t.Tip? || CommonPrefix(t.key, key) < t.prefix
    {
      path, current, frames, t := [], roots.At(tree), [], trees.At(tree).value;
      ghost var all, whole := nodes[..], t;
      while nodes[current].Inner? && CommonPrefix(nodes[current].key, key) >= nodes[current].prefixLen
        invariant Plug(frames, t) == whole && Rep(all, t) && t.slot == current < nodes.Length
        invariant path == PathOf(frames) && Follows(frames, key)
        decreases t
      {
        var n := nodes[current];
        assert n == NodeOf(t);
        StepDown(frames, t, key);
        assert |path| < PATH_LENGTH;
        var branch: Bit := key[n.prefixLen];
        KidInArray(all, t, branch);
        PathSnoc(frames, Taken(t, branch));
        path := path + [(current, branch)];
        frames, t := frames + [Taken(t, branch)], Kid(t, branch);
        current := Child(n, branch);
      }
    }

    // ----- insertion -----

    /** How much room is left depends on the orders alone, not on the history of slots. */
    lemma AvailableInOrders()
      requires Valid()
      ensures Available() == CAPACITY - SlotsFor(|Book(0)|) - SlotsFor(|Book(1)|)
      ensures counts == Two(|Book(0)|, |Book(1)|)
    {
      if trees.fixed.Some? { SizeIsTwiceLess(trees.fixed.value); }
      if trees.pegged.Some? { SizeIsTwiceLess(trees.pegged.value); }
      assert Holds(nodes[..], roots.At(0), counts.At(0), trees.At(0))
             && Holds(nodes[..], roots.At(1), counts.At(1), trees.At(1));
    }

    ghost function Available(): int
      reads this
    {
      CAPACITY - bump + freeLen
    }

    /** What `validate` asks of the slots never handed out. */
    ghost predicate Clean()
      reads this, nodes
    {
      forall x :: bump <= x < nodes.Length ==> nodes[x].Uninitialized?
    }

    method ReleaseUnwritten(slot: nat)
      requires Sound(Value(), trees, free, [slot])
      modifies nodes, this`bump, this`freeHead, this`freeLen, this`free
      ensures Valid() && bump - freeLen == old(bump) - old(freeLen) - 1
      ensures if slot + 1 == old(bump) then nodes[..] == old(nodes[..]) && bump == slot
              else bump == old(bump) && forall x :: bump <= x < nodes.Length ==> nodes[x] == old(nodes[x])
    {
      if slot + 1 == bump {
        GiveLast(Value(), trees, free, slot);
        bump := bump - 1;
        return;
      }
      GiveFree(Value(), trees, free, slot);
      PushFree(slot);
    }

    /** Slots past the allocated ones keep their nodes. */
    twostate predicate RestKept()
      reads this, nodes
    {
      forall x :: bump <= x < nodes.Length ==> nodes[x] == old(nodes[x])
    }

    method InsertFirst(tree: Bit, order: Order) returns (r: Result<nat>)
      requires Valid() && IsKey(order.key) && trees.At(tree).None?
      modifies this, nodes
      ensures Valid() && old(bump) <= bump && RestKept() && freeLen <= old(freeLen)
      ensures r == if old(Available()) >= 1 then Ok(if old(freeLen) > 0 then old(freeHead) else old(bump)) else Err(Full)
      ensures trees == if r.Ok? then old(trees).With(tree, Some(Tip(r.value, order))) else old(trees)
    {
      r := Allocate([]);
      if r.Err? {
        return;
      }
      ghost var a := Value();
      assert [r.value] + [] == [r.value];
      FirstLeaf(a, trees, free, r.value, tree, order);
      Write(r.value, Leaf(order));
      roots, counts := roots.With(tree, r.value), counts.With(tree, counts.At(tree) + 1);
      trees := trees.With(tree, Some(Tip(r.value, order)));
      assert Value() == a.(nodes := nodes[..], roots := roots, counts := counts);
    }

    /** Writes a new leaf and a fork of it and the subtree that its key parts from. */
    method WriteSplit(order: Order, current: nat, slot: nat, inner: nat, ghost frames: seq<Frame>, ghost t: Tree)
      requires Rep(nodes[..], Plug(frames, t)) && t.slot == current && slot < nodes.Length
               && inner < nodes.Length && slot != inner
      requires WayUses(frames, t, slot) == 0 && WayUses(frames, t, inner) == 0
      requires IsKey(order.key) && CommonPrefix(KeyOf(t), order.key) < KEY_BITS
      modifies nodes
      ensures Rep(nodes[..], Split(t, inner, Tip(slot, order))) && Linked(nodes[..], frames, t.slot)
      ensures forall x :: 0 <= x < nodes.Length && x != slot && x != inner ==> nodes[x] == old(nodes[x])
    {
      ghost var before, leaf := nodes[..], Tip(slot, order);
      SplitReady(nodes[..], frames, t, inner, leaf);
      MadeOutlines(t, inner, leaf);
      var existing := if nodes[current].Leaf? then nodes[current].order.key else nodes[current].key;
      var prefix := CommonPrefix(existing, order.key);
      Write(slot, Leaf(order));
      Write(inner, MakeInner(prefix, existing, current, slot, order.key[prefix]));
      RefreshInner(inner, Split(t, inner, leaf));
      WayUntouched(before, nodes[..], frames, t, slot, inner);
    }

    /** The writes of an insertion below a root. */
    method Graft(tree: Bit, order: Order, path: seq<(nat, Bit)>, current: nat, slot: nat, inner: nat,
                 ghost frames: seq<Frame>, ghost t: Tree)
      requires Rep(nodes[..], Plug(frames, t)) && t.slot == current && slot < nodes.Length
               && inner < nodes.Length && slot != inner
      requires WayUses(frames, t, slot) == 0 && WayUses(frames, t, inner) == 0
      requires IsKey(order.key) && CommonPrefix(KeyOf(t), order.key) < KEY_BITS
      requires path == PathOf(frames) && Apart(frames, Split(t, inner, Tip(slot, order)))
      modifies nodes, this`roots, this`counts
      ensures Grafted(old(nodes[..]), nodes[..], frames, t, inner, Tip(slot, order))
      ensures roots == if frames == [] then old(roots).With(tree, inner) else old(roots)
      ensures counts == old(counts).With(tree, old(counts.At(tree)) + 1)
    {
      ghost var split := Split(t, inner, Tip(slot, order));
      WriteSplit(order, current, slot, inner, frames, t);
      ReplaceChild(tree, path, inner, frames, t.slot, split);
      counts := counts.With(tree, counts.At(tree) + 1);
      RefreshPath(path, frames, split);
    }

    /** Puts a new leaf and a new fork above the subtree that the key parts from. */
    method LinkIn(tree: Bit, order: Order, path: seq<(nat, Bit)>, current: nat, slot: nat, inner: nat,
                  ghost frames: seq<Frame>, ghost t: Tree)
      requires Sound(Value(), trees, free, [inner, slot]) && trees.At(tree) == Some(Plug(frames, t)) && t.slot == current
      requires path == PathOf(frames) && PartsAt(frames, t, order.key)
      modifies nodes, this`roots, this`counts, this`trees
      ensures Valid() && RestKept() && trees == old(trees).With(tree, Some(Plug(frames, Split(t, inner, Tip(slot, order)))))
    {
      ghost var a, leaf := Value(), Tip(slot, order);
      GraftStarts(a, trees, free, tree, frames, t, inner, leaf);
      Graft(tree, order, path, current, slot, inner, frames, t);
      GraftDone(a, trees, free, tree, frames, t, inner, leaf, nodes[..]);
      trees := trees.With(tree, Some(Plug(frames, Split(t, inner, leaf))));
      assert Value() == a.(nodes := nodes[..], roots := roots, counts := counts);
    }

    /** Allocates both slots, or gives the first back. */
    method AllocatePair() returns (r: Result<(nat, nat)>)
      requires Valid()
      modifies nodes, this`bump, this`freeHead, this`freeLen, this`free
      ensures r.Ok? <==> old(Available()) >= 2
      ensures r.Ok? ==> Sound(Value(), trees, free, [r.value.1, r.value.0])
      ensures r.Ok? ==> old(bump) <= bump && nodes[..] == old(nodes[..])
      ensures r.Ok? ==> r.value.0 == (if old(freeLen) > 0 then old(freeHead) else old(bump)) && freeLen <= old(freeLen)
      ensures r.Err? ==> r == Err(Full) && Valid() && Available() == old(Available())
      ensures r.Err? ==> if old(freeHead) == CAPACITY - 1 then bump == CAPACITY - 1 && nodes[..] == old(nodes[..])
                         else bump == old(bump) && RestKept()
    {
      var first := Allocate([]);
      if first.Err? {
        return Err(Full);
      }
      var slot := first.value;
      assert [slot] + [] == [slot];
      var second := Allocate([slot]);
      if second.Err? {
        ReleaseUnwritten(slot);
        return Err(Full);
      }
      assert [second.value] + [slot] == [second.value, slot];
      return Ok((slot, second.value));
    }

    method InsertBelow(tree: Bit, order: Order, path: seq<(nat, Bit)>, current: nat, ghost frames: seq<Frame>,
                       ghost t: Tree) returns (r: Result<nat>)
      requires Valid() && trees.At(tree) == Some(Plug(frames, t)) && t.slot == current
      requires path == PathOf(frames) && PartsAt(frames, t, order.key)
      modifies this, nodes
      ensures Valid()
      ensures r.Ok? <==> old(Available()) >= 2
      ensures r.Ok? ==> old(bump) <= bump && RestKept() && freeLen <= old(freeLen)
      ensures r.Ok? ==> r.value == if old(freeLen) > 0 then old(freeHead) else old(bump)
      ensures r.Ok? ==> trees.At(1 - tree) == old(trees).At(1 - tree)
      ensures r.Ok? ==> Book(tree) == InsertSorted(old(Book(tree)), Entry(r.value, order))
      ensures r.Err? ==> r == Err(Full) && trees == old(trees) && Available() == old(Available())
      ensures r.Err? ==> if old(freeHead) == CAPACITY - 1 then bump == CAPACITY - 1 && nodes[..] == old(nodes[..])
                         else bump == old(bump) && RestKept()
    {
      var pair := AllocatePair();
      if pair.Err? {
        return Err(Full);
      }
      var (slot, inner) := pair.value;
      SplitInserts(frames, t, inner, Tip(slot, order));
      LinkIn(tree, order, path, current, slot, inner, frames, t);
      return Ok(slot);
    }

    method Insert(tree: Bit, order: Order) returns (r: Result<nat>)
      requires Valid() && IsKey(order.key)
      modifies this, nodes
      ensures Valid()
      ensures r == Err(DuplicateKey) <==> Lookup(old(Book(tree)), order.key).Some?
      ensures r == Err(Full) <==>
                Lookup(old(Book(tree)), order.key).None? && old(Available()) < if old(Book(tree)) == [] then 1 else 2
      ensures r.Ok? ==> Book(tree) == InsertSorted(old(Book(tree)), Entry(r.value, order))
      ensures r.Ok? ==> Book(1 - tree) == old(Book(1 - tree))
      ensures r.Ok? ==> r.value == (if old(freeLen) > 0 then old(freeHead) else old(bump)) && freeLen <= old(freeLen)
      ensures r.Err? ==> trees == old(trees) && Available() == old(Available()) && r.error in {DuplicateKey, Full}
      ensures old(Clean()) ==> (Clean() <==> !(r == Err(Full) && old(freeHead) == CAPACITY - 1))
    {
      HeadIsFree(nodes[..], freeHead, free);
      if roots.At(tree) == NONE {
        r := InsertFirst(tree, order);
        return;
      }
      var path, current;
      ghost var frames, t;
      path, current, frames, t := Descend(tree, order.key);
      LookupOnWay(frames, t, order.key);
      if nodes[current].Leaf? && nodes[current].order.key == order.key {
        return Err(DuplicateKey);
      }
      r := InsertBelow(tree, order, path, current, frames, t);
    }

    // ----- removal -----

    method Recycle(slot: nat)
      requires slot < bump <= nodes.Length <= NONE && !nodes[slot].Uninitialized?
      requires Chain(nodes[..], freeHead, free) && Listed(free, slot) == 0
      modifies nodes, this`freeHead, this`freeLen, this`free
      ensures nodes[..] == old(nodes[..])[slot := FreeNode(old(freeHead))]
      ensures Chain(nodes[..], freeHead, free) && freeHead == slot && free == [slot] + old(free)
              && freeLen == old(freeLen) + 1
    {
      PushFree(slot);
    }

    method RemoveLast(tree: Bit, current: nat)
      requires Valid() && trees.At(tree).Some? && trees.At(tree).value.Tip? && trees.At(tree).value.slot == current
      modifies this, nodes
      ensures Valid() && trees == old(trees).With(tree, None) && bump == old(bump) && RestKept() && freeHead == current
    {
      ghost var a := Value();
      LastLeaf(a, trees, free, tree);
      roots := roots.With(tree, NONE);
      Recycle(current);
      counts := counts.With(tree, counts.At(tree) - 1);
      trees := trees.With(tree, None);
    }

    /** Frees a fork and a leaf that are no longer on the way. */
    method RecyclePair(parent: nat, current: nat, ghost frames: seq<Frame>, ghost t: Tree)
      requires parent != current && parent < bump && current < bump <= nodes.Length <= NONE
      requires !nodes[parent].Uninitialized? && !nodes[current].Uninitialized?
      requires Chain(nodes[..], freeHead, free) && Listed(free, parent) == 0 && Listed(free, current) == 0
      requires Linked(nodes[..], frames, t.slot) && Rep(nodes[..], t)
      requires WayUses(frames, t, parent) == 0 && WayUses(frames, t, current) == 0
      modifies nodes, this`freeHead, this`freeLen, this`free
      ensures Linked(nodes[..], frames, t.slot) && Rep(nodes[..], t)
      ensures Chain(nodes[..], freeHead, free) && freeHead == current && free == [current, parent] + old(free)
              && freeLen == old(freeLen) + 2
      ensures forall x :: 0 <= x < nodes.Length && x != parent && x != current ==> nodes[x] == old(nodes[x])
    {
      ghost var before, free0 := nodes[..], free;
      Recycle(parent);
      ListedMore(free0, parent, current);
      Recycle(current);
      assert [current] + ([parent] + free0) == [current, parent] + free0;
      RepSame(before, nodes[..], t);
      LinkedSame(before, nodes[..], frames, t.slot);
    }

    /** Puts a leaf's sibling in the place of their fork, and frees both. */
    method Unlink(tree: Bit, path: seq<(nat, Bit)>, current: nat, ghost frames: seq<Frame>, ghost t: Tree)
      requires Prunable(frames, t, free, bump) && t.slot == current && path == PathOf(frames)
               && Rep(nodes[..], Plug(frames, t))
      requires Chain(nodes[..], freeHead, free) && bump <= nodes.Length <= NONE
      modifies nodes, this`roots, this`freeHead, this`freeLen, this`free
      ensures var front, f := frames[..|frames| - 1], frames[|frames| - 1];
              && Linked(nodes[..], front, f.sibling.slot) && Rep(nodes[..], f.sibling)
              && roots == (if front == [] then old(roots).With(tree, f.sibling.slot) else old(roots))
              && freeHead == current && freeLen == old(freeLen) + 2 && free == [current, f.slot] + old(free)
              && Chain(nodes[..], freeHead, free)
              && forall x :: 0 <= x < nodes.Length && x != current && x != f.slot && FrameUses(front, x) == 0 ==>
                nodes[x] == old(nodes[x])
    {
      ghost var front, f := frames[..|frames| - 1], frames[|frames| - 1];
      RepOpens(nodes[..], frames, t);
      var upper := path[..|path| - 1];
      var (parent, branch) := path[|path| - 1];
      var sibling := Child(nodes[parent], 1 - branch);
      ghost var before := nodes[..];
      ReplaceChild(tree, upper, sibling, front, f.slot, f.sibling);
      ChainOffWay(before, nodes[..], freeHead, free, front);
      RecyclePair(parent, current, front, f.sibling);
    }

    /** The writes of a removal below a root. */
    method Prune(tree: Bit, path: seq<(nat, Bit)>, current: nat, ghost frames: seq<Frame>, ghost t: Tree)
      requires Prunable(frames, t, free, bump) && t.slot == current && path == PathOf(frames)
               && Rep(nodes[..], Plug(frames, t))
      requires counts.At(tree) > 0 && Chain(nodes[..], freeHead, free) && bump <= nodes.Length <= NONE
      modifies nodes, this`roots, this`counts, this`freeHead, this`freeLen, this`free
      ensures Pruned(old(nodes[..]), nodes[..], frames, current, old(free))
      ensures roots == if frames[..|frames| - 1]
              == [] then old(roots).With(tree, frames[|frames| - 1].sibling.slot) else old(roots)
      ensures counts == old(counts).With(tree, old(counts.At(tree)) - 1)
      ensures freeHead == current && freeLen == old(freeLen) + 2 && free == [current, frames[|frames| - 1].slot] + old(free)
    {
      ghost var front, f := frames[..|frames| - 1], frames[|frames| - 1];
      Unlink(tree, path, current, frames, t);
      counts := counts.With(tree, counts.At(tree) - 1);
      ghost var before := nodes[..];
      RefreshPath(path[..|path| - 1], front, f.sibling);
      PairOffWay(current, f.slot, old(free), front);
      ChainOffWay(before, nodes[..], freeHead, free, front);
    }

    method RemoveBelow(tree: Bit, path: seq<(nat, Bit)>, current: nat, ghost frames: seq<Frame>, ghost t: Tree)
      requires Valid() && trees.At(tree) == Some(Plug(frames, t)) && t.Tip? && t.slot == current && frames != []
               && path == PathOf(frames)
      modifies this, nodes
      ensures Valid() && bump == old(bump) && RestKept() && freeHead == current
      ensures trees == old(trees).With(tree, Some(Plug(frames[..|frames| - 1], frames[|frames| - 1].sibling)))
    {
      ghost var a, trees0, free0 := Value(), trees, free;
      PruneStarts(a, trees, free, tree, frames, t);
      Prune(tree, path, current, frames, t);
      ghost var after := Value();
      PrunedImage(a, after, tree, frames, current);
      PruneDone(a, trees0, free0, tree, frames, t, after.nodes);
      trees := trees.With(tree, Some(Plug(frames[..|frames| - 1], frames[|frames| - 1].sibling)));
      assert Value() == after;
    }

    method Remove(tree: Bit, key: Key) returns (r: Result<Order>)
      requires Valid() && IsKey(key)
      modifies this, nodes
      ensures Valid() && bump == old(bump) && RestKept()
      ensures var found := Lookup(old(Book(tree)), key);
              r == (if found.Some? then Ok(found.value.order) else Err(MissingKey)) && (found.Some? ==>
                freeHead == found.value.slot)
      ensures r.Ok? ==> Book(tree) == Without(old(Book(tree)), key) && Book(1 - tree) == old(Book(1 - tree))
      ensures r.Err? ==> trees == old(trees) && Value() == old(Value())
    {
      if roots.At(tree) == NONE {
        return Err(MissingKey);
      }
      var path, current;
      ghost var frames, t;
      path, current, frames, t := Descend(tree, key);
      LookupOnWay(frames, t, key);
      if !nodes[current].Leaf? || nodes[current].order.key != key {
        return Err(MissingKey);
      }
      r := Ok(nodes[current].order);
      if path == [] {
        RemoveLast(tree, current);
      } else {
        UnsplitRemoves(frames, t);
        RemoveBelow(tree, path, current, frames, t);
      }
    }

    method RemoveOwned(tree: Bit, key: Key, owner: nat) returns (r: Result<Order>)
      requires Valid() && IsKey(key)
      modifies this, nodes
      ensures Valid()
      ensures var found := Lookup(old(Book(tree)), key);
              r == if found.None? then Err(MissingKey)
                   else if found.value.order.owner != owner then Err(InvalidOwner) else Ok(found.value.order)
      ensures r.Ok? ==> Book(tree) == Without(old(Book(tree)), key) && Book(1 - tree) == old(Book(1 - tree))
      ensures r.Err? ==> Value() == old(Value()) && trees == old(trees)
    {
      var handle := Find(tree, key);
      if handle.Err? {
        return Err(handle.error);
      }
      EntryIsLeaf(Value(), trees, free, tree, Lookup(Book(tree), key).value);
      if nodes[handle.value].order.owner != owner {
        return Err(InvalidOwner);
      }
      r := Remove(tree, key);
    }

    /** Writes another quantity into an order's slot. */
    method SetQuantity(tree: Bit, slot: nat, quantity: u64, ghost e: Entry)
      requires Valid() && e in Book(tree) && e.slot == slot
      modifies nodes, this`trees
      ensures Valid() && Book(1 - tree) == old(Book(1 - tree))
      ensures Book(tree) == WithQuantity(old(Book(tree)), slot, quantity)
    {
      ghost var a := Value();
      QuantitySet(a, trees, free, tree, e, quantity);
      Write(slot, Leaf(nodes[slot].order.(quantity := quantity)));
      trees := trees.With(tree, Some(TreeWith(trees.At(tree).value, slot, quantity)));
      assert Value() == a.(nodes := nodes[..]);
    }

    /** The answer of `Insert` with so many more slots, the trees staying as they are. */
    method CanInsert(tree: Bit, key: Key, recycled: nat) returns (r: Result<()>)
      requires Valid() && IsKey(key)
      ensures r == Err(DuplicateKey) <==> Lookup(Book(tree), key).Some?
      ensures r == Err(Full) <==>
                Lookup(Book(tree), key).None? && Available() + recycled < if Book(tree) == [] then 1 else 2
      ensures r.Err? ==> r.error in {DuplicateKey, Full}
    {
      var found := Find(tree, key);
      if found.Ok? {
        return Err(DuplicateKey);
      }
      var required := if roots.At(tree) == NONE then 1 else 2;
      if CAPACITY - bump + freeLen + recycled < required {
        return Err(Full);
      }
      return Ok(());
    }

    /** The list names orders that rest here, none twice. */
    ghost predicate Plans(plan: seq<(Bit, Key)>)
      reads this
    {
      && (forall i :: 0 <= i < |plan| ==> Waits(Books(), plan[i]))
      && (forall i, j :: 0 <= i < j < |plan| ==> plan[i] != plan[j])
    }

    ghost function Books(): Two<seq<Entry>>
      reads this
    {
      Two(Book(0), Book(1))
    }

    method ApplyPlan(plan: seq<(Bit, Key)>)
      requires Valid() && Plans(plan)
      modifies this, nodes
      ensures Valid() && AppliedTo(old(Books()), Books(), plan, |plan|)
    {
      assert plan[..0] == [];
      for i := 0 to |plan|
        invariant Valid() && AppliedTo(old(Books()), Books(), plan, i)
      {
        var (tree, key) := plan[i];
        ghost var now := Books();
        RestsThere(old(Books()), now, plan, i);
        var removed := Remove(tree, key);
        AppliedSnoc(old(Books()), now, plan, i);
        assert Books() == now.With(tree, Without(now.At(tree), key));
      }
    }

    /** What `CanInsert` foresees from the number of orders removed from this arena, and what `Insert` then answers: a
        promise is always kept; a refusal for want of room is right unless the arena is full and one order is
        removed that is not the only one of the other tree. Settlement asks with the number 0 (`Placement`). */
    method InsertAfterPlan(tree: Bit, order: Order, plan: seq<(Bit, Key)>)
    returns (foreseen: Result<()>, r: Result<nat>)
      requires Valid() && IsKey(order.key) && Plans(plan)
      modifies this, nodes
      ensures Valid()
      ensures foreseen == Err(DuplicateKey) <==> Resting(old(Book(tree)), order.key)
      ensures foreseen == Err(Full) <==>
              !Resting(old(Book(tree)), order.key) && old(Available()) + |plan| < if old(Book(tree)) == [] then 1 else 2
      ensures foreseen.Ok? ==> r.Ok?
      ensures foreseen == Err(Full) ==>
                (r.Ok? <==> old(Available()) == 0 && |plan| == 1 && (plan[0].0 == tree || |old(Book(1 - tree))| > 1))
    {
      foreseen := CanInsert(tree, order.key, |plan|);
      AvailableInOrders();
      ghost var books, available := Books(), Available();
      ApplyPlan(plan);
      AvailableInOrders();
      RoomForesight(books, Books(), plan, tree, order.key, available);
      r := Insert(tree, order);
    }

    /** Cancels the order in one slot if it is the owner's and in this tree. */
    method CancelAt(tree: Bit, owner: nat, slot: nat, ghost start: seq<Entry>) returns (r: Option<Order>)
      requires Valid() && slot < bump && Book(tree) == Unscanned(start, owner, slot)
      modifies this, nodes
      ensures Valid() && Book(1 - tree) == old(Book(1 - tree)) && bump == old(bump)
      ensures Book(tree) == Unscanned(start, owner, slot + 1)
      ensures r == OrderIn(start, owner, slot)
    {
      CancelView(Value(), trees, free, tree, owner, slot, start);
      if nodes[slot].Leaf? && nodes[slot].order.owner == owner {
        var order := nodes[slot].order;
        var found := Find(tree, order.key);
        if found == Ok(slot) {
          var removed := Remove(tree, order.key);
          return Some(order);
        }
      }
      return None;
    }

    /** The scan of one tree; the summary goes on from the other's. */
    method CancelIn(tree: Bit, owner: nat, max: nat, s: CancelSummary, add: (CancelSummary,
                    Order) -> Option<CancelSummary>)
      returns (r: Option<CancelSummary>, ghost log: seq<Option<Order>>)
      requires Valid() && s.count <= max && Counts(add)
      modifies this, nodes
      ensures Valid() && Book(1 - tree) == old(Book(1 - tree)) && bump == old(bump)
      ensures |log| <= bump && Book(tree) == Unscanned(old(Book(tree)), owner, |log|) && LogOf(old(Book(tree)), owner, log)
      ensures r == Summed(add, s, log)
      ensures r.Some? ==> r.value.count <= max && (r.value.count < max ==> |log| == bump)
    {
      ghost var start, other, end := Book(tree), Book(1 - tree), bump;
      NothingScanned(start, owner);
      var slot := 0;
      r, log := Some(s), [];
      while slot < bump && r.Some? && r.value.count < max
        invariant Valid() && slot <= bump == end && Book(1 - tree) == other && Book(tree) == Unscanned(start, owner, slot)
        invariant |log| == slot && LogOf(start, owner, log)
        invariant r == Summed(add, s, log) && (r.Some? ==> r.value.count <= max)
      {
        var cancelled := CancelAt(tree, owner, slot, start);
        SummedSnoc(add, s, log, cancelled);
        LogGrows(start, owner, log);
        log := log + [cancelled];
        if cancelled.Some? {
          r := add(r.value, cancelled.value);
        }
        slot := slot + 1;
      }
    }

    /** The two scans; the logs say how far each came. */
    method CancelOwnerSummary(owner: nat, max: nat) returns (r: Result<CancelSummary>, ghost log: seq<Option<Order>>,
                              ghost log': seq<Option<Order>>)
      requires Valid()
      modifies this, nodes
      ensures Valid()
      ensures Book(0) == Unscanned(old(Book(0)), owner, |log|) && Book(1) == Unscanned(old(Book(1)), owner, |log'|)
      ensures r.Ok? ==>
                && r.value.count <= max && BothBalanced(old(Book(0)), old(Book(1)), r.value, Book(0), Book(1))
                && SumsUp(OwnSummary(old(Book(0)), old(Book(1)), owner), r.value, OwnSummary(Book(0), Book(1), owner))
      ensures r.Ok? && r.value.count < max ==>
                && Book(0) == OthersOf(old(Book(0)), owner) && Book(1) == OthersOf(old(Book(1)), owner)
                && r.value == OwnSummary(old(Book(0)), old(Book(1)), owner) && !TooLarge(r.value)
      ensures r.Err? ==> r == Err(Integrity) && TooLarge(OwnSummary(old(Book(0)), old(Book(1)), owner))
    {
      ghost var es, fs := Book(0), Book(1);
      ScanReachesAll(Value(), trees, free, owner);
      NothingScanned(fs, owner);
      OverflowIff(es, fs, owner);
      log' := [];
      var s;
      s, log := CancelIn(0, owner, max, NO_CANCELS, Add);
      BothGone(es, log, fs, [], owner);
      if s.None? {
        return Err(Integrity), log, log';
      }
      if s.value.count == max {
        ScanSumsUp(es, fs, owner, s.value, |log|, 0);
        return Ok(s.value), log, log';
      }
      s, log' := CancelIn(1, owner, max, s.value, Add);
      BothGone(es, log, fs, log', owner);
      if s.Some? { ScanSumsUp(es, fs, owner, s.value, |log|, |log'|); }
      if s.Some? && s.value.count < max {
        WholeSumFits(es, fs, owner, s.value);
        WholeSummary(es, fs, owner, s.value);
      }
      return if s.None? then Err(Integrity) else Ok(s.value), log, log';
    }

    method RemoveFirstExpired(tree: Bit, now: u64) returns (found: bool)
      requires Valid()
      modifies this, nodes
      ensures Valid() && Book(1 - tree) == old(Book(1 - tree)) && Ascending(old(Book(tree)))
      ensures var first := Patricia.FirstExpired(old(Book(tree)), now);
              && found == first.Some?
              && Book(tree) == if found then Without(old(Book(tree)), first.value.order.key) else old(Book(tree))
    {
      if trees.At(tree).Some? { ShapedAscends(trees.At(tree).value); }
      var handle := FirstExpired(tree, now);
      if handle.None? {
        return false;
      }
      EntryIsLeaf(Value(), trees, free, tree, Patricia.FirstExpired(Book(tree), now).value);
      var order := Remove(tree, nodes[handle.value].order.key);
      return true;
    }

    method SweepExpired(tree: Bit, now: u64, max: nat) returns (removed: nat)
      requires Valid()
      modifies this, nodes
      ensures Valid() && Book(1 - tree) == old(Book(1 - tree))
      ensures Book(tree) == Swept(old(Book(tree)), now, max)
      ensures removed == var expired := CountExpired(old(Book(tree)), now); if expired <= max then expired else max
    {
      removed := 0;
      ghost var start, other := Book(tree), Book(1 - tree);
      while removed < max
        invariant Valid() && removed <= max && Book(1 - tree) == other
        invariant SweptSoFar(start, Book(tree), now, max, removed)
      {
        ghost var es := Book(tree);
        var found := RemoveFirstExpired(tree, now);
        SweepOn(start, es, now, max, removed);
        if !found {
          break;
        }
        removed := removed + 1;
      }
    }
  }

  // ----- a plan of removals -----

  predicate Resting(es: seq<Entry>, key: Key) {
    Lookup(es, key).Some?
  }

  /** How many of a plan's removals are in one tree. */
  function PlannedIn(plan: seq<(Bit, Key)>, tree: Bit): nat {
    if plan == [] then 0
    else PlannedIn(plan[..|plan| - 1], tree) + if plan[|plan| - 1].0 == tree then 1 else 0
  }

  lemma PlannedSnoc(plan: seq<(Bit, Key)>, i: nat, b: Bit)
    requires i < |plan|
    ensures PlannedIn(plan[..i + 1], b) == PlannedIn(plan[..i], b) + if plan[i].0 == b then 1 else 0
  {
    assert plan[..i + 1][..i] == plan[..i];
  }

  lemma {:induction false} PlannedSplit(plan: seq<(Bit, Key)>, tree: Bit)
    ensures PlannedIn(plan, tree) + PlannedIn(plan, 1 - tree) == |plan|
    ensures |plan| == 1 ==> PlannedIn(plan, tree) == if plan[0].0 == tree then 1 else 0
  {
    if plan != [] { PlannedSplit(plan[..|plan| - 1], tree); }
  }

  lemma OnlyOneLeaves(es: seq<Entry>, key: Key)
    requires Resting(es, key)
    ensures |Without(es, key)| == |es| - 1
    ensures forall other :: other != key && Resting(es, other) ==> Resting(Without(es, key), other)
    ensures forall other :: !Resting(es, other) ==> !Resting(Without(es, key), other)
  {
    WithoutSize(es, key);
    forall other | other != key || !Resting(es, other)
      ensures Resting(Without(es, key), other) == Resting(es, other)
    {
      LookupWithout(es, key, other);
    }
  }

  /** The books after the first `i` removals of a plan; the others still rest. */
  ghost predicate AppliedTo(start: Two<seq<Entry>>, now: Two<seq<Entry>>, plan: seq<(Bit, Key)>, i: nat) {
    && i <= |plan|
    && (forall b: Bit :: |now.At(b)| + PlannedIn(plan[..i], b) == |start.At(b)|)
    && (forall b: Bit, key :: !Resting(start.At(b), key) ==> !Resting(now.At(b), key))
    && (forall j, k :: 0 <= j < k < |plan| ==> plan[j] != plan[k])
    && (forall j :: i <= j < |plan| ==> Waits(now, plan[j]))
  }

  predicate Waits(now: Two<seq<Entry>>, removal: (Bit, Key)) {
    IsKey(removal.1) && Resting(now.At(removal.0), removal.1)
  }

  lemma RestsThere(start: Two<seq<Entry>>, now: Two<seq<Entry>>, plan: seq<(Bit, Key)>, i: nat)
    requires AppliedTo(start, now, plan, i) && i < |plan|
    ensures IsKey(plan[i].1) && Resting(now.At(plan[i].0), plan[i].1)
  {
    assert Waits(now, plan[i]);
  }

  lemma AppliedSnoc(start: Two<seq<Entry>>, now: Two<seq<Entry>>, plan: seq<(Bit, Key)>, i: nat)
    requires AppliedTo(start, now, plan, i) && i < |plan|
    ensures var (tree, key) := plan[i];
            AppliedTo(start, now.With(tree, Without(now.At(tree), key)), plan, i + 1)
  {
    var (tree, key) := plan[i];
    var now' := now.With(tree, Without(now.At(tree), key));
    RestsThere(start, now, plan, i);
    OnlyOneLeaves(now.At(tree), key);
    forall b: Bit
      ensures |now'.At(b)| + PlannedIn(plan[..i + 1], b) == |start.At(b)|
    {
      PlannedSnoc(plan, i, b);
    }
    forall j | i + 1 <= j < |plan|
      ensures Waits(now', plan[j])
    {
      assert Waits(now, plan[j]) && plan[i] != plan[j];
    }
  }

  /** Each order removed frees a slot, or two; only a full arena and one removal escape the count. */
  lemma Foresight(n: nat, m: nat, k: nat, l: nat, available: nat)
    requires k <= n && l <= m && available == CAPACITY - SlotsFor(n) - SlotsFor(m)
    ensures var needed, room := if n == 0 then 1 else 2, CAPACITY - SlotsFor(n - k) - SlotsFor(m - l);
            var fits := room >= if n == k then 1 else 2;
            && (available + k + l >= needed ==> fits)
            && (available + k + l < needed ==> (fits <==> available == 0 && k + l == 1 && (k == 1 || m > 1)))
  {}

  lemma RoomForesight(start: Two<seq<Entry>>, now: Two<seq<Entry>>, plan: seq<(Bit, Key)>, tree: Bit, key: Key,
                      available: nat)
    requires AppliedTo(start, now, plan, |plan|)
    requires available == CAPACITY - SlotsFor(|start.fixed|) - SlotsFor(|start.pegged|)
    ensures !Resting(start.At(tree), key) ==> !Resting(now.At(tree), key)
    ensures var needed, room := if start.At(tree) == [] then 1 else 2, CAPACITY - SlotsFor(|now.fixed|) - SlotsFor(|now.pegged|);
            var fits := room >= if now.At(tree) == [] then 1 else 2;
            && (available + |plan| >= needed ==> fits)
            && (available + |plan| < needed ==>
                  (fits <==> available == 0 && |plan| == 1 && (plan[0].0 == tree || |start.At(1 - tree)| > 1)))
  {
    assert plan[..|plan|] == plan;
    PlannedSplit(plan, tree);
    assert |now.At(tree)| + PlannedIn(plan, tree) == |start.At(tree)|;
    assert |now.At(1 - tree)| + PlannedIn(plan, 1 - tree) == |start.At(1 - tree)|;
    Foresight(|start.At(tree)|, |start.At(1 - tree)|, PlannedIn(plan, tree), PlannedIn(plan, 1 - tree), available);
  }

  // ----- a stale tag -----

  function OrderAt(sequence: u64): Order {
    Order(1, 0, 0, PriceTimeKey(Ask, 1, sequence).value, 1, 0, 0, 0, 1, sequence, 0)
  }

  lemma OrderAtIsNew(es: seq<Entry>, sequence: u64)
    requires forall e :: e in es ==> e.order.sequence < sequence && e.order == OrderAt(e.order.sequence)
    ensures IsKey(OrderAt(sequence).key) && Lookup(es, OrderAt(sequence).key) == None
  {
    PriceTimePriority(Ask, 1, sequence, 1, sequence);
    forall e | e in es
      ensures e.order.key != OrderAt(sequence).key
    {
      PriceTimePriority(Ask, 1, e.order.sequence, 1, sequence);
    }
  }

  lemma {:induction false} InsertedElements(es: seq<Entry>, x: Entry)
    ensures forall e :: e in InsertSorted(es, x) <==> e in es || e == x
    ensures |InsertSorted(es, x)| == |es| + 1
  {
    if es != [] { InsertedElements(es[1..], x); }
  }

  /** 512 orders of one tree; one slot is left. */
  method FillTree() returns (arena: Arena)
    ensures fresh(arena) && fresh(arena.nodes) && arena.Valid() && arena.Clean() && arena.freeLen == 0
    ensures |arena.Book(0)| == 512 && arena.Book(1) == []
    ensures forall e :: e in arena.Book(0) ==> e.order.sequence < 512 && e.order == OrderAt(e.order.sequence)
  {
    arena := new Arena();
    for i := 0 to 512
      invariant fresh(arena) && fresh(arena.nodes) && arena.Valid() && arena.Clean() && arena.freeLen == 0
      invariant |arena.Book(0)| == i && arena.Book(1) == []
      invariant forall e :: e in arena.Book(0) ==> e.order.sequence < i && e.order == OrderAt(e.order.sequence)
    {
      OrderAtIsNew(arena.Book(0), i);
      arena.AvailableInOrders();
      ghost var es := arena.Book(0);
      var placed := arena.Insert(0, OrderAt(i));
      InsertedElements(es, Entry(placed.value, OrderAt(i)));
    }
  }

  /** 512 fixed orders, a pegged one that comes and goes, and one order too many: the arena still holds its
      orders, but a slot past the allocated ones keeps the tag of the free list. */
  method LeaveStaleTag() returns (arena: Arena)
    ensures arena.Valid() && !arena.Clean()
  {
    arena := FillTree();
    OrderAtIsNew(arena.Book(0), 512);
    OrderAtIsNew([], 512);
    arena.AvailableInOrders();
    var pegged := arena.Insert(1, OrderAt(512));
    var removed := arena.Remove(1, OrderAt(512).key);
    arena.AvailableInOrders();
    var refused := arena.Insert(0, OrderAt(512));
  }

  /** 512 fixed orders and a pegged one: no slot is left. */
  method FillArena() returns (arena: Arena)
    ensures fresh(arena) && fresh(arena.nodes) && arena.Valid() && arena.Available() == 0 && arena.Book(0) != []
    ensures IsKey(OrderAt(513).key) && !Resting(arena.Book(0), OrderAt(513).key)
  {
    arena := FillTree();
    OrderAtIsNew(arena.Book(0), 513);
    OrderAtIsNew([], 512);
    arena.AvailableInOrders();
    var pegged := arena.Insert(1, OrderAt(512));
    arena.AvailableInOrders();
  }

  /** A full arena, one of its own orders to be removed: room is refused, and the order fits. */
  method RefuseWhatFits() returns (foreseen: Result<()>, r: Result<nat>)
    ensures foreseen == Err(Full) && r.Ok?
  {
    var arena := FillArena();
    var best := arena.Best(0);
    EntryIsLeaf(arena.Value(), arena.trees, arena.free, 0, arena.Book(0)[0]);
    var key := arena.nodes[best.value].order.key;
    foreseen, r := arena.InsertAfterPlan(0, OrderAt(513), [(0, key)]);
  }
}
