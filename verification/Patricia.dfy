/**
 The PATRICIA trees of the on-chain order book as values: what the nodes of
 `programs/equinox/src/book.rs` spell out, and the walks over them. A tree
 stands for its orders in key order.
 */
module Patricia {
  import opened Wrappers
  import opened OrderKeys

  const NO_EXPIRY := U64_MAX

  /** A leaf's fields; the tag and the padding are left to the node. */
  datatype Order = Order(
    side: nat, timeInForce: nat, owner: nat, key: Key, quantity: u64, expiresAt: u64,
    pegLimit: i64, clientOrderId: u64, priceOrOffset: i64, sequence: u64, flags: nat)

  function ExpiryOf(order: Order): u64 {
    if order.expiresAt == 0 then NO_EXPIRY else order.expiresAt
  }

  /** A resting order and the slot that holds it. */
  datatype Entry = Entry(slot: nat, order: Order)

  /** Each node carries its slot; `key` of a fork is that of some leaf once below it. */
  datatype Tree =
    | Tip(slot: nat, order: Order)
    | Fork(slot: nat, prefix: nat, key: Key, left: Tree, right: Tree)

  function Entries(t: Tree): (es: seq<Entry>)
    ensures es != []
  {
    match t
    case Tip(slot, order) => [Entry(slot, order)]
    case Fork(_, _, _, left, right) => Entries(left) + Entries(right)
  }

  /** The earliest expiry below, which forks cache for each child. */
  function Earliest(t: Tree): u64 {
    match t
    case Tip(_, order) => ExpiryOf(order)
    case Fork(_, _, _, left, right) => Min(Earliest(left), Earliest(right))
  }

  function Min(a: u64, b: u64): u64 {
    if a <= b then a else b
  }

  /** How often a slot is used. */
  function Uses(t: Tree, slot: nat): nat {
    (if t.slot == slot then 1 else 0) + if t.Tip? then 0 else Uses(t.left, slot) + Uses(t.right, slot)
  }

  function Size(t: Tree): nat {
    if t.Tip? then 1 else 1 + Size(t.left) + Size(t.right)
  }

  /** A tree of n orders has 2n - 1 nodes. */
  lemma {:induction false} SizeIsTwiceLess(t: Tree)
    ensures Size(t) == 2 * |Entries(t)| - 1
  {
    if t.Fork? { SizeIsTwiceLess(t.left); SizeIsTwiceLess(t.right); }
  }

  // ----- shape -----

  /** A key that belongs on one branch of a fork. */
  predicate OnBranch(k: Key, key: Key, prefix: nat, branch: nat) {
    prefix < |k| && prefix <= |key| && k[..prefix] == key[..prefix] && k[prefix] == branch
  }

  predicate AllOnBranch(t: Tree, key: Key, prefix: nat, branch: nat) {
    if t.Tip? then OnBranch(t.order.key, key, prefix, branch)
    else AllOnBranch(t.left, key, prefix, branch) && AllOnBranch(t.right, key, prefix, branch)
  }

  predicate Shaped(t: Tree) {
    match t
    case Tip(_, order) => IsKey(order.key)
    case Fork(_, prefix, key, left, right) =>
      && IsKey(key) && prefix < KEY_BITS
      && AllOnBranch(left, key, prefix, 0) && AllOnBranch(right, key, prefix, 1)
      && Shaped(left) && Shaped(right)
  }

  lemma {:induction false} AllOnBranchIsPointwise(t: Tree, key: Key, prefix: nat, branch: nat)
    ensures AllOnBranch(t, key, prefix, branch) <==> forall e :: e in Entries(t) ==>
            OnBranch(e.order.key, key, prefix, branch)
  {
    if t.Fork? {
      AllOnBranchIsPointwise(t.left, key, prefix, branch);
      AllOnBranchIsPointwise(t.right, key, prefix, branch);
    } else {
      assert Entries(t)[0] == Entry(t.slot, t.order);
    }
  }

  /** Strictly ascending keys. */
  predicate Ascending(es: seq<Entry>) {
    forall i, j :: 0 <= i < j < |es| ==> InOrder(es, i, j)
  }

  predicate InOrder(es: seq<Entry>, i: nat, j: nat)
    requires i < |es| && j < |es|
  {
    Less(es[i].order.key, es[j].order.key)
  }

  lemma BranchesCompare(a: Key, b: Key, key: Key, prefix: nat)
    requires OnBranch(a, key, prefix, 0) && OnBranch(b, key, prefix, 1)
    ensures Less(a, b)
  {
    FirstDifference(a, b, prefix);
  }

  lemma {:induction false} ShapedAscends(t: Tree)
    requires Shaped(t)
    ensures Ascending(Entries(t))
  {
    if t.Fork? {
      var l, r := Entries(t.left), Entries(t.right);
      ShapedAscends(t.left);
      ShapedAscends(t.right);
      AllOnBranchIsPointwise(t.left, t.key, t.prefix, 0);
      AllOnBranchIsPointwise(t.right, t.key, t.prefix, 1);
      var es := l + r;
      forall i, j | 0 <= i < j < |es|
        ensures InOrder(es, i, j)
      {
        if j < |l| {
          assert InOrder(l, i, j);
        } else if i >= |l| {
          assert InOrder(r, i - |l|, j - |l|);
        } else {
          assert es[i] == l[i] && es[i] in l && es[j] == r[j - |l|] && es[j] in r;
          BranchesCompare(es[i].order.key, es[j].order.key, t.key, t.prefix);
        }
      }
    }
  }

  // ----- lookup, best, first expired -----

  function Lookup(es: seq<Entry>, key: Key): (r: Option<Entry>)
    ensures r.Some? ==> r.value in es && r.value.order.key == key
    ensures r.None? ==> forall e :: e in es ==> e.order.key != key
  {
    if es == [] then None else if es[0].order.key == key then Some(es[0]) else Lookup(es[1..], key)
  }

  lemma {:induction false} LookupConcat(a: seq<Entry>, b: seq<Entry>, key: Key)
    ensures Lookup(a + b, key) == if Lookup(a, key).Some? then Lookup(a, key) else Lookup(b, key)
  {
    if a == [] {
      assert a + b == b;
    } else {
      assert (a + b)[1..] == a[1..] + b;
      LookupConcat(a[1..], b, key);
    }
  }

  /** The walk of `find`: one branch at every fork. */
  function Find(t: Tree, key: Key): Option<Entry>
    requires Shaped(t) && IsKey(key)
  {
    match t
    case Tip(slot, order) => if order.key == key then Some(Entry(slot, order)) else None
    case Fork(_, prefix, own, left, right) =>
      if CommonPrefix(own, key) < prefix then None
      else if key[prefix] == 0 then Find(left, key) else Find(right, key)
  }

  lemma OffBranchMisses(t: Tree, key: Key, own: Key, prefix: nat, branch: nat)
    requires AllOnBranch(t, own, prefix, branch) && prefix < |key| && !OnBranch(key, own, prefix, branch)
    ensures Lookup(Entries(t), key) == None
  {
    AllOnBranchIsPointwise(t, own, prefix, branch);
  }

  lemma {:induction false} FindIsLookup(t: Tree, key: Key)
    requires Shaped(t) && IsKey(key)
    ensures Find(t, key) == Lookup(Entries(t), key)
  {
    if t.Fork? {
      AgreeIffCommon(t.key, key, t.prefix);
      LookupConcat(Entries(t.left), Entries(t.right), key);
      if !OnBranch(key, t.key, t.prefix, 0) { OffBranchMisses(t.left, key, t.key, t.prefix, 0); }
      if !OnBranch(key, t.key, t.prefix, 1) { OffBranchMisses(t.right, key, t.key, t.prefix, 1); }
      if OnBranch(key, t.key, t.prefix, 0) { FindIsLookup(t.left, key); }
      if OnBranch(key, t.key, t.prefix, 1) { FindIsLookup(t.right, key); }
    }
  }

  function Leftmost(t: Tree): Entry {
    if t.Tip? then Entry(t.slot, t.order) else Leftmost(t.left)
  }

  lemma {:induction false} LeftmostIsFirst(t: Tree)
    ensures Leftmost(t) == Entries(t)[0]
  {
    if t.Fork? { LeftmostIsFirst(t.left); }
  }

  predicate Expired(e: Entry, now: u64) {
    ExpiryOf(e.order) <= now
  }

  /** The first expired entry in key order. */
  function FirstExpired(es: seq<Entry>, now: u64): (r: Option<Entry>)
    ensures r.Some? ==> r.value in es && Expired(r.value, now)
    ensures r.None? ==> forall e :: e in es ==> !Expired(e, now)
  {
    if es == [] then None else if Expired(es[0], now) then Some(es[0]) else FirstExpired(es[1..], now)
  }

  lemma {:induction false} FirstExpiredConcat(a: seq<Entry>, b: seq<Entry>, now: u64)
    ensures FirstExpired(a + b, now) == if FirstExpired(a, now).Some? then FirstExpired(a, now)
            else FirstExpired(b, now)
  {
    if a == [] {
      assert a + b == b;
    } else {
      assert (a + b)[1..] == a[1..] + b;
      FirstExpiredConcat(a[1..], b, now);
    }
  }

  /** The walk of `first_expired`, which descends by the cached expiries. */
  function WalkExpired(t: Tree, now: u64): Option<Entry> {
    if t.Tip? then (if ExpiryOf(t.order) <= now then Some(Entry(t.slot, t.order)) else None)
    else if Earliest(t.left) <= now then WalkExpired(t.left, now)
    else if Earliest(t.right) <= now then WalkExpired(t.right, now)
    else None
  }

  lemma {:induction false} WalkFindsFirstExpired(t: Tree, now: u64)
    ensures WalkExpired(t, now) == FirstExpired(Entries(t), now)
    ensures Earliest(t) <= now <==> FirstExpired(Entries(t), now).Some?
  {
    if t.Fork? {
      WalkFindsFirstExpired(t.left, now);
      WalkFindsFirstExpired(t.right, now);
      FirstExpiredConcat(Entries(t.left), Entries(t.right), now);
    }
  }

  // ----- a subtree and the way to it -----

  type Bit = b: nat | b < 2

  /** A fork passed on the way down, and the subtree not taken. */
  datatype Frame = Frame(slot: nat, prefix: nat, key: Key, branch: Bit, sibling: Tree)

  function Wrap(f: Frame, t: Tree): Tree {
    if f.branch == 0 then Fork(f.slot, f.prefix, f.key, t, f.sibling) else Fork(f.slot, f.prefix, f.key, f.sibling, t)
  }

  function Plug(frames: seq<Frame>, t: Tree): Tree {
    if frames == [] then t else Plug(frames[..|frames| - 1], Wrap(frames[|frames| - 1], t))
  }

  function Before(frames: seq<Frame>): seq<Entry> {
    if frames == [] then []
    else
      var f := frames[|frames| - 1];
      Before(frames[..|frames| - 1]) + if f.branch == 0 then [] else Entries(f.sibling)
  }

  function After(frames: seq<Frame>): seq<Entry> {
    if frames == [] then []
    else
      var f := frames[|frames| - 1];
      (if f.branch == 0 then Entries(f.sibling) else []) + After(frames[..|frames| - 1])
  }

  lemma {:induction false} EntriesOfPlug(frames: seq<Frame>, t: Tree)
    ensures Entries(Plug(frames, t)) == Before(frames) + Entries(t) + After(frames)
  {
    if frames != [] {
      var front, f := frames[..|frames| - 1], frames[|frames| - 1];
      EntriesOfPlug(front, Wrap(f, t));
    }
  }

  function FrameUses(frames: seq<Frame>, slot: nat): nat {
    if frames == [] then 0
    else
      var f := frames[|frames| - 1];
      FrameUses(frames[..|frames| - 1], slot) + (if f.slot == slot then 1 else 0) + Uses(f.sibling, slot)
  }

  lemma {:induction false} UsesOfPlug(frames: seq<Frame>, t: Tree, slot: nat)
    ensures Uses(Plug(frames, t), slot) == FrameUses(frames, slot) + Uses(t, slot)
  {
    if frames != [] { UsesOfPlug(frames[..|frames| - 1], Wrap(frames[|frames| - 1], t), slot); }
  }

  /** The key takes the branch of every frame. */
  predicate Follows(frames: seq<Frame>, key: Key) {
    forall i :: 0 <= i < |frames| ==> OnBranch(key, frames[i].key, frames[i].prefix, frames[i].branch)
  }

  lemma {:induction false} ShapedBelow(frames: seq<Frame>, t: Tree)
    requires Shaped(Plug(frames, t))
    ensures Shaped(t)
    ensures forall e :: e in Entries(t) ==> Follows(frames, e.order.key)
  {
    if frames != [] {
      var front, f := frames[..|frames| - 1], frames[|frames| - 1];
      ShapedBelow(front, Wrap(f, t));
      AllOnBranchIsPointwise(t, f.key, f.prefix, f.branch);
    }
  }

  function Kid(t: Tree, branch: Bit): Tree
    requires t.Fork?
  {
    if branch == 0 then t.left else t.right
  }

  /** The frame left behind when a fork's branch is taken. */
  function Taken(t: Tree, branch: Bit): Frame
    requires t.Fork?
  {
    Frame(t.slot, t.prefix, t.key, branch, Kid(t, 1 - branch))
  }

  /** A key that agrees with a fork up to its prefix goes down one of its branches. */
  lemma ForkLeads(frames: seq<Frame>, t: Tree, key: Key)
    requires t.Fork? && Shaped(Plug(frames, t)) && IsKey(key) && CommonPrefix(t.key, key) >= t.prefix
    ensures |frames| <= t.prefix < KEY_BITS && key[t.prefix] < 2
    ensures OnBranch(key, t.key, t.prefix, key[t.prefix])
  {
    ShapedBelow(frames, t);
    WayIsShort(frames, t);
    AgreeIffCommon(t.key, key, t.prefix);
  }

  lemma TakenPlugs(frames: seq<Frame>, t: Tree, branch: Bit)
    requires t.Fork?
    ensures Plug(frames + [Taken(t, branch)], Kid(t, branch)) == Plug(frames, t)
  {
    PlugSnoc(frames, Taken(t, branch), Kid(t, branch));
    assert Wrap(Taken(t, branch), Kid(t, branch)) == t;
  }

  lemma StepDown(frames: seq<Frame>, t: Tree, key: Key)
    requires t.Fork? && Shaped(Plug(frames, t)) && IsKey(key) && Follows(frames, key)
    requires CommonPrefix(t.key, key) >= t.prefix
    ensures |frames| <= t.prefix < KEY_BITS && key[t.prefix] < 2
    ensures var branch: Bit := key[t.prefix];
            var frames' := frames + [Taken(t, branch)];
            Plug(frames', Kid(t, branch)) == Plug(frames, t) && Follows(frames', key)
  {
    ForkLeads(frames, t, key);
    var branch: Bit := key[t.prefix];
    TakenPlugs(frames, t, branch);
    FollowsSnoc(frames, Taken(t, branch), key);
  }

  lemma PlugSnoc(frames: seq<Frame>, f: Frame, t: Tree)
    ensures Plug(frames + [f], t) == Plug(frames, Wrap(f, t))
  {
    assert (frames + [f])[..|frames|] == frames;
  }

  lemma FollowsSnoc(frames: seq<Frame>, f: Frame, key: Key)
    requires Follows(frames, key) && OnBranch(key, f.key, f.prefix, f.branch)
    ensures Follows(frames + [f], key)
  {}

  /** A subtree may be replaced by any shaped one whose new keys follow the frames. */
  lemma {:induction false} ShapedReplace(frames: seq<Frame>, t: Tree, t': Tree)
    requires Shaped(Plug(frames, t)) && Shaped(t')
    requires forall e :: e in Entries(t') ==> e in Entries(t) || Follows(frames, e.order.key)
    ensures Shaped(Plug(frames, t'))
  {
    if frames != [] {
      var front, f := frames[..|frames| - 1], frames[|frames| - 1];
      ShapedBelow(front, Wrap(f, t));
      AllOnBranchIsPointwise(t, f.key, f.prefix, f.branch);
      AllOnBranchIsPointwise(t', f.key, f.prefix, f.branch);
      ShapedReplace(front, Wrap(f, t), Wrap(f, t'));
    }
  }

  // ----- insertion and removal -----

  function KeyOf(t: Tree): Key {
    if t.Tip? then t.order.key else t.key
  }

  /** Bits that a key must share to belong below; a leaf needs all. */
  function Depth(t: Tree): nat {
    if t.Tip? then KEY_BITS else t.prefix
  }

  /** The fork put above a subtree to take in a new leaf. */
  function Split(t: Tree, slot: nat, leaf: Tree): Tree
    requires leaf.Tip? && CommonPrefix(KeyOf(t), leaf.order.key) < |leaf.order.key|
  {
    var p := CommonPrefix(KeyOf(t), leaf.order.key);
    if leaf.order.key[p] == 0 then Fork(slot, p, KeyOf(t), leaf, t) else Fork(slot, p, KeyOf(t), t, leaf)
  }

  lemma SubtreeKeepsPrefix(t: Tree, p: nat)
    requires Shaped(t) && p < Depth(t)
    ensures AllOnBranch(t, KeyOf(t), p, KeyOf(t)[p])
  {
    if t.Fork? {
      AllOnBranchIsPointwise(t, t.key, p, t.key[p]);
      AllOnBranchIsPointwise(t.left, t.key, t.prefix, 0);
      AllOnBranchIsPointwise(t.right, t.key, t.prefix, 1);
      forall e | e in Entries(t)
        ensures OnBranch(e.order.key, t.key, p, t.key[p])
      {
        AgreeBelow(e.order.key, t.key, t.prefix);
        AgreeBelow(e.order.key, t.key, p);
      }
    }
  }

  lemma SplitIsShaped(t: Tree, slot: nat, leaf: Tree)
    requires Shaped(t) && leaf.Tip? && Shaped(leaf) && CommonPrefix(KeyOf(t), leaf.order.key) < Depth(t)
    ensures Shaped(Split(t, slot, leaf))
  {
    SubtreeKeepsPrefix(t, CommonPrefix(KeyOf(t), leaf.order.key));
  }

  /** Forks get deeper on the way down, so no way is longer than a key. */
  lemma {:induction false} ForkIsBelow(t: Tree, key: Key, prefix: nat, branch: nat)
    requires t.Fork? && Shaped(t) && AllOnBranch(t, key, prefix, branch)
    ensures prefix < t.prefix
  {
    var a, b := Leftmost(t.left), Leftmost(t.right);
    LeftmostIsFirst(t.left);
    LeftmostIsFirst(t.right);
    AllOnBranchIsPointwise(t.left, t.key, t.prefix, 0);
    AllOnBranchIsPointwise(t.right, t.key, t.prefix, 1);
    AllOnBranchIsPointwise(t, key, prefix, branch);
    assert a in Entries(t) && b in Entries(t);
    FirstDifference(a.order.key, b.order.key, t.prefix);
    AgreeBelow(a.order.key, key, prefix);
    AgreeBelow(b.order.key, key, prefix);
    AgreeBelow(a.order.key, b.order.key, prefix + 1);
    AgreeIffCommon(a.order.key, b.order.key, prefix + 1);
  }

  lemma {:induction false} WayIsShort(frames: seq<Frame>, t: Tree)
    requires t.Fork? && Shaped(Plug(frames, t))
    ensures |frames| <= t.prefix < KEY_BITS
  {
    ShapedBelow(frames, t);
    if frames != [] {
      var front, f := frames[..|frames| - 1], frames[|frames| - 1];
      ShapedBelow(front, Wrap(f, t));
      WayIsShort(front, Wrap(f, t));
      ForkIsBelow(t, f.key, f.prefix, f.branch);
    }
  }

  // ----- the list a tree stands for -----

  function InsertSorted(es: seq<Entry>, e: Entry): seq<Entry> {
    if es == [] || Less(e.order.key, es[0].order.key) then [e] + es else [es[0]] + InsertSorted(es[1..], e)
  }

  function Without(es: seq<Entry>, key: Key): seq<Entry> {
    if es == [] then [] else if es[0].order.key == key then es[1..] else [es[0]] + Without(es[1..], key)
  }

  lemma {:induction false} LookupWithout(es: seq<Entry>, key: Key, other: Key)
    requires other != key || Lookup(es, other).None?
    ensures Lookup(Without(es, key), other) == Lookup(es, other)
  {
    if es != [] && es[0].order.key != key {
      LookupWithout(es[1..], key, other);
      var rest := Without(es[1..], key);
      assert ([es[0]] + rest)[1..] == rest;
    }
  }

  lemma {:induction false} WithoutSize(es: seq<Entry>, key: Key)
    requires Lookup(es, key).Some?
    ensures |Without(es, key)| == |es| - 1
  {
    if es[0].order.key != key { WithoutSize(es[1..], key); }
  }

  lemma LessIsStrict(a: Key, b: Key)
    requires Less(a, b)
    ensures !Less(b, a) && a != b
  {
    FirstDifference(b, a, CommonPrefix(a, b));
  }

  lemma AscendingTail(es: seq<Entry>)
    requires Ascending(es) && es != []
    ensures Ascending(es[1..])
    ensures forall e :: e in es[1..] ==> es[0].order.key != e.order.key
  {
    forall i, j | 0 <= i < j < |es| - 1
      ensures InOrder(es[1..], i, j)
    {
      assert InOrder(es, i + 1, j + 1);
    }
    forall e | e in es[1..]
      ensures es[0].order.key != e.order.key
    {
      var i :| 0 <= i < |es| - 1 && es[1..][i] == e;
      assert InOrder(es, 0, i + 1);
      LessIsStrict(es[0].order.key, es[i + 1].order.key);
    }
  }

  lemma {:induction false} InsertedAt(a: seq<Entry>, e: Entry, b: seq<Entry>)
    requires Ascending(a + [e] + b)
    ensures InsertSorted(a + b, e) == a + [e] + b
  {
    var all := a + [e] + b;
    if a == [] {
      assert a + b == b;
      if b != [] { assert InOrder(all, 0, 1); }
    } else {
      assert InOrder(all, 0, |a|);
      LessIsStrict(a[0].order.key, e.order.key);
      AscendingTail(all);
      assert all[1..] == a[1..] + [e] + b;
      assert (a + b)[1..] == a[1..] + b;
      InsertedAt(a[1..], e, b);
    }
  }

  lemma {:induction false} RemovedAt(a: seq<Entry>, e: Entry, b: seq<Entry>)
    requires Ascending(a + [e] + b)
    ensures Without(a + [e] + b, e.order.key) == a + b
    ensures Lookup(a + [e] + b, e.order.key) == Some(e)
  {
    var all := a + [e] + b;
    if a != [] {
      assert InOrder(all, 0, |a|);
      LessIsStrict(a[0].order.key, e.order.key);
      AscendingTail(all);
      assert all[1..] == a[1..] + [e] + b;
      assert (a + b)[1..] == a[1..] + b;
      RemovedAt(a[1..], e, b);
    } else {
      assert all[1..] == b;
      assert a + b == b;
    }
  }

  lemma {:induction false} PlugKeepsRoot(frames: seq<Frame>, t: Tree)
    ensures Plug(frames, t).slot == if frames == [] then t.slot else frames[0].slot
  {
    if frames != [] { PlugKeepsRoot(frames[..|frames| - 1], Wrap(frames[|frames| - 1], t)); }
  }

  /** A key that follows the way and parts from the subtree may be split in. */
  ghost predicate PartsAt(frames: seq<Frame>, t: Tree, key: Key) {
    Shaped(Plug(frames, t)) && IsKey(key) && Follows(frames, key) && CommonPrefix(KeyOf(t), key) < Depth(t) <= KEY_BITS
  }

  lemma SplitKeepsShape(frames: seq<Frame>, t: Tree, slot: nat, leaf: Tree)
    requires leaf.Tip? && PartsAt(frames, t, leaf.order.key)
    ensures Shaped(Plug(frames, Split(t, slot, leaf)))
  {
    ShapedBelow(frames, t);
    SplitIsShaped(t, slot, leaf);
    ShapedReplace(frames, t, Split(t, slot, leaf));
  }

  /** Splitting a leaf in adds it to the list at its place. */
  lemma SplitInserts(frames: seq<Frame>, t: Tree, slot: nat, leaf: Tree)
    requires leaf.Tip? && PartsAt(frames, t, leaf.order.key)
    ensures var es := Entries(Plug(frames, t));
            var es' := Entries(Plug(frames, Split(t, slot, leaf)));
            es' == InsertSorted(es, Entry(leaf.slot, leaf.order)) && |es'| == |es| + 1
  {
    var e, a, b := Entry(leaf.slot, leaf.order), Before(frames), After(frames);
    SplitKeepsShape(frames, t, slot, leaf);
    EntriesOfPlug(frames, t);
    EntriesOfPlug(frames, Split(t, slot, leaf));
    ShapedAscends(Plug(frames, Split(t, slot, leaf)));
    if leaf.order.key[CommonPrefix(KeyOf(t), leaf.order.key)] == 0 {
      InsertedLeft(a, Entries(t), b, e);
    } else {
      InsertedRight(a, Entries(t), b, e);
    }
  }

  lemma InsertedLeft(a: seq<Entry>, es: seq<Entry>, b: seq<Entry>, e: Entry)
    requires Ascending(a + ([e] + es) + b)
    ensures InsertSorted(a + es + b, e) == a + ([e] + es) + b
  {
    assert a + ([e] + es) + b == a + [e] + (es + b);
    assert a + es + b == a + (es + b);
    InsertedAt(a, e, es + b);
  }

  lemma InsertedRight(a: seq<Entry>, es: seq<Entry>, b: seq<Entry>, e: Entry)
    requires Ascending(a + (es + [e]) + b)
    ensures InsertSorted(a + es + b, e) == a + (es + [e]) + b
  {
    assert a + (es + [e]) + b == (a + es) + [e] + b;
    InsertedAt(a + es, e, b);
  }

  /** Taking a leaf out of its fork leaves the sibling, and the list without it. */
  lemma UnsplitRemoves(frames: seq<Frame>, t: Tree)
    requires t.Tip? && frames != [] && Shaped(Plug(frames, t))
    ensures var front, sibling := frames[..|frames| - 1], frames[|frames| - 1].sibling;
            var es, es' := Entries(Plug(frames, t)), Entries(Plug(front, sibling));
            && Shaped(Plug(front, sibling)) && es' == Without(es, t.order.key) && |es'| == |es| - 1
            && Lookup(es, t.order.key) == Some(Entry(t.slot, t.order))
  {
    var front, f := frames[..|frames| - 1], frames[|frames| - 1];
    EntriesOfPlug(frames, t);
    EntriesOfPlug(front, f.sibling);
    SiblingRemains(frames);
    ShapedAscends(Plug(frames, t));
    RemovedAt(Before(frames), Entry(t.slot, t.order), After(frames));
    SiblingIsShaped(front, f, t);
  }

  lemma SiblingRemains(frames: seq<Frame>)
    requires frames != []
    ensures var front, sibling := frames[..|frames| - 1], frames[|frames| - 1].sibling;
            Before(front) + Entries(sibling) + After(front) == Before(frames) + After(frames)
  {}

  lemma SiblingIsShaped(frames: seq<Frame>, f: Frame, t: Tree)
    requires Shaped(Plug(frames, Wrap(f, t)))
    ensures Shaped(Plug(frames, f.sibling))
  {
    ShapedBelow(frames, Wrap(f, t));
    ShapedReplace(frames, Wrap(f, t), f.sibling);
  }

  /** The walk along a way the key follows finds what the subtree holds. */
  lemma {:induction false} FindOnWay(frames: seq<Frame>, t: Tree, key: Key)
    requires Shaped(Plug(frames, t)) && IsKey(key) && Follows(frames, key)
    ensures Shaped(t) && Find(Plug(frames, t), key) == Find(t, key)
  {
    ShapedBelow(frames, t);
    if frames != [] {
      var front, f := frames[..|frames| - 1], frames[|frames| - 1];
      FindOnWay(front, Wrap(f, t), key);
      AgreeIffCommon(f.key, key, f.prefix);
    }
  }

  lemma LookupOnWay(frames: seq<Frame>, t: Tree, key: Key)
    requires Shaped(Plug(frames, t)) && IsKey(key) && Follows(frames, key)
    requires t.Tip? || CommonPrefix(t.key, key) < t.prefix
    ensures Lookup(Entries(Plug(frames, t)), key) == if t.Tip?
            && t.order.key == key then Some(Entry(t.slot, t.order)) else None
    ensures PartsAt(frames, t, key) <==> !(t.Tip? && t.order.key == key)
  {
    FindOnWay(frames, t, key);
    FindIsLookup(Plug(frames, t), key);
    AgreeIffCommon(KeyOf(t), key, KEY_BITS);
    assert key[..KEY_BITS] == key && KeyOf(t)[..KEY_BITS] == KeyOf(t);
  }

  // ----- sweeping and cancelling -----

  function CountExpired(es: seq<Entry>, now: u64): nat {
    if es == [] then 0 else (if Expired(es[0], now) then 1 else 0) + CountExpired(es[1..], now)
  }

  /** The list without its first `n` expired entries. */
  function Swept(es: seq<Entry>, now: u64, n: nat): seq<Entry> {
    if es == [] || n == 0 then es
    else if Expired(es[0], now) then Swept(es[1..], now, n - 1)
    else [es[0]] + Swept(es[1..], now, n)
  }

  /** Removing the first expired entry is one step of the sweep. */
  lemma {:induction false} SweepStep(es: seq<Entry>, now: u64, n: nat)
    requires Ascending(es) && FirstExpired(es, now).Some? && n > 0
    ensures var rest := Without(es, FirstExpired(es, now).value.order.key);
            Swept(es, now, n) == Swept(rest, now, n - 1) && CountExpired(es, now) == 1 + CountExpired(rest, now)
  {
    var e := FirstExpired(es, now).value;
    AscendingTail(es);
    if !Expired(es[0], now) {
      SweepStep(es[1..], now, n);
      var rest := Without(es[1..], e.order.key);
      assert ([es[0]] + rest)[1..] == rest;
    }
  }

  lemma {:induction false} NothingToSweep(es: seq<Entry>, now: u64, n: nat)
    requires FirstExpired(es, now).None?
    ensures Swept(es, now, n) == es && CountExpired(es, now) == 0
  {
    if es != [] { NothingToSweep(es[1..], now, n); }
  }

  function Unexpired(es: seq<Entry>, now: u64): seq<Entry> {
    if es == [] then [] else (if Expired(es[0], now) then [] else [es[0]]) + Unexpired(es[1..], now)
  }

  /** A sweep with room for all expired entries leaves the others. */
  lemma {:induction false} FullSweep(es: seq<Entry>, now: u64, n: nat)
    requires CountExpired(es, now) <= n
    ensures Swept(es, now, n) == Unexpired(es, now)
  {
    if es == [] {
    } else if Expired(es[0], now) {
      FullSweep(es[1..], now, n - 1);
    } else {
      FullSweep(es[1..], now, n);
      if n == 0 { NoneExpired(es[1..], now); }
    }
  }

  lemma {:induction false} NoneExpired(es: seq<Entry>, now: u64)
    requires CountExpired(es, now) == 0
    ensures Unexpired(es, now) == es
  {
    if es != [] { NoneExpired(es[1..], now); }
  }

  /** After `removed` of at most `n` removals, `rest` is left to be swept. */
  predicate SweptSoFar(es: seq<Entry>, rest: seq<Entry>, now: u64, n: nat, removed: nat) {
    && removed <= n && Swept(rest, now, n - removed) == Swept(es, now, n)
    && CountExpired(rest, now) + removed == CountExpired(es, now)
  }

  lemma SweepOn(es: seq<Entry>, rest: seq<Entry>, now: u64, n: nat, removed: nat)
    requires SweptSoFar(es, rest, now, n, removed) && removed < n && Ascending(rest)
    ensures var first := FirstExpired(rest, now);
            if first.Some? then SweptSoFar(es, Without(rest, first.value.order.key), now, n, removed + 1)
            else rest == Swept(es, now, n) && CountExpired(es, now) == removed
  {
    if FirstExpired(rest, now).Some? {
      SweepStep(rest, now, n - removed);
    } else {
      NothingToSweep(rest, now, n - removed);
    }
  }

  /** Entries of an owner in slots already scanned. */
  predicate Scanned(e: Entry, owner: nat, bound: nat) {
    e.order.owner == owner && e.slot < bound
  }

  function Unscanned(es: seq<Entry>, owner: nat, bound: nat): seq<Entry> {
    if es == [] then []
    else if Scanned(es[0], owner, bound) then Unscanned(es[1..], owner, bound)
    else [es[0]] + Unscanned(es[1..], owner, bound)
  }

  /** Scanning on from where a scan has come. */
  lemma {:induction false} ScanGoesOn(es: seq<Entry>, owner: nat, bound: nat, bound': nat)
    requires bound <= bound'
    ensures Unscanned(Unscanned(es, owner, bound), owner, bound') == Unscanned(es, owner, bound')
  {
    if es != [] {
      ScanGoesOn(es[1..], owner, bound, bound');
      UnscannedCons(es[0], Unscanned(es[1..], owner, bound), owner, bound');
    }
  }

  lemma {:induction false} NothingScanned(es: seq<Entry>, owner: nat)
    ensures Unscanned(es, owner, 0) == es
  {
    if es != [] { NothingScanned(es[1..], owner); }
  }

  lemma {:induction false} ScanMisses(es: seq<Entry>, owner: nat, slot: nat)
    requires forall e :: e in es ==> !(e.order.owner == owner && e.slot == slot)
    ensures Unscanned(es, owner, slot + 1) == Unscanned(es, owner, slot)
  {
    if es != [] { ScanMisses(es[1..], owner, slot); }
  }

  /** An owner's order in a slot. */
  function OrderIn(es: seq<Entry>, owner: nat, slot: nat): Option<Order> {
    if es == [] then None
    else if es[0].order.owner == owner && es[0].slot == slot then Some(es[0].order)
    else OrderIn(es[1..], owner, slot)
  }

  lemma {:induction false} OrderInHits(es: seq<Entry>, owner: nat, e: Entry)
    requires e in es && e.order.owner == owner && forall x :: x in es && x.slot == e.slot ==> x == e
    ensures OrderIn(es, owner, e.slot) == Some(e.order)
  {
    if es[0] != e {
      assert es[0] in es;
      OrderInHits(es[1..], owner, e);
    }
  }

  lemma {:induction false} OrderInMisses(es: seq<Entry>, owner: nat, slot: nat)
    requires forall e :: e in es ==> !(e.order.owner == owner && e.slot == slot)
    ensures OrderIn(es, owner, slot) == None
  {
    if es != [] { OrderInMisses(es[1..], owner, slot); }
  }

  lemma {:induction false} OrderInUnscanned(es: seq<Entry>, owner: nat, slot: nat)
    ensures OrderIn(Unscanned(es, owner, slot), owner, slot) == OrderIn(es, owner, slot)
  {
    if es != [] {
      OrderInUnscanned(es[1..], owner, slot);
      var rest := Unscanned(es[1..], owner, slot);
      assert ([es[0]] + rest)[1..] == rest;
    }
  }

  /** A log of a scan from slot 0: the owner's order in each slot, if there is one. */
  ghost predicate LogOf(es: seq<Entry>, owner: nat, log: seq<Option<Order>>) {
    forall k :: 0 <= k < |log| ==> LoggedAt(es, owner, log, k)
  }

  predicate LoggedAt(es: seq<Entry>, owner: nat, log: seq<Option<Order>>, k: nat)
    requires k < |log|
  {
    log[k] == OrderIn(es, owner, k)
  }

  lemma LogGrows(es: seq<Entry>, owner: nat, log: seq<Option<Order>>)
    requires LogOf(es, owner, log)
    ensures LogOf(es, owner, log + [OrderIn(es, owner, |log|)])
  {
    var log' := log + [OrderIn(es, owner, |log|)];
    forall k | 0 <= k < |log'|
      ensures LoggedAt(es, owner, log', k)
    {
      if k < |log| { assert LoggedAt(es, owner, log, k); }
    }
  }

  /** Entries of different keys in different slots. */
  ghost predicate OneSlotEach(es: seq<Entry>) {
    forall x, y :: x in es && y in es && x.slot == y.slot ==> x == y
  }

  lemma UnscannedCons(x: Entry, tail: seq<Entry>, owner: nat, bound: nat)
    ensures Unscanned([x] + tail, owner, bound)
         == if Scanned(x, owner, bound) then Unscanned(tail, owner, bound) else [x] + Unscanned(tail, owner, bound)
  {
    assert ([x] + tail)[1..] == tail;
  }

  lemma WithoutCons(x: Entry, tail: seq<Entry>, key: Key)
    ensures Without([x] + tail, key) == if x.order.key == key then tail else [x] + Without(tail, key)
  {
    assert ([x] + tail)[1..] == tail;
  }

  lemma ScanHitsHead(e: Entry, tail: seq<Entry>, owner: nat)
    requires e.order.owner == owner && forall x :: x in tail ==> x.slot != e.slot
    ensures Unscanned([e] + tail, owner, e.slot + 1) == Without(Unscanned([e] + tail, owner, e.slot), e.order.key)
  {
    UnscannedCons(e, tail, owner, e.slot);
    UnscannedCons(e, tail, owner, e.slot + 1);
    WithoutCons(e, Unscanned(tail, owner, e.slot), e.order.key);
    ScanMisses(tail, owner, e.slot);
  }

  lemma ScanPassesHead(x: Entry, tail: seq<Entry>, owner: nat, e: Entry)
    requires x.slot != e.slot && x.order.key != e.order.key
    requires Unscanned(tail, owner, e.slot + 1) == Without(Unscanned(tail, owner, e.slot), e.order.key)
    ensures Unscanned([x] + tail, owner, e.slot + 1) == Without(Unscanned([x] + tail, owner, e.slot), e.order.key)
  {
    UnscannedCons(x, tail, owner, e.slot);
    UnscannedCons(x, tail, owner, e.slot + 1);
    WithoutCons(x, Unscanned(tail, owner, e.slot), e.order.key);
  }

  lemma {:induction false} ScanHits(es: seq<Entry>, owner: nat, e: Entry)
    requires Ascending(es) && e in es && e.order.owner == owner
    requires forall x :: x in es && x.slot == e.slot ==> x == e
    ensures Unscanned(es, owner, e.slot + 1) == Without(Unscanned(es, owner, e.slot), e.order.key)
  {
    var x, tail := es[0], es[1..];
    AscendingTail(es);
    assert es == [x] + tail;
    if x == e {
      assert forall y :: y in tail ==> y in es;
      ScanHitsHead(e, tail, owner);
    } else {
      assert x in es && e in tail;
      ScanHits(tail, owner, e);
      ScanPassesHead(x, tail, owner, e);
    }
  }

  /** The orders of everyone else. */
  function OthersOf(es: seq<Entry>, owner: nat): seq<Entry> {
    if es == [] then [] else (if es[0].order.owner == owner then [] else [es[0]]) + OthersOf(es[1..], owner)
  }

  lemma {:induction false} FullScan(es: seq<Entry>, owner: nat, bound: nat)
    requires forall e :: e in es ==> e.slot < bound
    ensures Unscanned(es, owner, bound) == OthersOf(es, owner)
  {
    if es != [] { FullScan(es[1..], owner, bound); }
  }

  // ----- priority -----

  /** Fixed orders carry the key of their price and sequence. */
  predicate KeyedByPrice(es: seq<Entry>, side: Side) {
    forall e :: e in es ==> PriceTimeKey(side, e.order.priceOrOffset, e.order.sequence) == Some(e.order.key)
  }

  /** The order at the front has the best price, and the earliest sequence at that price. */
  lemma FrontHasPriority(es: seq<Entry>, side: Side, i: nat)
    requires Ascending(es) && KeyedByPrice(es, side) && 0 < i < |es|
    ensures var best, other := es[0].order, es[i].order;
            || (if side.Ask? then best.priceOrOffset < other.priceOrOffset
                else best.priceOrOffset > other.priceOrOffset)
            || (best.priceOrOffset == other.priceOrOffset && best.sequence < other.sequence)
  {
    assert es[0] in es && es[i] in es && InOrder(es, 0, i);
    PriceTimePriority(side, es[0].order.priceOrOffset, es[0].order.sequence, es[i].order.priceOrOffset,
                      es[i].order.sequence);
  }
}
