/**
 Sharing among book pages. `decodeBundle` of `features/trading/use-v3-book.ts`
 decodes one byte array once, so an array that is given as two pages is one
 object with one set of marks. Here the marks with sharing are compared with the
 marks of pages decoded apart, and the answers with them.
 */
module PageSharing {
  import opened Wrappers
  import opened PriceLevels
  import opened BookView
  import opened BookTrees
  import opened BookDecoder

  // ----- places -----

  /** Where the mark of a place is kept under sharing. */
  function Fold(rep: seq<nat>, k: Place): Place
    requires k.0 < |rep|
  {
    (rep[k.0], k.1)
  }

  predicate Folded(rep: seq<nat>, apart: map<nat, Place>, shared: map<nat, Place>) {
    && apart.Keys == shared.Keys
    && forall h :: h in apart ==> apart[h].0 < |rep| && shared[h] == Fold(rep, apart[h])
  }

  lemma {:induction false} PageFolded(rep: seq<nat>, apart: map<nat, Place>, shared: map<nat, Place>,
                                      nodes: seq<NodeData>, i: nat, j: nat)
    requires i < |rep| && j <= |nodes| && Folded(rep, apart, shared)
    ensures Folded(rep, HandlesOfPage(apart, nodes, i, j), HandlesOfPage(shared, nodes, rep[i], j))
    decreases |nodes| - j
  {
    if j < |nodes| {
      var h := nodes[j].handle;
      PageFolded(rep, apart[h := (i, j)], shared[h := (rep[i], j)], nodes, i, j + 1);
    }
  }

  lemma {:induction false} TableFolded(rep: seq<nat>, apart: map<nat, Place>, shared: map<nat, Place>,
                                       pages: seq<PageData>, side: nat, i: nat)
    requires |rep| == |pages| && i <= |pages| && Folded(rep, apart, shared)
    ensures Folded(rep, Handles(apart, pages, Unshared(|pages|), side, i), Handles(shared, pages, rep, side, i))
    decreases |pages| - i
  {
    if i < |pages| {
      if pages[i].side == side {
        PageFolded(rep, apart, shared, pages[i].nodes, i, 0);
        TableFolded(rep, HandlesOfPage(apart, pages[i].nodes, i, 0), HandlesOfPage(shared, pages[i].nodes, rep[i], 0),
                    pages, side, i + 1);
      } else {
        TableFolded(rep, apart, shared, pages, side, i + 1);
      }
    }
  }

  predicate NamedAt(pages: seq<PageData>, side: nat, h: nat, k: Place) {
    InPages(pages, k) && pages[k.0].side == side && pages[k.0].nodes[k.1].handle == h
  }

  /** A table leads each handle to a node of that handle on that side. */
  predicate Named(pages: seq<PageData>, side: nat, m: map<nat, Place>) {
    forall h :: h in m ==> NamedAt(pages, side, h, m[h])
  }

  lemma {:induction false} PageNamed(pages: seq<PageData>, side: nat, m: map<nat, Place>, i: nat, j: nat)
    requires i < |pages| && j <= |pages[i].nodes| && pages[i].side == side && Named(pages, side, m)
    ensures Named(pages, side, HandlesOfPage(m, pages[i].nodes, i, j))
    decreases |pages[i].nodes| - j
  {
    if j < |pages[i].nodes| {
      assert NamedAt(pages, side, pages[i].nodes[j].handle, (i, j));
      PageNamed(pages, side, m[pages[i].nodes[j].handle := (i, j)], i, j + 1);
    }
  }

  lemma {:induction false} TableNamed(pages: seq<PageData>, side: nat, m: map<nat, Place>, i: nat)
    requires i <= |pages| && Named(pages, side, m)
    ensures Named(pages, side, Handles(m, pages, Unshared(|pages|), side, i))
    decreases |pages| - i
  {
    if i < |pages| {
      if pages[i].side == side {
        PageNamed(pages, side, m, i, 0);
        TableNamed(pages, side, HandlesOfPage(m, pages[i].nodes, i, 0), i + 1);
      } else {
        TableNamed(pages, side, m, i + 1);
      }
    }
  }

  /** The table of a side with every page decoded apart. */
  function Table(pages: seq<PageData>, side: nat): (m: map<nat, Place>)
    ensures HandlesIn(m, pages) && Named(pages, side, m)
  {
    TableNamed(pages, side, map[], 0);
    HandlesOf(pages, Unshared(|pages|), side)
  }

  /** The places the walks can come to: of each handle of a side, the last. */
  function OwnPlaces(pages: seq<PageData>): set<Place> {
    set i, j | 0 <= i < |pages| && 0 <= j < |pages[i].nodes| && IsOwn(pages, i, j) :: (i, j)
  }

  predicate IsOwn(pages: seq<PageData>, i: nat, j: nat)
    requires i < |pages| && j < |pages[i].nodes|
  {
    var t, h := Table(pages, pages[i].side), pages[i].nodes[j].handle;
    h in t && t[h] == (i, j)
  }

  predicate Meet(rep: seq<nat>, a: Place, b: Place) {
    a.0 < |rep| && b.0 < |rep| && Fold(rep, a) == Fold(rep, b)
  }

  /** No two of these places keep their marks at one place. */
  predicate Single(rep: seq<nat>, own: set<Place>) {
    && (forall a :: a in own ==> a.0 < |rep|)
    && (forall a, b :: a in own && b in own && Meet(rep, a, b) ==> a == b)
  }

  lemma OwnIsSingle(pages: seq<PageData>, rep: seq<nat>)
    requires RepOk(pages, rep)
    ensures Single(rep, OwnPlaces(pages))
  {
    var own := OwnPlaces(pages);
    forall a, b | a in own && b in own && Meet(rep, a, b)
      ensures a == b
    {
      assert pages[a.0] == pages[rep[a.0]] == pages[rep[b.0]] == pages[b.0];
    }
  }

  lemma HandleIsOwn(pages: seq<PageData>, side: nat, h: nat)
    requires h in Table(pages, side)
    ensures Table(pages, side)[h] in OwnPlaces(pages)
  {
    var k := Table(pages, side)[h];
    assert NamedAt(pages, side, h, k);
    assert IsOwn(pages, k.0, k.1);
  }

  // ----- marks -----

  predicate IsFoldOf(rep: seq<nat>, k: Place, q: Place) {
    k.0 < |rep| && Fold(rep, k) == q
  }

  predicate KeptAt(rep: seq<nat>, apart: Marks, shared: Marks, k: Place)
    requires k in apart
  {
    k.0 < |rep| && Fold(rep, k) in shared && shared[Fold(rep, k)] == apart[k]
  }

  ghost predicate HasHome(rep: seq<nat>, apart: Marks, q: Place) {
    exists k :: k in apart && IsFoldOf(rep, k, q)
  }

  /** The marks under sharing are those made apart, each moved to where it is kept. */
  ghost predicate MarksFolded(rep: seq<nat>, own: set<Place>, apart: Marks, shared: Marks) {
    && apart.Keys <= own
    && (forall k {:trigger KeptAt(rep, apart, shared, k)} :: k in apart ==> KeptAt(rep, apart, shared, k))
    && (forall q {:trigger HasHome(rep, apart, q)} :: q in shared ==> HasHome(rep, apart, q))
  }

  lemma MarkIsFolded(rep: seq<nat>, own: set<Place>, apart: Marks, shared: Marks, k: Place)
    requires Single(rep, own) && MarksFolded(rep, own, apart, shared) && k in own
    ensures MarkOf(shared, Fold(rep, k)) == MarkOf(apart, k)
  {
    if k in apart {
      assert KeptAt(rep, apart, shared, k);
    } else if Fold(rep, k) in shared {
      assert HasHome(rep, apart, Fold(rep, k));
      var a :| a in apart && IsFoldOf(rep, a, Fold(rep, k));
      assert Meet(rep, a, k);
    }
  }

  lemma MarkBoth(rep: seq<nat>, own: set<Place>, apart: Marks, shared: Marks, k: Place, tree: Tree)
    requires Single(rep, own) && MarksFolded(rep, own, apart, shared) && k in own
    ensures MarksFolded(rep, own, apart[k := tree], shared[Fold(rep, k) := tree])
  {
    var apart', shared' := apart[k := tree], shared[Fold(rep, k) := tree];
    forall a | a in apart'
      ensures KeptAt(rep, apart', shared', a)
    {
      if a != k {
        assert KeptAt(rep, apart, shared, a);
        assert !Meet(rep, a, k);
      }
    }
    forall q | q in shared'
      ensures HasHome(rep, apart', q)
    {
      if q == Fold(rep, k) {
        assert k in apart' && IsFoldOf(rep, k, q);
      } else {
        assert HasHome(rep, apart, q);
        var a :| a in apart && IsFoldOf(rep, a, q);
        assert a in apart';
      }
    }
  }

  ghost predicate StatesFolded(rep: seq<nat>, own: set<Place>, apart: WalkState, shared: WalkState) {
    apart.seen == shared.seen && apart.valid == shared.valid && MarksFolded(rep, own, apart.marks, shared.marks)
  }

  // ----- the walks -----

  ghost predicate TablesFolded(pages: seq<PageData>, rep: seq<nat>, own: set<Place>, apart: map<nat, Place>,
                               shared: map<nat, Place>) {
    && RepOk(pages, rep) && Single(rep, own)
    && HandlesIn(apart, pages) && HandlesIn(shared, pages) && Folded(rep, apart, shared)
    && forall h :: h in apart ==> apart[h] in own
  }

  lemma EnterFolded(pages: seq<PageData>, rep: seq<nat>, own: set<Place>, apart: map<nat, Place>, shared: map<nat,
                    Place>,
                    side: nat, tree: Tree, handle: nat, a: WalkState, s: WalkState)
    requires TablesFolded(pages, rep, own, apart, shared) && StatesFolded(rep, own, a, s)
    ensures var ea, es := Enter(pages, apart, side, tree, handle, a), Enter(pages, shared, side, tree, handle, s);
            StatesFolded(rep, own, ea.0, es.0) && ea.1 == es.1
  {
    if a.valid && handle != NONE_HANDLE && handle !in a.seen && handle in apart {
      var k := apart[handle];
      MarkIsFolded(rep, own, a.marks, s.marks, k);
      MarkBoth(rep, own, a.marks, s.marks, k, tree);
      assert pages[rep[k.0]] == pages[k.0];
    }
  }

  lemma {:induction false} WalkFolded(pages: seq<PageData>, rep: seq<nat>, own: set<Place>, apart: map<nat, Place>,
                                      shared: map<nat, Place>,
                                      side: nat, tree: Tree, handle: nat, a: WalkState, s: WalkState)
    requires TablesFolded(pages, rep, own, apart, shared) && StatesFolded(rep, own, a, s)
    ensures StatesFolded(rep, own, Walk(pages, apart, side, tree, handle, a),
                         Walk(pages, shared, side, tree, handle, s))
    decreases apart.Keys - a.seen
  {
    EnterFolded(pages, rep, own, apart, shared, side, tree, handle, a, s);
    var (ea, children) := Enter(pages, apart, side, tree, handle, a);
    var (es, _) := Enter(pages, shared, side, tree, handle, s);
    if children.Some? {
      WalkFolded(pages, rep, own, apart, shared, side, tree, children.value.0, ea, es);
      var fa := Walk(pages, apart, side, tree, children.value.0, ea);
      var fs := Walk(pages, shared, side, tree, children.value.0, es);
      WalkFolded(pages, rep, own, apart, shared, side, tree, children.value.1, fa, fs);
    }
  }

  ghost predicate OutcomesFolded(rep: seq<nat>, own: set<Place>, apart: (bool, Marks), shared: (bool, Marks)) {
    apart.0 == shared.0 && MarksFolded(rep, own, apart.1, shared.1)
  }

  lemma TreeFolded(pages: seq<PageData>, rep: seq<nat>, own: set<Place>, apart: map<nat, Place>, shared: map<nat,
                   Place>,
                   side: nat, tree: Tree, a: Marks, s: Marks)
    requires TablesFolded(pages, rep, own, apart, shared) && MarksFolded(rep, own, a, s)
    ensures OutcomesFolded(rep, own, AnnotateTree(pages, apart, side, tree, a),
                           AnnotateTree(pages, shared, side, tree, s))
  {
    WalkFolded(pages, rep, own, apart, shared, side, tree, Root(pages, side, tree), WalkState(a, {}, true),
               WalkState(s, {}, true));
  }

  lemma SideTablesFolded(pages: seq<PageData>, rep: seq<nat>, side: nat)
    requires RepOk(pages, rep)
    ensures TablesFolded(pages, rep, OwnPlaces(pages), HandlesOf(pages, Unshared(|pages|), side),
                         HandlesOf(pages, rep, side))
  {
    TableFolded(rep, map[], map[], pages, side, 0);
    OwnIsSingle(pages, rep);
    var t := Table(pages, side);
    forall h | h in t
      ensures t[h] in OwnPlaces(pages)
    {
      HandleIsOwn(pages, side, h);
    }
  }

  lemma SideFolded(pages: seq<PageData>, rep: seq<nat>, own: set<Place>, side: nat, a: Marks, s: Marks)
    requires RepOk(pages, rep) && own == OwnPlaces(pages) && MarksFolded(rep, own, a, s)
    ensures OutcomesFolded(rep, own, AnnotateSide(pages, Unshared(|pages|), side, a), AnnotateSide(pages, rep, side, s))
  {
    SideTablesFolded(pages, rep, side);
    var apart, shared := HandlesOf(pages, Unshared(|pages|), side), HandlesOf(pages, rep, side);
    TreeFolded(pages, rep, own, apart, shared, side, Fixed, a, s);
    var fa, fs := AnnotateTree(pages, apart, side, Fixed, a), AnnotateTree(pages, shared, side, Fixed, s);
    TreeFolded(pages, rep, own, apart, shared, side, OraclePegged, fa.1, fs.1);
  }

  /** Sharing never decides whether the trees are sound, and only moves the marks. */
  lemma AnnotateFolded(pages: seq<PageData>, rep: seq<nat>)
    requires RepOk(pages, rep)
    ensures OutcomesFolded(rep, OwnPlaces(pages), Annotate(pages, Unshared(|pages|)), Annotate(pages, rep))
  {
    var own := OwnPlaces(pages);
    SideFolded(pages, rep, own, 0, map[], map[]);
    var a, s := AnnotateSide(pages, Unshared(|pages|), 0, map[]), AnnotateSide(pages, rep, 0, map[]);
    SideFolded(pages, rep, own, 1, a.1, s.1);
  }

  // ----- what shows of a leaf -----

  function Bare(n: Node): Node {
    n.(tree := Unmarked)
  }

  function SideWeight(n: Node, bid: bool, nowSec: int): nat {
    if n.side == Some(if bid then 0 else 1) && LivePrice(n, bid, 0, nowSec).Some? then n.quantity.value.value else 0
  }

  /** What one fixed leaf brings to the answer: a listed order, and its quantity to a level. */
  function Weight(n: Node, nowSec: int): nat
    requires FixedLeaf(n)
  {
    (if Listed(n, nowSec) then 1 else 0) + SideWeight(n, true, nowSec) + SideWeight(n, false, nowSec)
  }

  /** As a fixed leaf, the node would be listed or stand in a level. */
  predicate Shows(n: Node, nowSec: int) {
    n.tag == 2 && FixedLeaf(Bare(n)) && Weight(Bare(n), nowSec) > 0
  }

  function TotalWeight(fixed: seq<Node>, nowSec: int): nat
    requires FixedLeaves(fixed)
  {
    if fixed == [] then 0 else TotalWeight(fixed[..|fixed| - 1], nowSec) + Weight(fixed[|fixed| - 1], nowSec)
  }

  function SideLevels(fixed: seq<Node>, bid: bool, nowSec: int): seq<Level> {
    Levels(OfSide(fixed, if bid then 0 else 1), bid, 0, nowSec)
  }

  /** The levels and orders of an answer are equal. */
  predicate SameBook(a: seq<Node>, b: seq<Node>, nowSec: int)
    requires FixedLeaves(a) && FixedLeaves(b)
  {
    && (forall bid :: SideLevels(a, bid, nowSec) == SideLevels(b, bid, nowSec))
    && Orders(a, nowSec) == Orders(b, nowSec)
  }

  /** What one more leaf makes of a side's levels. */
  function Joined(levels: seq<Level>, n: Node, bid: bool, nowSec: int): seq<Level> {
    var p := LivePrice(n, bid, 0, nowSec);
    if n.side == Some(if bid then 0 else 1) && p.Some? then Add(levels, p.value, n.quantity.value.value, bid)
        else levels
  }

  lemma LevelsSnoc(fixed: seq<Node>, n: Node, bid: bool, nowSec: int)
    ensures SideLevels(fixed + [n], bid, nowSec) == Joined(SideLevels(fixed, bid, nowSec), n, bid, nowSec)
  {
    assert (fixed + [n])[..|fixed|] == fixed;
    var sided := OfSide(fixed, if bid then 0 else 1);
    assert (sided + [n])[..|sided|] == sided;
  }

  lemma OrdersSnoc(fixed: seq<Node>, n: Node, nowSec: int)
    requires FixedLeaves(fixed) && FixedLeaf(n)
    ensures FixedLeaves(fixed + [n])
    ensures Orders(fixed + [n], nowSec) == Orders(fixed, nowSec) + if Listed(n, nowSec) then [OrderOf(n)] else []
  {
    assert (fixed + [n])[..|fixed|] == fixed;
  }

  lemma QuantitySnoc(front: seq<Node>, n: Node, bid: bool, nowSec: int)
    ensures Total(SideLevels(front + [n], bid, nowSec))
         == Total(SideLevels(front, bid, nowSec)) + SideWeight(n, bid, nowSec)
  {
    LevelsSnoc(front, n, bid, nowSec);
    var p := LivePrice(n, bid, 0, nowSec);
    if p.Some? { AddAddsToTotal(SideLevels(front, bid, nowSec), p.value, n.quantity.value.value, bid); }
  }

  lemma {:induction false} WeightIsInBook(fixed: seq<Node>, nowSec: int)
    requires FixedLeaves(fixed)
    ensures TotalWeight(fixed, nowSec)
         == |Orders(fixed, nowSec)| + Total(SideLevels(fixed, true, nowSec)) + Total(SideLevels(fixed, false, nowSec))
  {
    if fixed != [] {
      var front, n := fixed[..|fixed| - 1], fixed[|fixed| - 1];
      WeightIsInBook(front, nowSec);
      assert fixed == front + [n];
      OrdersSnoc(front, n, nowSec);
      QuantitySnoc(front, n, true, nowSec);
      QuantitySnoc(front, n, false, nowSec);
    }
  }

  /** Equal books have leaves of equal weight. */
  lemma SameBookSameWeight(a: seq<Node>, b: seq<Node>, nowSec: int)
    requires FixedLeaves(a) && FixedLeaves(b) && SameBook(a, b, nowSec)
    ensures TotalWeight(a, nowSec) == TotalWeight(b, nowSec)
  {
    WeightIsInBook(a, nowSec);
    WeightIsInBook(b, nowSec);
  }

  /** Adding a leaf that does not show changes nothing. */
  lemma HiddenLeaf(a: seq<Node>, b: seq<Node>, n: Node, nowSec: int)
    requires FixedLeaves(a) && FixedLeaves(b) && FixedLeaf(n) && SameBook(a, b, nowSec) && Weight(n, nowSec) == 0
    ensures FixedLeaves(b + [n]) && SameBook(a, b + [n], nowSec)
  {
    OrdersSnoc(b, n, nowSec);
    LevelsSnoc(b, n, true, nowSec);
    LevelsSnoc(b, n, false, nowSec);
  }

  lemma BareJoins(levels: seq<Level>, m: Node, n: Node, bid: bool, nowSec: int)
    requires Bare(m) == Bare(n) && m.tree != OraclePegged && n.tree != OraclePegged
    ensures Joined(levels, m, bid, nowSec) == Joined(levels, n, bid, nowSec)
  {
    assert LivePrice(m, bid, 0, nowSec) == LivePrice(Bare(m), bid, 0, nowSec) == LivePrice(n, bid, 0, nowSec);
    assert m.quantity == Bare(m).quantity == n.quantity && m.side == Bare(m).side == n.side;
  }

  lemma BareLists(m: Node, n: Node, nowSec: int)
    requires FixedLeaf(m) && FixedLeaf(n) && Bare(m) == Bare(n)
    ensures Listed(m, nowSec) == Listed(n, nowSec) && OrderOf(m) == OrderOf(n)
  {
    assert OrderOf(m) == OrderOf(Bare(m)) == OrderOf(n);
    assert Listed(m, nowSec) == Listed(Bare(m), nowSec) == Listed(n, nowSec);
  }

  /** The same leaf at the end of both, whatever its two marks. */
  lemma SameLeaf(a: seq<Node>, b: seq<Node>, m: Node, n: Node, nowSec: int)
    requires FixedLeaves(a) && FixedLeaves(b) && FixedLeaf(m) && FixedLeaf(n) && Bare(m) == Bare(n)
             && SameBook(a, b, nowSec)
    ensures FixedLeaves(a + [m]) && FixedLeaves(b + [n]) && SameBook(a + [m], b + [n], nowSec)
  {
    OrdersSnoc(a, m, nowSec);
    OrdersSnoc(b, n, nowSec);
    BareLists(m, n, nowSec);
    forall bid
      ensures SideLevels(a + [m], bid, nowSec) == SideLevels(b + [n], bid, nowSec)
    {
      LevelsSnoc(a, m, bid, nowSec);
      LevelsSnoc(b, n, bid, nowSec);
      BareJoins(SideLevels(a, bid, nowSec), m, n, bid, nowSec);
    }
  }

  // ----- two markings of one node list -----

  predicate MoreMarked(m: Node, n: Node) {
    Bare(m) == Bare(n) && (n.tree == OraclePegged ==> m.tree == OraclePegged)
  }

  /** Only pegged marks are added. */
  predicate Thinner(a: seq<Node>, b: seq<Node>) {
    |a| == |b| && forall i :: 0 <= i < |a| ==> MoreMarked(a[i], b[i])
  }

  predicate HidesShowing(m: Node, n: Node, nowSec: int) {
    m.tree == OraclePegged && n.tree != OraclePegged && Shows(n, nowSec)
  }

  predicate HidesNothing(a: seq<Node>, b: seq<Node>, nowSec: int)
    requires |a| == |b|
  {
    forall i :: 0 <= i < |a| ==> !HidesShowing(a[i], b[i], nowSec)
  }

  predicate FullLeaves(nodes: seq<Node>) {
    forall i :: 0 <= i < |nodes| && nodes[i].tag == 2 ==> FixedLeaf(Bare(nodes[i]))
  }

  lemma FixedAreLeaves(nodes: seq<Node>)
    requires FullLeaves(nodes)
    ensures FixedLeaves(FixedOnly(nodes))
  {
    var r := FixedOnly(nodes);
    forall i | 0 <= i < |r|
      ensures FixedLeaf(r[i])
    {
      var k :| 0 <= k < |nodes| && nodes[k] == r[i];
      assert FixedLeaf(Bare(nodes[k]));
    }
  }

  /** What one node brings, marked as it is. */
  function NodeWeight(n: Node, nowSec: int): nat {
    if n.tag == 2 && FixedLeaf(n) then Weight(n, nowSec) else 0
  }

  function SumWeight(nodes: seq<Node>, nowSec: int): nat {
    if nodes == [] then 0 else SumWeight(nodes[..|nodes| - 1], nowSec) + NodeWeight(nodes[|nodes| - 1], nowSec)
  }

  lemma {:induction false} FixedWeight(nodes: seq<Node>, nowSec: int)
    requires FullLeaves(nodes)
    ensures FixedLeaves(FixedOnly(nodes)) && TotalWeight(FixedOnly(nodes), nowSec) == SumWeight(nodes, nowSec)
  {
    FixedAreLeaves(nodes);
    if nodes != [] {
      var front, n := nodes[..|nodes| - 1], nodes[|nodes| - 1];
      FixedWeight(front, nowSec);
      var r := FixedOnly(front);
      assert (r + [n])[..|r|] == r;
      assert n.tag == 2 ==> FixedLeaf(Bare(n));
    }
  }

  lemma MarkTakesWeight(m: Node, n: Node, nowSec: int)
    requires MoreMarked(m, n) && (n.tag == 2 ==> FixedLeaf(Bare(n)))
    ensures NodeWeight(m, nowSec) <= NodeWeight(n, nowSec)
    ensures NodeWeight(m, nowSec) == NodeWeight(n, nowSec) <==> !HidesShowing(m, n, nowSec)
  {
    BareWeight(m, nowSec);
    BareWeight(n, nowSec);
    assert m.tag == Bare(m).tag == n.tag;
  }

  lemma BareWeight(n: Node, nowSec: int)
    ensures n.tree != OraclePegged ==> NodeWeight(n, nowSec) == NodeWeight(Bare(n), nowSec)
  {
    if n.tree != OraclePegged {
      assert LivePrice(n, true, 0, nowSec) == LivePrice(Bare(n), true, 0, nowSec);
      assert LivePrice(n, false, 0, nowSec) == LivePrice(Bare(n), false, 0, nowSec);
    }
  }

  /** Pegged marks only take weight away, and none exactly when they hide nothing that shows. */
  lemma {:induction false} MarksTakeWeight(a: seq<Node>, b: seq<Node>, nowSec: int)
    requires Thinner(a, b) && FullLeaves(b)
    ensures SumWeight(a, nowSec) <= SumWeight(b, nowSec)
    ensures SumWeight(a, nowSec) == SumWeight(b, nowSec) <==> HidesNothing(a, b, nowSec)
  {
    if a != [] {
      var k := |a| - 1;
      MarksTakeWeight(a[..k], b[..k], nowSec);
      HidesSnoc(a, b, nowSec);
      assert MoreMarked(a[k], b[k]);
      MarkTakesWeight(a[k], b[k], nowSec);
    }
  }

  lemma HidesSnoc(a: seq<Node>, b: seq<Node>, nowSec: int)
    requires |a| == |b| > 0
    ensures HidesNothing(a, b, nowSec)
       <==> HidesNothing(a[..|a| - 1], b[..|b| - 1], nowSec) && !HidesShowing(a[|a| - 1], b[|b| - 1], nowSec)
  {
    var k := |a| - 1;
    assert forall i :: 0 <= i < k ==> a[..k][i] == a[i] && b[..k][i] == b[i];
  }

  lemma {:induction false} NothingHiddenSameBook(a: seq<Node>, b: seq<Node>, nowSec: int)
    requires Thinner(a, b) && FullLeaves(a) && FullLeaves(b) && HidesNothing(a, b, nowSec)
    ensures FixedLeaves(FixedOnly(a)) && FixedLeaves(FixedOnly(b)) && SameBook(FixedOnly(a), FixedOnly(b), nowSec)
  {
    FixedAreLeaves(a);
    FixedAreLeaves(b);
    if a != [] {
      var k := |a| - 1;
      var m, n := a[k], b[k];
      assert MoreMarked(m, n) && !HidesShowing(m, n, nowSec);
      HidesSnoc(a, b, nowSec);
      NothingHiddenSameBook(a[..k], b[..k], nowSec);
      if n.tag == 2 && n.tree != OraclePegged {
        assert FixedLeaf(Bare(n));
        if m.tree == OraclePegged {
          BareWeight(n, nowSec);
          HiddenLeaf(FixedOnly(a[..k]), FixedOnly(b[..k]), n, nowSec);
        } else {
          SameLeaf(FixedOnly(a[..k]), FixedOnly(b[..k]), m, n, nowSec);
        }
      }
    }
  }

  lemma SameBookIffNothingHidden(a: seq<Node>, b: seq<Node>, nowSec: int)
    requires Thinner(a, b) && FullLeaves(a) && FullLeaves(b)
    ensures FixedLeaves(FixedOnly(a)) && FixedLeaves(FixedOnly(b))
    ensures SameBook(FixedOnly(a), FixedOnly(b), nowSec) <==> HidesNothing(a, b, nowSec)
  {
    FixedWeight(a, nowSec);
    FixedWeight(b, nowSec);
    MarksTakeWeight(a, b, nowSec);
    if SameBook(FixedOnly(a), FixedOnly(b), nowSec) {
      SameBookSameWeight(FixedOnly(a), FixedOnly(b), nowSec);
    }
    if HidesNothing(a, b, nowSec) {
      NothingHiddenSameBook(a, b, nowSec);
    }
  }

  // ----- the listings of all pages -----

  lemma ThinnerConcat(a: seq<Node>, b: seq<Node>, c: seq<Node>, d: seq<Node>, nowSec: int)
    requires Thinner(a, b) && Thinner(c, d)
    ensures Thinner(a + c, b + d)
    ensures HidesNothing(a + c, b + d, nowSec) <==> HidesNothing(a, b, nowSec) && HidesNothing(c, d, nowSec)
  {
    var x, y := a + c, b + d;
    assert forall i :: 0 <= i < |a| ==> x[i] == a[i] && y[i] == b[i];
    assert forall i :: 0 <= i < |c| ==> x[|a| + i] == c[i] && y[|a| + i] == d[i];
  }

  /** A pegged mark made apart, at position `u`, is kept under sharing, at position `r`. */
  predicate KeepsPegged(page: PageData, r: nat, u: nat, apart: Marks, shared: Marks) {
    forall j :: 0 <= j < |page.nodes| && MarkOf(apart, (u, j)) == OraclePegged ==>
          MarkOf(shared, (r, j)) == OraclePegged
  }

  /** A listed leaf that shows is fixed apart and pegged under sharing. */
  predicate LostAt(page: PageData, r: nat, u: nat, apart: Marks, shared: Marks, nowSec: int, j: nat)
    requires j < |page.nodes|
  {
    MarkOf(shared, (r, j)) == OraclePegged && MarkOf(apart, (u, j)) != OraclePegged && Shows(page.nodes[j].node, nowSec)
  }

  predicate NoneLostIn(page: PageData, r: nat, u: nat, apart: Marks, shared: Marks, nowSec: int) {
    forall j :: 0 <= j < |page.nodes| ==> !LostAt(page, r, u, apart, shared, nowSec, j)
  }

  predicate NoneLost(pages: seq<PageData>, rep: seq<nat>, alone: seq<nat>, apart: Marks, shared: Marks, nowSec: int)
    requires |rep| == |alone| == |pages|
  {
    forall i :: 0 <= i < |pages| ==> NoneLostIn(pages[i], rep[i], alone[i], apart, shared, nowSec)
  }

  lemma PageThinner(page: PageData, r: nat, u: nat, apart: Marks, shared: Marks, nowSec: int)
    requires KeepsPegged(page, r, u, apart, shared)
    ensures var a, b := NodesOfPage(page, r, shared), NodesOfPage(page, u, apart);
            Thinner(a, b) && (HidesNothing(a, b, nowSec) <==> NoneLostIn(page, r, u, apart, shared, nowSec))
  {
    var a, b := NodesOfPage(page, r, shared), NodesOfPage(page, u, apart);
    forall j | 0 <= j < |page.nodes|
      ensures HidesShowing(a[j], b[j], nowSec) <==> LostAt(page, r, u, apart, shared, nowSec, j)
    {
      assert Bare(b[j]) == Bare(page.nodes[j].node);
    }
  }

  lemma NoneLostSnoc(pages: seq<PageData>, rep: seq<nat>, alone: seq<nat>, apart: Marks, shared: Marks, nowSec: int,
                     k: nat)
    requires |rep| == |alone| == |pages| == k + 1
    ensures NoneLost(pages, rep, alone, apart, shared, nowSec)
       <==> NoneLost(pages[..k], rep[..k], alone[..k], apart, shared, nowSec)
            && NoneLostIn(pages[k], rep[k], alone[k], apart, shared, nowSec)
  {
    assert forall i :: 0 <= i < k ==> pages[..k][i] == pages[i] && rep[..k][i] == rep[i] && alone[..k][i] == alone[i];
  }

  lemma {:induction false} ListingsThinner(pages: seq<PageData>, rep: seq<nat>, alone: seq<nat>, apart: Marks,
                                           shared: Marks, nowSec: int)
    requires |rep| == |alone| == |pages|
    requires forall i :: 0 <= i < |pages| ==> KeepsPegged(pages[i], rep[i], alone[i], apart, shared)
    ensures var a, b := MarkedNodes(pages, rep, shared), MarkedNodes(pages, alone, apart);
            Thinner(a, b) && (HidesNothing(a, b, nowSec) <==> NoneLost(pages, rep, alone, apart, shared, nowSec))
  {
    if pages != [] {
      var k := |pages| - 1;
      ListingsThinner(pages[..k], rep[..k], alone[..k], apart, shared, nowSec);
      PageThinner(pages[k], rep[k], alone[k], apart, shared, nowSec);
      NoneLostSnoc(pages, rep, alone, apart, shared, nowSec, k);
      ThinnerConcat(MarkedNodes(pages[..k], rep[..k], shared), MarkedNodes(pages[..k], alone[..k], apart),
                    NodesOfPage(pages[k], rep[k], shared), NodesOfPage(pages[k], alone[k], apart), nowSec);
    }
  }

  lemma FullConcat(a: seq<Node>, b: seq<Node>)
    requires FullLeaves(a) && FullLeaves(b)
    ensures FullLeaves(a + b)
  {}

  lemma PageFull(page: PageData, r: nat, marks: Marks)
    requires WellDecoded(page)
    ensures FullLeaves(NodesOfPage(page, r, marks))
  {
    var here := NodesOfPage(page, r, marks);
    assert forall j :: 0 <= j < |here| ==> Bare(here[j]) == page.nodes[j].node;
  }

  lemma {:induction false} ListedFull(pages: seq<PageData>, rep: seq<nat>, marks: Marks)
    requires |rep| == |pages| && PagesWell(pages)
    ensures FullLeaves(MarkedNodes(pages, rep, marks))
  {
    if pages != [] {
      var k := |pages| - 1;
      ListedFull(pages[..k], rep[..k], marks);
      PageFull(pages[k], rep[k], marks);
      FullConcat(MarkedNodes(pages[..k], rep[..k], marks), NodesOfPage(pages[k], rep[k], marks));
    }
  }

  // ----- when sharing shows -----

  /** The array of page `i` is given again as page `k`, where the walk finds it to hold a pegged leaf
      that would show among the fixed ones. */
  predicate GivenTwice(pages: seq<PageData>, rep: seq<nat>, apart: Marks, nowSec: int, i: nat, k: nat, j: nat)
    requires |rep| == |pages|
  {
    && i < |pages| && k < |pages| && i != k && rep[i] == rep[k]
    && j < |pages[k].nodes| && MarkOf(apart, (k, j)) == OraclePegged && Shows(pages[k].nodes[j].node, nowSec)
  }

  ghost predicate PeggedTwice(pages: seq<PageData>, rep: seq<nat>, apart: Marks, nowSec: int)
    requires |rep| == |pages|
  {
    exists i: nat, k: nat, j: nat :: GivenTwice(pages, rep, apart, nowSec, i, k, j)
  }

  lemma FoldedKeepsPegged(pages: seq<PageData>, rep: seq<nat>, own: set<Place>, apart: Marks, shared: Marks, i: nat)
    requires i < |rep| == |pages| && MarksFolded(rep, own, apart, shared)
    ensures KeepsPegged(pages[i], rep[i], i, apart, shared)
  {
    forall j | 0 <= j < |pages[i].nodes| && MarkOf(apart, (i, j)) == OraclePegged
      ensures MarkOf(shared, (rep[i], j)) == OraclePegged
    {
      assert KeptAt(rep, apart, shared, (i, j));
    }
  }

  lemma LostWasGivenTwice(pages: seq<PageData>, rep: seq<nat>, own: set<Place>, apart: Marks, shared: Marks,
                          nowSec: int, i: nat, j: nat)
    requires RepOk(pages, rep) && MarksFolded(rep, own, apart, shared)
    requires i < |pages| && j < |pages[i].nodes| && LostAt(pages[i], rep[i], i, apart, shared, nowSec, j)
    ensures PeggedTwice(pages, rep, apart, nowSec)
  {
    assert HasHome(rep, apart, (rep[i], j));
    var a :| a in apart && IsFoldOf(rep, a, (rep[i], j));
    assert KeptAt(rep, apart, shared, a);
    assert pages[a.0] == pages[rep[i]] == pages[i];
    assert GivenTwice(pages, rep, apart, nowSec, i, a.0, j);
  }

  lemma GivenTwiceIsLost(pages: seq<PageData>, rep: seq<nat>, own: set<Place>, apart: Marks, shared: Marks,
                         nowSec: int, i: nat, k: nat, j: nat)
    requires RepOk(pages, rep) && Single(rep, own) && MarksFolded(rep, own, apart, shared)
    requires GivenTwice(pages, rep, apart, nowSec, i, k, j)
    ensures i < |pages| && j < |pages[i].nodes| && LostAt(pages[i], rep[i], i, apart, shared, nowSec, j)
  {
    assert pages[i] == pages[rep[i]] == pages[k];
    assert KeptAt(rep, apart, shared, (k, j));
    assert (i, j) in apart ==> !Meet(rep, (i, j), (k, j));
  }

  lemma TwiceLoses(pages: seq<PageData>, rep: seq<nat>, own: set<Place>, apart: Marks, shared: Marks, nowSec: int)
    requires RepOk(pages, rep) && Single(rep, own) && MarksFolded(rep, own, apart, shared)
    requires PeggedTwice(pages, rep, apart, nowSec)
    ensures !NoneLost(pages, rep, Unshared(|pages|), apart, shared, nowSec)
  {
    var i: nat, k: nat, j: nat :| GivenTwice(pages, rep, apart, nowSec, i, k, j);
    GivenTwiceIsLost(pages, rep, own, apart, shared, nowSec, i, k, j);
    assert !NoneLostIn(pages[i], rep[i], Unshared(|pages|)[i], apart, shared, nowSec);
  }

  lemma LossIsTwice(pages: seq<PageData>, rep: seq<nat>, own: set<Place>, apart: Marks, shared: Marks, nowSec: int)
    requires RepOk(pages, rep) && MarksFolded(rep, own, apart, shared)
    requires !NoneLost(pages, rep, Unshared(|pages|), apart, shared, nowSec)
    ensures PeggedTwice(pages, rep, apart, nowSec)
  {
    var i :| 0 <= i < |pages| && !NoneLostIn(pages[i], rep[i], Unshared(|pages|)[i], apart, shared, nowSec);
    var j :| 0 <= j < |pages[i].nodes| && LostAt(pages[i], rep[i], i, apart, shared, nowSec, j);
    LostWasGivenTwice(pages, rep, own, apart, shared, nowSec, i, j);
  }

  lemma MarkingsShowIff(pages: seq<PageData>, rep: seq<nat>, own: set<Place>, apart: Marks, shared: Marks, nowSec: int)
    requires RepOk(pages, rep) && PagesWell(pages) && Single(rep, own) && MarksFolded(rep, own, apart, shared)
    ensures var a, b := FixedOnly(MarkedNodes(pages, rep, shared)),
        FixedOnly(MarkedNodes(pages, Unshared(|pages|), apart));
            && FixedLeaves(a) && FixedLeaves(b)
            && (SameBook(a, b, nowSec) <==> !PeggedTwice(pages, rep, apart, nowSec))
  {
    var alone := Unshared(|pages|);
    forall i | 0 <= i < |pages|
      ensures KeepsPegged(pages[i], rep[i], alone[i], apart, shared)
    {
      FoldedKeepsPegged(pages, rep, own, apart, shared, i);
    }
    ListingsThinner(pages, rep, alone, apart, shared, nowSec);
    ListedFull(pages, rep, shared);
    ListedFull(pages, alone, apart);
    SameBookIffNothingHidden(MarkedNodes(pages, rep, shared), MarkedNodes(pages, alone, apart), nowSec);
    if PeggedTwice(pages, rep, apart, nowSec) {
      TwiceLoses(pages, rep, own, apart, shared, nowSec);
    } else if !NoneLost(pages, rep, alone, apart, shared, nowSec) {
      LossIsTwice(pages, rep, own, apart, shared, nowSec);
    }
  }

  /** No array given twice holds a pegged leaf that would show. */
  ghost predicate SharingIsHidden(pages: seq<PageData>, rep: seq<nat>, nowSec: int)
    requires |rep| == |pages|
  {
    !PeggedTwice(pages, rep, Annotate(pages, Unshared(|pages|)).1, nowSec)
  }

  function FixedLeavesOf(pages: seq<PageData>, rep: seq<nat>): seq<Node>
    requires RepOk(pages, rep)
  {
    FixedOnly(MarkedNodes(pages, rep, Annotate(pages, rep).1))
  }

  /** Whatever the sharing, the same page lists are sound; the books are the same exactly when no
      array given twice holds a pegged leaf that would show. */
  lemma SharingShowsIff(pages: seq<PageData>, rep: seq<nat>, nowSec: int)
    requires RepOk(pages, rep) && PagesWell(pages)
    ensures Annotate(pages, rep).0 == Annotate(pages, Unshared(|pages|)).0
    ensures FixedLeaves(FixedLeavesOf(pages, rep)) && FixedLeaves(FixedLeavesOf(pages, Unshared(|pages|)))
    ensures SameBook(FixedLeavesOf(pages, rep), FixedLeavesOf(pages, Unshared(|pages|)), nowSec)
       <==> SharingIsHidden(pages, rep, nowSec)
  {
    AnnotateFolded(pages, rep);
    OwnIsSingle(pages, rep);
    MarkingsShowIff(pages, rep, OwnPlaces(pages), Annotate(pages, Unshared(|pages|)).1, Annotate(pages, rep).1, nowSec);
  }

  /** The cached answer is the fresh one exactly when there is none, or when no array given twice holds
      a pegged leaf that would show. */
  lemma BundleIsAfreshIff<P, R, T>(d: Decoders<P, R, T>, pages: seq<Option<seq<nat>>>, rep: seq<nat>,
                                   seats: seq<Option<seq<nat>>>, events: seq<Option<seq<nat>>>, nowSec: int)
    requires LeavesComplete(d) && |rep| == |pages|
    requires DecodePages(d, pages).Some? ==> RepOk(DecodePages(d, pages).value, rep)
    ensures var bundle, afresh := Bundle(d, pages, rep, seats, events, nowSec), Afresh(d, pages, seats, events, nowSec);
            && bundle.Some? == afresh.Some?
            && (bundle == afresh <==> bundle.None? || SharingIsHidden(DecodePages(d, pages).value, rep, nowSec))
  {
    if DecodePages(d, pages).Some? {
      var data := DecodePages(d, pages).value;
      DecodedPagesWell(d, pages);
      SharingShowsIff(data, rep, nowSec);
      SameView(FixedLeavesOf(data, rep), FixedLeavesOf(data, Unshared(|pages|)),
               d.tradesFrom(Records(d, events)), Positions(d, seats), nowSec);
    }
  }

  lemma SameView<T, P>(a: seq<Node>, b: seq<Node>, trades: T, positions: seq<P>, nowSec: int)
    requires FixedLeaves(a) && FixedLeaves(b)
    ensures ViewOf(a, trades, positions, nowSec) == ViewOf(b, trades, positions, nowSec) <==> SameBook(a, b, nowSec)
  {
    assert SideLevels(a, true, nowSec) == ViewOf(a, trades, positions, nowSec).bids;
    assert SideLevels(a, false, nowSec) == ViewOf(a, trades, positions, nowSec).asks;
    assert SideLevels(b, true, nowSec) == ViewOf(b, trades, positions, nowSec).bids;
    assert SideLevels(b, false, nowSec) == ViewOf(b, trades, positions, nowSec).asks;
  }
}
