/**
 `decodeBundle` of `features/trading/use-v3-book.ts` on the heap: decoded pages
 are cached by the identity of their byte array and their nodes are re-marked in
 place on every call. What it returns is shown to be what decoding the same bytes
 afresh returns, whatever calls came before, failed ones included.
 */
module BookDecoder {
  import opened Wrappers
  import opened PriceLevels
  import opened BookView
  import opened BookTrees

  /** The account decoders, deterministic functions of the bytes; `P` is a seat position, `R` an event
      record and `T` what the trades are made into. Absent decodes of seats and events count as empty. */
  datatype Decoders<!P, !R, !T> = Decoders(
    page: seq<nat> -> Option<PageData>,
    positions: seq<nat> -> seq<P>,
    records: seq<nat> -> seq<R>,
    tradesFrom: seq<seq<R>> -> T)

  /** A leaf carries every field, and no node comes marked. */
  predicate WellDecoded(page: PageData) {
    forall j :: 0 <= j < |page.nodes| ==>
      var n := page.nodes[j].node;
      n.tree == Unmarked && (n.tag == 2 ==> FixedLeaf(n))
  }

  ghost predicate LeavesComplete<P, R, T>(d: Decoders<P, R, T>) {
    forall b :: d.page(b).Some? ==> WellDecoded(d.page(b).value)
  }

  // ----- the objects -----

  /** A `Uint8Array`; never written after it is filled. */
  class Bytes {
    const content: seq<nat>

    constructor (content: seq<nat>)
      ensures this.content == content
    {
      this.content := content;
    }
  }

  class BookNode {
    const data: NodeData
    const home: Bytes
    const index: nat
    var tree: Tree

    constructor (data: NodeData, home: Bytes, index: nat)
      ensures this.data == data && this.home == home && this.index == index
    {
      this.data, this.home, this.index, this.tree := data, home, index, Unmarked;
    }
  }

  class Page {
    const data: PageData
    const home: Bytes
    const nodes: seq<BookNode>

    constructor (data: PageData, home: Bytes, nodes: seq<BookNode>)
      ensures this.data == data && this.home == home && this.nodes == nodes
    {
      this.data, this.home, this.nodes := data, home, nodes;
    }

    ghost predicate Ok() {
      && |nodes| == |data.nodes|
      && forall j :: 0 <= j < |nodes| ==> nodes[j].data == data.nodes[j] && nodes[j].home == home && nodes[j].index == j
    }
  }

  method NewPage(data: PageData, home: Bytes) returns (page: Page)
    ensures fresh(page) && page.data == data && page.home == home && page.Ok()
    ensures forall j :: 0 <= j < |page.nodes| ==> fresh(page.nodes[j])
  {
    var nodes: seq<BookNode> := [];
    for j := 0 to |data.nodes|
      invariant |nodes| == j
      invariant forall k :: 0 <= k < j ==> nodes[k].data == data.nodes[k] && nodes[k].home == home && nodes[k].index == k
      invariant forall k :: 0 <= k < j ==> fresh(nodes[k])
    {
      var n := new BookNode(data.nodes[j], home, j);
      nodes := nodes + [n];
    }
    page := new Page(data, home, nodes);
  }

  // ----- one decoded list and its values -----

  /** The first position of the same array. */
  function FirstIndex(pages: seq<Bytes>, b: Bytes, i: nat): (r: nat)
    requires i < |pages| && exists k :: i <= k < |pages| && pages[k] == b
    ensures i <= r < |pages| && pages[r] == b
    decreases |pages| - i
  {
    if pages[i] == b then i else FirstIndex(pages, b, i + 1)
  }

  function Rep(pages: seq<Bytes>): (rep: seq<nat>)
    ensures |rep| == |pages|
    ensures forall i :: 0 <= i < |rep| ==> rep[i] < |pages| && pages[rep[i]] == pages[i]
  {
    seq(|pages|, i requires 0 <= i < |pages| => FirstIndex(pages, pages[i], 0))
  }

  function DataOf(decoded: seq<Page>): (r: seq<PageData>)
    ensures |r| == |decoded|
  {
    seq(|decoded|, i requires 0 <= i < |decoded| => decoded[i].data)
  }

  /** `decoded` are the pages of the arrays `pages`, one page for each array. */
  ghost predicate Laid(pages: seq<Bytes>, decoded: seq<Page>) {
    && |pages| == |decoded|
    && (forall i :: 0 <= i < |decoded| ==> decoded[i].Ok() && decoded[i].home == pages[i])
    && (forall i, k :: 0 <= i < |decoded| && 0 <= k < |decoded| && pages[i] == pages[k] ==> decoded[i] == decoded[k])
  }

  ghost function NodesIn(decoded: seq<Page>): set<BookNode> {
    set i, j | 0 <= i < |decoded| && 0 <= j < |decoded[i].nodes| :: decoded[i].nodes[j]
  }

  /** The heap holds exactly these marks. */
  ghost predicate Holds(pages: seq<Bytes>, decoded: seq<Page>, marks: Marks)
    requires Laid(pages, decoded)
    reads NodesIn(decoded)
  {
    forall i, j :: 0 <= i < |decoded| && 0 <= j < |decoded[i].nodes| ==>
      decoded[i].nodes[j].tree == MarkOf(marks, (Rep(pages)[i], j))
  }

  lemma RepOfLaid(pages: seq<Bytes>, decoded: seq<Page>)
    requires Laid(pages, decoded)
    ensures RepOk(DataOf(decoded), Rep(pages))
  {
    forall i | 0 <= i < |decoded|
      ensures Rep(pages)[i] < |decoded| && decoded[Rep(pages)[i]] == decoded[i]
    {
      assert pages[Rep(pages)[i]] == pages[i];
    }
  }

  /** One array has one representative position. */
  lemma {:induction false} SameFirstIndex(pages: seq<Bytes>, i: nat, k: nat)
    requires i < |pages| && k < |pages|
    ensures Rep(pages)[i] == Rep(pages)[k] <==> pages[i] == pages[k]
  {}

  // ----- marking in place -----

  ghost predicate IsRepPlace(pages: seq<Bytes>, decoded: seq<Page>, k: Place)
    requires Laid(pages, decoded)
  {
    k.0 < |decoded| && k.1 < |decoded[k.0].nodes| && Rep(pages)[k.0] == k.0
  }

  method MarkNode(node: BookNode, tree: Tree, ghost pages: seq<Bytes>, ghost decoded: seq<Page>, ghost marks: Marks,
                  ghost k: Place)
    requires Laid(pages, decoded) && Holds(pages, decoded, marks)
    requires IsRepPlace(pages, decoded, k) && node == decoded[k.0].nodes[k.1]
    modifies node
    ensures node.tree == tree
    ensures Holds(pages, decoded, marks[k := tree])
  {
    node.tree := tree;
    forall i, j | 0 <= i < |decoded| && 0 <= j < |decoded[i].nodes|
      ensures decoded[i].nodes[j].tree == MarkOf(marks[k := tree], (Rep(pages)[i], j))
    {
      SameFirstIndex(pages, i, k.0);
      assert decoded[i].nodes[j].home == pages[i] && decoded[i].nodes[j].index == j;
      assert node.home == pages[k.0] && node.index == k.1;
    }
  }

  /** Clears what earlier calls left on the nodes. */
  method ClearMarks(ghost pages: seq<Bytes>, decoded: seq<Page>)
    requires Laid(pages, decoded)
    modifies NodesIn(decoded)
    ensures Holds(pages, decoded, map[])
  {
    for i := 0 to |decoded|
      invariant forall k, j :: 0 <= k < i && 0 <= j < |decoded[k].nodes| ==> decoded[k].nodes[j].tree == Unmarked
    {
      for j := 0 to |decoded[i].nodes|
        invariant forall k, l :: 0 <= k < i && 0 <= l < |decoded[k].nodes| ==> decoded[k].nodes[l].tree == Unmarked
        invariant forall l :: 0 <= l < j ==> decoded[i].nodes[l].tree == Unmarked
      {
        assert decoded[i].nodes[j] in NodesIn(decoded);
        decoded[i].nodes[j].tree := Unmarked;
      }
    }
  }

  /** The handle table of the objects and that of the places agree. */
  ghost predicate Linked(pages: seq<Bytes>, decoded: seq<Page>, byHandle: map<nat, BookNode>, handles: map<nat, Place>)
    requires Laid(pages, decoded)
  {
    && (forall h :: h in byHandle <==> h in handles)
    && (forall h :: h in handles ==>
          IsRepPlace(pages, decoded, handles[h]) && byHandle[h] == decoded[handles[h].0].nodes[handles[h].1])
  }

  method BuildHandles(ghost pages: seq<Bytes>, decoded: seq<Page>, side: nat) returns (byHandle: map<nat, BookNode>)
    requires Laid(pages, decoded) && RepOk(DataOf(decoded), Rep(pages))
    ensures Linked(pages, decoded, byHandle, HandlesOf(DataOf(decoded), Rep(pages), side))
  {
    byHandle := map[];
    ghost var handles: map<nat, Place> := map[];
    ghost var data, rep := DataOf(decoded), Rep(pages);
    for i := 0 to |decoded|
      invariant Linked(pages, decoded, byHandle, handles)
      invariant Handles(map[], data, rep, side, 0) == Handles(handles, data, rep, side, i)
    {
      if decoded[i].data.side == side {
        ghost var start := handles;
        SameFirstIndex(pages, rep[i], i);
        for j := 0 to |decoded[i].nodes|
          invariant Linked(pages, decoded, byHandle, handles)
          invariant HandlesOfPage(start, data[i].nodes, rep[i], 0) == HandlesOfPage(handles, data[i].nodes, rep[i], j)
        {
          var node := decoded[i].nodes[j];
          assert decoded[rep[i]] == decoded[i];
          byHandle := byHandle[node.data.handle := node];
          handles := handles[node.data.handle := (rep[i], j)];
        }
      }
    }
  }

  /** The walk's work at one handle, before its children. */
  method EnterNode(ghost pages: seq<Bytes>, decoded: seq<Page>, side: nat, byHandle: map<nat, BookNode>,
                   ghost handles: map<nat, Place>,
                   tree: Tree, handle: nat, seen: set<nat>, valid: bool, ghost marks: Marks)
    returns (seen': set<nat>, valid': bool, children: Option<(nat, nat)>, ghost marks': Marks)
    requires Laid(pages, decoded) && Linked(pages, decoded, byHandle, handles) && HandlesIn(handles, DataOf(decoded))
    requires Holds(pages, decoded, marks)
    modifies NodesIn(decoded)
    ensures Holds(pages, decoded, marks')
    ensures (WalkState(marks', seen', valid'), children)
         == Enter(DataOf(decoded), handles, side, tree, handle, WalkState(marks, seen, valid))
  {
    seen', valid', children, marks' := seen, valid, None, marks;
    if !valid || handle == NONE_HANDLE {
      return;
    }
    if handle in seen {
      valid' := false;
      return;
    }
    seen' := seen + {handle};
    if handle !in byHandle {
      valid' := false;
      return;
    }
    var node := byHandle[handle];
    ghost var k := handles[handle];
    assert node.tree == MarkOf(marks, k);
    if node.tree != Unmarked && node.tree != tree {
      valid' := false;
      return;
    }
    assert node in NodesIn(decoded);
    MarkNode(node, tree, pages, decoded, marks, k);
    marks' := marks[k := tree];
    if node.data.node.tag != 1 {
      return;
    }
    children := Children(DataOf(decoded), side, handle);
    valid' := children.Some?;
  }

  /** The recursive walk; `seen` and `valid` are the closure's variables. */
  method WalkTree(ghost pages: seq<Bytes>, decoded: seq<Page>, side: nat, byHandle: map<nat, BookNode>,
                  ghost handles: map<nat, Place>,
                  tree: Tree, handle: nat, seen: set<nat>, valid: bool, ghost marks: Marks)
    returns (seen': set<nat>, valid': bool, ghost marks': Marks)
    requires Laid(pages, decoded) && Linked(pages, decoded, byHandle, handles) && HandlesIn(handles, DataOf(decoded))
    requires Holds(pages, decoded, marks)
    modifies NodesIn(decoded)
    ensures Holds(pages, decoded, marks')
    ensures WalkState(marks', seen', valid') == Walk(DataOf(decoded), handles, side, tree, handle, WalkState(marks, seen, valid))
    decreases handles.Keys - seen
  {
    var children;
    seen', valid', children, marks' := EnterNode(pages, decoded, side, byHandle, handles, tree, handle, seen, valid, marks);
    if children.Some? {
      seen', valid', marks' := WalkTree(pages, decoded, side, byHandle, handles, tree, children.value.0, seen', valid', marks');
      seen', valid', marks' := WalkTree(pages, decoded, side, byHandle, handles, tree, children.value.1, seen', valid', marks');
    }
  }

  method AnnotateOneTree(ghost pages: seq<Bytes>, decoded: seq<Page>, side: nat, byHandle: map<nat, BookNode>,
                         ghost handles: map<nat, Place>,
                         tree: Tree, ghost marks: Marks)
    returns (ok: bool, ghost marks': Marks)
    requires Laid(pages, decoded) && Linked(pages, decoded, byHandle, handles) && HandlesIn(handles, DataOf(decoded))
    requires Holds(pages, decoded, marks)
    modifies NodesIn(decoded)
    ensures Holds(pages, decoded, marks')
    ensures (ok, marks') == AnnotateTree(DataOf(decoded), handles, side, tree, marks)
  {
    var root := Root(DataOf(decoded), side, tree);
    if root != NONE_HANDLE && root !in byHandle {
      return false, marks;
    }
    var seen;
    seen, ok, marks' := WalkTree(pages, decoded, side, byHandle, handles, tree, root, {}, true, marks);
  }

  method AnnotateOneSide(ghost pages: seq<Bytes>, decoded: seq<Page>, side: nat,
                         ghost marks: Marks) returns (ok: bool, ghost marks': Marks)
    requires Laid(pages, decoded) && RepOk(DataOf(decoded), Rep(pages)) && Holds(pages, decoded, marks)
    modifies NodesIn(decoded)
    ensures Holds(pages, decoded, marks')
    ensures (ok, marks') == AnnotateSide(DataOf(decoded), Rep(pages), side, marks)
  {
    var byHandle := BuildHandles(pages, decoded, side);
    ghost var handles := HandlesOf(DataOf(decoded), Rep(pages), side);
    if Root(DataOf(decoded), side, Fixed) != NONE_HANDLE
       && Root(DataOf(decoded), side, Fixed) == Root(DataOf(decoded), side, OraclePegged) {
      return false, marks;
    }
    ok, marks' := AnnotateOneTree(pages, decoded, side, byHandle, handles, Fixed, marks);
    if ok {
      ok, marks' := AnnotateOneTree(pages, decoded, side, byHandle, handles, OraclePegged, marks');
    }
  }

  /** `annotateBookTrees` on cleared nodes: it answers, and leaves on the heap, what `Annotate` computes. */
  method AnnotateBookTrees(ghost pages: seq<Bytes>, decoded: seq<Page>) returns (ok: bool)
    requires Laid(pages, decoded) && RepOk(DataOf(decoded), Rep(pages)) && Holds(pages, decoded, map[])
    modifies NodesIn(decoded)
    ensures ok == Annotate(DataOf(decoded), Rep(pages)).0
    ensures Holds(pages, decoded, Annotate(DataOf(decoded), Rep(pages)).1)
  {
    ghost var marks: Marks;
    ok, marks := AnnotateOneSide(pages, decoded, 0, map[]);
    if ok {
      ok, marks := AnnotateOneSide(pages, decoded, 1, marks);
    }
  }

  method ReadPage(page: Page, ghost r: nat, ghost marks: Marks) returns (nodes: seq<Node>)
    requires page.Ok() && forall j :: 0 <= j < |page.nodes| ==> page.nodes[j].tree == MarkOf(marks, (r, j))
    ensures nodes == NodesOfPage(page.data, r, marks)
  {
    nodes := [];
    for j := 0 to |page.nodes|
      invariant nodes == NodesOfPage(page.data, r, marks)[..j]
    {
      nodes := nodes + [page.nodes[j].data.node.(tree := page.nodes[j].tree)];
    }
  }

  lemma MarkedSnoc(data: seq<PageData>, rep: seq<nat>, marks: Marks, i: nat)
    requires |rep| == |data| && i < |data|
    ensures MarkedNodes(data[..i + 1], rep[..i + 1], marks)
         == MarkedNodes(data[..i], rep[..i], marks) + NodesOfPage(data[i], rep[i], marks)
  {
    assert data[..i + 1][..i] == data[..i] && rep[..i + 1][..i] == rep[..i];
  }

  /** All nodes as values, marks included. */
  method ReadNodes(ghost pages: seq<Bytes>, decoded: seq<Page>, ghost marks: Marks) returns (nodes: seq<Node>)
    requires Laid(pages, decoded) && Holds(pages, decoded, marks)
    ensures nodes == MarkedNodes(DataOf(decoded), Rep(pages), marks)
  {
    nodes := [];
    ghost var data, rep := DataOf(decoded), Rep(pages);
    for i := 0 to |decoded|
      invariant nodes == MarkedNodes(data[..i], rep[..i], marks)
    {
      var here := ReadPage(decoded[i], rep[i], marks);
      MarkedSnoc(data, rep, marks, i);
      nodes := nodes + here;
    }
    assert data[..|decoded|] == data && rep[..|decoded|] == rep;
  }

  // ----- decoding afresh -----

  function Contents(arrays: seq<Bytes?>): (r: seq<Option<seq<nat>>>)
    ensures |r| == |arrays|
  {
    seq(|arrays|, i requires 0 <= i < |arrays| => if arrays[i] == null then None else Some(arrays[i].content))
  }

  function DecodePages<P, R, T>(d: Decoders<P, R, T>, pages: seq<Option<seq<nat>>>): (r: Option<seq<PageData>>)
    ensures r.Some? ==> |r.value| == |pages|
  {
    if pages == [] then Some([])
    else
      var front, last := DecodePages(d, pages[..|pages| - 1]), pages[|pages| - 1];
      if front.None? || last.None? || d.page(last.value).None? then None
      else Some(front.value + [d.page(last.value).value])
  }

  lemma DecodePagesSnoc<P, R, T>(d: Decoders<P, R, T>, pages: seq<Option<seq<nat>>>, i: nat)
    requires i < |pages|
    ensures var front, next := DecodePages(d, pages[..i]), DecodePages(d, pages[..i + 1]);
            && (next.Some? <==> front.Some? && pages[i].Some? && d.page(pages[i].value).Some?)
            && (next.Some? ==> next.value == front.value + [d.page(pages[i].value).value])
  {
    assert pages[..i + 1][..i] == pages[..i];
  }

  lemma DataSnoc(decoded: seq<Page>, page: Page)
    ensures DataOf(decoded + [page]) == DataOf(decoded) + [page.data]
  {}

  function Positions<P, R, T>(d: Decoders<P, R, T>, seats: seq<Option<seq<nat>>>): seq<P> {
    if seats == [] then []
    else
      var last := seats[|seats| - 1];
      Positions(d, seats[..|seats| - 1]) + if last.Some? then d.positions(last.value) else []
  }

  function Records<P, R, T>(d: Decoders<P, R, T>, events: seq<Option<seq<nat>>>): seq<seq<R>> {
    if events == [] then []
    else
      var last := events[|events| - 1];
      Records(d, events[..|events| - 1]) + [if last.Some? then d.records(last.value) else []]
  }

  ghost predicate PagesWell(data: seq<PageData>) {
    forall i :: 0 <= i < |data| ==> WellDecoded(data[i])
  }

  lemma {:induction false} DecodedPagesWell<P, R, T>(d: Decoders<P, R, T>, pages: seq<Option<seq<nat>>>)
    requires LeavesComplete(d) && DecodePages(d, pages).Some?
    ensures PagesWell(DecodePages(d, pages).value)
  {
    if pages != [] { DecodedPagesWell(d, pages[..|pages| - 1]); }
  }

  lemma {:induction false} MarkedLeavesComplete(data: seq<PageData>, rep: seq<nat>, marks: Marks)
    requires |rep| == |data| && PagesWell(data)
    ensures forall n :: n in MarkedNodes(data, rep, marks) && n.tag == 2 && n.tree != OraclePegged ==> FixedLeaf(n)
  {
    if data != [] {
      var k := |data| - 1;
      MarkedLeavesComplete(data[..k], rep[..k], marks);
      forall n | n in NodesOfPage(data[k], rep[k], marks) && n.tag == 2 && n.tree != OraclePegged
        ensures FixedLeaf(n)
      {
        var j :| 0 <= j < |data[k].nodes| && NodesOfPage(data[k], rep[k], marks)[j] == n;
        assert WellDecoded(data[k]);
        assert data[k].nodes[j].node.tag == 2;
      }
    }
  }

  /** The bundle decoded from values alone. `rep` is the sharing among the pages. */
  ghost function Bundle<P, R, T>(d: Decoders<P, R, T>, pages: seq<Option<seq<nat>>>, rep: seq<nat>,
                                 seats: seq<Option<seq<nat>>>, events: seq<Option<seq<nat>>>, nowSec: int): Option<View<T, P>>
    requires LeavesComplete(d) && |rep| == |pages|
    requires DecodePages(d, pages).Some? ==> RepOk(DecodePages(d, pages).value, rep)
  {
    match DecodePages(d, pages)
    case None => None
    case Some(data) =>
      var (ok, marks) := Annotate(data, rep);
      if !ok then None
      else
        DecodedPagesWell(d, pages);
        MarkedLeavesComplete(data, rep, marks);
        var fixed := FixedOnly(MarkedNodes(data, rep, marks));
        Some(ViewOf(fixed, d.tradesFrom(Records(d, events)), Positions(d, seats), nowSec))
  }

  function Unshared(n: nat): (rep: seq<nat>)
    ensures |rep| == n
  {
    seq(n, i => i)
  }

  /** Every page decoded anew: no sharing. */
  ghost function Afresh<P, R, T>(d: Decoders<P, R, T>, pages: seq<Option<seq<nat>>>,
                                 seats: seq<Option<seq<nat>>>, events: seq<Option<seq<nat>>>, nowSec: int): Option<View<T, P>>
    requires LeavesComplete(d)
  {
    Bundle(d, pages, Unshared(|pages|), seats, events, nowSec)
  }

  /** What a view shows of the pages, and that it carries the positions and trades of its seats and events. */
  ghost predicate Shows<P, R, T>(v: View<T, P>, d: Decoders<P, R, T>, data: seq<PageData>, rep: seq<nat>,
                                 seats: seq<Option<seq<nat>>>, events: seq<Option<seq<nat>>>, nowSec: int)
    requires RepOk(data, rep)
  {
    var fixed := FixedOnly(MarkedNodes(data, rep, Annotate(data, rep).1));
    && Annotate(data, rep).0 && FixedLeaves(fixed) && ViewShows(v, fixed, nowSec)
    && v.positions == Positions(d, seats) && v.trades == d.tradesFrom(Records(d, events))
  }

  /** Positions come seat by seat; a missing seat shard has none. */
  lemma {:induction false} PositionsInOrder<P, R, T>(d: Decoders<P, R, T>, a: seq<Option<seq<nat>>>,
                                                     b: seq<Option<seq<nat>>>)
    ensures Positions(d, a + b) == Positions(d, a) + Positions(d, b)
    ensures |b| == 1 ==> Positions(d, b) == if b[0].Some? then d.positions(b[0].value) else []
  {
    if b == [] {
      assert a + b == a;
    } else {
      var front := b[..|b| - 1];
      assert (a + b)[..|a + b| - 1] == a + front;
      PositionsInOrder(d, a, front);
      assert |b| == 1 ==> Positions(d, front) == [];
    }
  }

  /** There is a list of records for each event shard; a missing one is empty. */
  lemma {:induction false} RecordsInOrder<P, R, T>(d: Decoders<P, R, T>, events: seq<Option<seq<nat>>>)
    ensures |Records(d, events)| == |events|
    ensures forall i :: 0 <= i < |events| ==>
                Records(d, events)[i] == if events[i].Some? then d.records(events[i].value) else []
  {
    if events != [] { RecordsInOrder(d, events[..|events| - 1]); }
  }

  // ----- the caches -----

  class DecodeCache<!P, !R, !T> {
    const d: Decoders<P, R, T>
    var pageCache: map<Bytes, Page?>
    var seatCache: map<Bytes, seq<P>>
    var eventCache: map<Bytes, seq<R>>

    constructor (d: Decoders<P, R, T>)
      requires LeavesComplete(d)
      ensures Valid() && this.d == d && CachedNodes() == {}
    {
      this.d := d;
      pageCache, seatCache, eventCache := map[], map[], map[];
    }

    /** A cached entry is the decode of its array's bytes; nothing is said of the marks. */
    ghost predicate Valid()
      reads this
    {
      && LeavesComplete(d)
      && (forall b :: b in pageCache ==>
            && (pageCache[b] == null <==> d.page(b.content).None?)
            && (pageCache[b] != null ==>
                  pageCache[b].data == d.page(b.content).value && pageCache[b].home == b && pageCache[b].Ok()))
      && (forall b :: b in seatCache ==> seatCache[b] == d.positions(b.content))
      && (forall b :: b in eventCache ==> eventCache[b] == d.records(b.content))
    }

    ghost function CachedNodes(): set<BookNode>
      reads this
    {
      set b, j | b in pageCache && pageCache[b] != null && 0 <= j < |pageCache[b].nodes| :: pageCache[b].nodes[j]
    }

    method CachedPage(bytes: Bytes) returns (page: Page?)
      requires Valid()
      modifies this`pageCache
      ensures Valid() && bytes in pageCache && page == pageCache[bytes]
      ensures forall b :: b in old(pageCache) ==> b in pageCache && pageCache[b] == old(pageCache)[b]
      ensures fresh(CachedNodes() - old(CachedNodes()))
    {
      if bytes !in pageCache {
        var data := d.page(bytes.content);
        var made: Page? := null;
        if data.Some? {
          made := NewPage(data.value, bytes);
        }
        pageCache := pageCache[bytes := made];
      }
      page := pageCache[bytes];
    }

    /** `found` are the cached pages of the first `i` arrays. */
    ghost predicate Found(arrays: seq<Bytes?>, found: seq<Page>, i: nat)
      reads this
    {
      && i <= |arrays| && |found| == i
      && forall k :: 0 <= k < i ==> arrays[k] != null && arrays[k] in pageCache && found[k] == pageCache[arrays[k]]
    }

    lemma FoundSnoc(arrays: seq<Bytes?>, found: seq<Page>, i: nat, page: Page)
      requires Found(arrays, found, i) && i < |arrays|
      requires arrays[i] != null && arrays[i] in pageCache && page == pageCache[arrays[i]]
      ensures Found(arrays, found + [page], i + 1)
    {}

    lemma FoundFront(arrays: seq<Bytes?>, found: seq<Page>, i: nat)
      requires Valid() && Found(arrays, found, i + 1)
      ensures Found(arrays, found[..i], i) && found == found[..i] + [found[i]]
      ensures arrays[i] != null && d.page(arrays[i].content) == Some(found[i].data)
    {
      assert arrays[i] in pageCache && found[i] == pageCache[arrays[i]];
    }

    lemma {:induction false} FoundIsDecoded(arrays: seq<Bytes?>, found: seq<Page>, i: nat)
      requires Valid() && Found(arrays, found, i)
      ensures DecodePages(d, Contents(arrays)[..i]) == Some(DataOf(found))
      decreases i
    {
      if i > 0 {
        var front := found[..i - 1];
        FoundFront(arrays, found, i - 1);
        FoundIsDecoded(arrays, front, i - 1);
        DecodePagesSnoc(d, Contents(arrays), i - 1);
        DataSnoc(front, found[i - 1]);
      }
    }

    /** The pages of all arrays, or nothing when one is missing or does not decode. Every array is
        looked up in either case. */
    method CachedPages(arrays: seq<Bytes?>) returns (pages: Option<seq<Page>>)
      requires Valid()
      modifies this`pageCache
      ensures Valid() && fresh(CachedNodes() - old(CachedNodes()))
      ensures pages.Some? <==> DecodePages(d, Contents(arrays)).Some?
      ensures pages.Some? ==>
                && Found(arrays, pages.value, |arrays|)
                && DataOf(pages.value) == DecodePages(d, Contents(arrays)).value
    {
      var complete := true;
      var found: seq<Page> := [];
      for i := 0 to |arrays|
        invariant Valid() && fresh(CachedNodes() - old(CachedNodes()))
        invariant complete ==> Found(arrays, found, i)
        invariant !complete ==> DecodePages(d, Contents(arrays)[..i]).None?
      {
        DecodePagesSnoc(d, Contents(arrays), i);
        var page: Page? := null;
        if arrays[i] != null {
          page := CachedPage(arrays[i]);
        }
        if page == null {
          complete := false;
        } else if complete {
          FoundSnoc(arrays, found, i, page);
          found := found + [page];
        }
      }
      assert Contents(arrays)[..|arrays|] == Contents(arrays);
      if complete {
        FoundIsDecoded(arrays, found, |arrays|);
      }
      pages := if complete then Some(found) else None;
    }

    method CachedPositions(arrays: seq<Bytes?>) returns (positions: seq<P>)
      requires Valid()
      modifies this`seatCache
      ensures Valid() && positions == Positions(d, Contents(arrays))
    {
      positions := [];
      ghost var contents := Contents(arrays);
      for i := 0 to |arrays|
        invariant Valid() && positions == Positions(d, contents[..i])
      {
        assert contents[..i + 1][..i] == contents[..i];
        var bytes := arrays[i];
        if bytes != null {
          if bytes !in seatCache {
            seatCache := seatCache[bytes := d.positions(bytes.content)];
          }
          positions := positions + seatCache[bytes];
        }
      }
      assert contents[..|arrays|] == contents;
    }

    method CachedRecords(arrays: seq<Bytes?>) returns (records: seq<seq<R>>)
      requires Valid()
      modifies this`eventCache
      ensures Valid() && records == Records(d, Contents(arrays))
    {
      records := [];
      ghost var contents := Contents(arrays);
      for i := 0 to |arrays|
        invariant Valid() && records == Records(d, contents[..i])
      {
        assert contents[..i + 1][..i] == contents[..i];
        var bytes := arrays[i];
        if bytes == null {
          records := records + [[]];
        } else {
          if bytes !in eventCache {
            eventCache := eventCache[bytes := d.records(bytes.content)];
          }
          records := records + [eventCache[bytes]];
        }
      }
      assert contents[..|arrays|] == contents;
    }

    /** Whatever earlier calls cached or left marked, the answer is a function of the bytes and of which
        page arrays are the same array. The answer is a value, so later calls cannot change it. */
    method DecodeBundle(pages: seq<Bytes?>, seats: seq<Bytes?>, events: seq<Bytes?>,
                        nowSec: int) returns (view: Option<View<T, P>>)
      requires Valid()
      modifies this, CachedNodes()
      ensures Valid() && fresh(CachedNodes() - old(CachedNodes()))
      ensures DecodePages(d, Contents(pages)).None? ==> view.None?
      ensures DecodePages(d, Contents(pages)).Some? ==>
                && (forall i :: 0 <= i < |pages| ==> pages[i] != null)
                && RepOk(DecodePages(d, Contents(pages)).value, Rep(pages))
                && view == Bundle(d, Contents(pages), Rep(pages), Contents(seats), Contents(events), nowSec)
      ensures view.Some? ==>
                && DecodePages(d, Contents(pages)).Some?
                && Shows(view.value, d, DecodePages(d, Contents(pages)).value, Rep(pages), Contents(seats),
                         Contents(events), nowSec)
    {
      var decodedOpt := CachedPages(pages);
      if decodedOpt.None? {
        return None;
      }
      var decoded := decodedOpt.value;
      assert Laid(pages, decoded);
      RepOfLaid(pages, decoded);
      assert NodesIn(decoded) <= CachedNodes();
      ClearMarks(pages, decoded);
      var ok := AnnotateBookTrees(pages, decoded);
      if !ok {
        return None;
      }
      ghost var marks := Annotate(DataOf(decoded), Rep(pages)).1;
      var nodes := ReadNodes(pages, decoded, marks);
      var fixed := FixedOnly(nodes);
      DecodedPagesWell(d, Contents(pages));
      MarkedLeavesComplete(DataOf(decoded), Rep(pages), marks);
      var positions := CachedPositions(seats);
      var bids := LevelsFrom(OfSide(fixed, 0), true, 0, nowSec);
      var asks := LevelsFrom(OfSide(fixed, 1), false, 0, nowSec);
      var records := CachedRecords(events);
      view := Some(View(bids, asks, d.tradesFrom(records), positions, Orders(fixed, nowSec)));
      ViewIsRight(fixed, d.tradesFrom(records), positions, nowSec);
    }
  }

  // ----- sharing -----

  ghost predicate DistinctArrays(arrays: seq<Bytes?>) {
    forall i, k :: 0 <= i < k < |arrays| && arrays[i] != null ==> arrays[i] != arrays[k]
  }

  lemma DistinctIsUnshared(pages: seq<Bytes>)
    requires DistinctArrays(pages)
    ensures Rep(pages) == Unshared(|pages|)
  {
    forall i | 0 <= i < |pages|
      ensures Rep(pages)[i] == i
    {
      assert pages[Rep(pages)[i]] == pages[i];
    }
  }

  /** With page arrays all different, the cached answer is the answer of decoding everything afresh. */
  lemma DistinctIsAfresh<P, R, T>(d: Decoders<P, R, T>, pages: seq<Bytes>, seats: seq<Bytes?>, events: seq<Bytes?>,
                                  nowSec: int)
    requires LeavesComplete(d) && DistinctArrays(pages)
    ensures DecodePages(d, Contents(pages)).Some? ==> RepOk(DecodePages(d, Contents(pages)).value, Rep(pages))
    ensures Bundle(d, Contents(pages), Rep(pages), Contents(seats), Contents(events), nowSec)
         == Afresh(d, Contents(pages), Contents(seats), Contents(events), nowSec)
  {
    DistinctIsUnshared(pages);
  }

  function PeggedLeafPage(leaf: Node): PageData {
    PageData(0, 0, NONE_HANDLE, 0, [], [NodeData(0, leaf)])
  }

  /** Sharing can show: give one array twice, with one oracle-pegged leaf. Shared, both listings of the leaf
      are marked and left out; decoded afresh, only the later copy is, and the other counts as fixed. */
  lemma SharedPageDiffers(leaf: Node)
    requires leaf.tag == 2 && leaf.tree == Unmarked
    ensures var pages := [PeggedLeafPage(leaf), PeggedLeafPage(leaf)];
            && Annotate(pages, [0, 0]).0 && Annotate(pages, [0, 1]).0
            && FixedOnly(MarkedNodes(pages, [0, 0], Annotate(pages, [0, 0]).1)) == []
            && FixedOnly(MarkedNodes(pages, [0, 1], Annotate(pages, [0, 1]).1)) == [leaf]
  {
    SharedMarks(leaf, 0);
    SharedMarks(leaf, 1);
    TwoListings(leaf, 0);
    TwoListings(leaf, 1);
    FixedOfTwo(leaf.(tree := OraclePegged), leaf.(tree := OraclePegged));
    FixedOfTwo(leaf, leaf.(tree := OraclePegged));
  }

  lemma TwoListings(leaf: Node, r: nat)
    requires leaf.tree == Unmarked && r <= 1
    ensures MarkedNodes([PeggedLeafPage(leaf), PeggedLeafPage(leaf)], [0, r], map[(r, 0) := OraclePegged])
         == [if r == 0 then leaf.(tree := OraclePegged) else leaf, leaf.(tree := OraclePegged)]
  {
    var page := PeggedLeafPage(leaf);
    var marks: Marks := map[(r, 0) := OraclePegged];
    MarkedSnoc([page, page], [0, r], marks, 1);
    MarkedSnoc([page, page], [0, r], marks, 0);
    assert [page, page][..2] == [page, page] && [0, r][..2] == [0, r];
    assert NodesOfPage(page, 0, marks) == [if r == 0 then leaf.(tree := OraclePegged) else leaf];
    assert NodesOfPage(page, r, marks) == [leaf.(tree := OraclePegged)];
  }

  lemma FixedOfTwo(a: Node, b: Node)
    requires a.tag == 2 && b.tag == 2 && b.tree == OraclePegged
    ensures FixedOnly([a, b]) == if a.tree == OraclePegged then [] else [a]
  {
    assert [a, b][..1] == [a] && [a][..0] == [];
    assert FixedOnly([a]) == FixedOnly([]) + if a.tree == OraclePegged then [] else [a];
  }

  lemma SharedMarks(leaf: Node, r: nat)
    requires leaf.tag == 2 && r <= 1
    ensures var pages := [PeggedLeafPage(leaf), PeggedLeafPage(leaf)];
            RepOk(pages, [0, r]) && Annotate(pages, [0, r]) == (true, map[(r, 0) := OraclePegged])
  {
    var page := PeggedLeafPage(leaf);
    var pages := [page, page];
    var rep: seq<nat> := [0, r];
    assert HandlesOf(pages, rep, 0) == map[0 := (r, 0)] by {
      var m1 := HandlesOfPage(map[], page.nodes, 0, 0);
      assert m1 == HandlesOfPage(map[0 := (0, 0)], page.nodes, 0, 1) == map[0 := (0, 0)];
      var m2 := HandlesOfPage(m1, page.nodes, r, 0);
      assert m2 == HandlesOfPage(m1[0 := (r, 0)], page.nodes, r, 1) == m1[0 := (r, 0)];
      assert Handles(map[], pages, rep, 0, 0) == Handles(m1, pages, rep, 0, 1) == Handles(m2, pages, rep, 0, 2) == m2;
    }
    assert FindPage(pages, 0, 0, 0) == Some(0);
    assert AnnotateSide(pages, rep, 0, map[]) == (true, map[(r, 0) := OraclePegged]);
    assert FindPage(pages, 1, 0, 0) == FindPage(pages, 1, 0, 1) == FindPage(pages, 1, 0, 2) == None;
  }
}
