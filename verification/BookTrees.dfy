/**
 Tree membership of book nodes, as `annotateBookTrees` of
 `workers/src/v3-market-state.ts` derives it, stated on values: walk each side's
 two roots through global handles and mark what is reached. A page appears here
 by its content, and `rep` says which positions of the page list are one and the
 same decoded page, so that marking one marks the other.
 */
module BookTrees {
  import opened Wrappers
  import opened PriceLevels

  const NODES_PER_PAGE := 115
  const NONE_HANDLE := 0xffff_ffff

  datatype NodeData = NodeData(handle: nat, node: Node)

  /** One decoded page. `children` holds the two child handles written in each slot's bytes. */
  datatype PageData = PageData(
    side: nat, page: nat, fixedRoot: nat, peggedRoot: nat, children: seq<(nat, nat)>, nodes: seq<NodeData>)

  /** A node's place: the position of its page, and its index in it. */
  type Place = (nat, nat)

  type Marks = map<Place, Tree>

  predicate RepOk(pages: seq<PageData>, rep: seq<nat>) {
    |rep| == |pages| && forall i :: 0 <= i < |rep| ==> rep[i] < |pages| && pages[rep[i]] == pages[i]
  }

  predicate InPages(pages: seq<PageData>, k: Place) {
    k.0 < |pages| && k.1 < |pages[k.0].nodes|
  }

  // ----- handles -----

  /** Later nodes replace earlier ones of the same handle. */
  function HandlesOfPage(m: map<nat, Place>, nodes: seq<NodeData>, r: nat, j: nat): map<nat, Place>
    requires j <= |nodes|
    decreases |nodes| - j
  {
    if j == |nodes| then m else HandlesOfPage(m[nodes[j].handle := (r, j)], nodes, r, j + 1)
  }

  function Handles(m: map<nat, Place>, pages: seq<PageData>, rep: seq<nat>, side: nat, i: nat): map<nat, Place>
    requires |rep| == |pages| && i <= |pages|
    decreases |pages| - i
  {
    if i == |pages| then m
    else
      var m' := if pages[i].side == side then HandlesOfPage(m, pages[i].nodes, rep[i], 0) else m;
      Handles(m', pages, rep, side, i + 1)
  }

  predicate HandlesIn(m: map<nat, Place>, pages: seq<PageData>) {
    forall h :: h in m ==> InPages(pages, m[h])
  }

  lemma {:induction false} HandlesOfPageIn(m: map<nat, Place>, pages: seq<PageData>, r: nat, j: nat)
    requires r < |pages| && j <= |pages[r].nodes| && HandlesIn(m, pages)
    ensures HandlesIn(HandlesOfPage(m, pages[r].nodes, r, j), pages)
    decreases |pages[r].nodes| - j
  {
    if j < |pages[r].nodes| { HandlesOfPageIn(m[pages[r].nodes[j].handle := (r, j)], pages, r, j + 1); }
  }

  lemma {:induction false} HandlesStayIn(m: map<nat, Place>, pages: seq<PageData>, rep: seq<nat>, side: nat, i: nat)
    requires RepOk(pages, rep) && i <= |pages| && HandlesIn(m, pages)
    ensures HandlesIn(Handles(m, pages, rep, side, i), pages)
    decreases |pages| - i
  {
    if i < |pages| {
      HandlesOfPageIn(m, pages, rep[i], 0);
      HandlesStayIn(if pages[i].side == side then HandlesOfPage(m, pages[i].nodes, rep[i], 0)
                    else m, pages, rep, side, i + 1);
    }
  }

  /** The first page of a side with the given number. */
  function FindPage(pages: seq<PageData>, side: nat, page: nat, i: nat): (r: Option<nat>)
    requires i <= |pages|
    ensures r.Some? ==> r.value < |pages|
    decreases |pages| - i
  {
    if i == |pages| then None
    else if pages[i].side == side && pages[i].page == page then Some(i)
    else FindPage(pages, side, page, i + 1)
  }

  // ----- the walk -----

  datatype WalkState = WalkState(marks: Marks, seen: set<nat>, valid: bool)

  function MarkOf(marks: Marks, k: Place): Tree {
    if k in marks then marks[k] else Unmarked
  }

  /** The child handles of an inner node, read from the bytes of the page its handle names. */
  function Children(pages: seq<PageData>, side: nat, handle: nat): Option<(nat, nat)> {
    match FindPage(pages, side, handle / NODES_PER_PAGE, 0)
    case None => None
    case Some(i) =>
      var slot := handle % NODES_PER_PAGE;
      if slot < |pages[i].children| then Some(pages[i].children[slot]) else None
  }

  /** Entering one handle: the state after marking it, and its children if there are any to walk. */
  function Enter(pages: seq<PageData>, handles: map<nat, Place>, side: nat, tree: Tree, handle: nat,
                 s: WalkState): (r: (WalkState, Option<(nat, nat)>))
    requires HandlesIn(handles, pages)
    ensures s.seen <= r.0.seen
    ensures r.1.Some? ==> handle in handles && handle !in s.seen && handle in r.0.seen
  {
    if !s.valid || handle == NONE_HANDLE then (s, None)
    else if handle in s.seen then (s.(valid := false), None)
    else
      var entered := s.(seen := s.seen + {handle});
      if handle !in handles then (entered.(valid := false), None)
      else
        var k := handles[handle];
        if MarkOf(s.marks, k) != Unmarked && MarkOf(s.marks, k) != tree then (entered.(valid := false), None)
        else
          var marked := entered.(marks := s.marks[k := tree]);
          if pages[k.0].nodes[k.1].node.tag != 1 then (marked, None)
          else
            var children := Children(pages, side, handle);
            (marked.(valid := children.Some?), children)
  }

  function Walk(pages: seq<PageData>, handles: map<nat, Place>, side: nat, tree: Tree, handle: nat,
                s: WalkState): (r: WalkState)
    requires HandlesIn(handles, pages)
    ensures s.seen <= r.seen
    decreases handles.Keys - s.seen
  {
    var (entered, children) := Enter(pages, handles, side, tree, handle, s);
    if children.None? then entered
    else
      var first := Walk(pages, handles, side, tree, children.value.0, entered);
      Walk(pages, handles, side, tree, children.value.1, first)
  }

  function Root(pages: seq<PageData>, side: nat, tree: Tree): nat {
    match FindPage(pages, side, 0, 0)
    case None => NONE_HANDLE
    case Some(i) => if tree == OraclePegged then pages[i].peggedRoot else pages[i].fixedRoot
  }

  function AnnotateTree(pages: seq<PageData>, handles: map<nat, Place>, side: nat, tree: Tree,
                        marks: Marks): (bool, Marks)
    requires HandlesIn(handles, pages)
  {
    var root := Root(pages, side, tree);
    if root != NONE_HANDLE && root !in handles then (false, marks)
    else
      var r := Walk(pages, handles, side, tree, root, WalkState(marks, {}, true));
      (r.valid, r.marks)
  }

  function HandlesOf(pages: seq<PageData>, rep: seq<nat>, side: nat): (m: map<nat, Place>)
    requires RepOk(pages, rep)
    ensures HandlesIn(m, pages)
  {
    HandlesStayIn(map[], pages, rep, side, 0);
    Handles(map[], pages, rep, side, 0)
  }

  function AnnotateSide(pages: seq<PageData>, rep: seq<nat>, side: nat, marks: Marks): (bool, Marks)
    requires RepOk(pages, rep)
  {
    var handles := HandlesOf(pages, rep, side);
    if Root(pages, side, Fixed) != NONE_HANDLE && Root(pages, side, Fixed) == Root(pages, side, OraclePegged)
        then (false, marks)
    else
      var (ok, first) := AnnotateTree(pages, handles, side, Fixed, marks);
      if !ok then (false, first) else AnnotateTree(pages, handles, side, OraclePegged, first)
  }

  /** Whether the trees are sound, and the marks the walk leaves, started from cleared nodes. */
  function Annotate(pages: seq<PageData>, rep: seq<nat>): (bool, Marks)
    requires RepOk(pages, rep)
  {
    var (ok, bids) := AnnotateSide(pages, rep, 0, map[]);
    if !ok then (false, bids) else AnnotateSide(pages, rep, 1, bids)
  }

  // ----- what is read where -----

  /** The first page of a side with this number. */
  predicate IsFirstPage(pages: seq<PageData>, side: nat, page: nat, i: nat) {
    && i < |pages| && pages[i].side == side && pages[i].page == page
    && forall k :: 0 <= k < i ==> !(pages[k].side == side && pages[k].page == page)
  }

  lemma {:induction false} FoundIsFirst(pages: seq<PageData>, side: nat, page: nat, i: nat)
    requires i <= |pages| && forall k :: 0 <= k < i ==> !(pages[k].side == side && pages[k].page == page)
    ensures var r := FindPage(pages, side, page, i);
            && (r.Some? ==> IsFirstPage(pages, side, page, r.value))
            && (r.None? ==> forall k: nat :: !IsFirstPage(pages, side, page, k))
    decreases |pages| - i
  {
    if i < |pages| && !(pages[i].side == side && pages[i].page == page) { FoundIsFirst(pages, side, page, i + 1); }
  }

  /** Children stand in the first page of the side whose number is the handle's hundred-and-fifteens, at the rest. */
  lemma ChildrenRead(pages: seq<PageData>, side: nat, handle: nat, i: nat)
    ensures IsFirstPage(pages, side, handle / 115, i) ==>
              Children(pages, side, handle)
              == if handle % 115 < |pages[i].children| then Some(pages[i].children[handle % 115]) else None
    ensures (forall k: nat :: !IsFirstPage(pages, side, handle / 115, k)) ==> Children(pages, side, handle) == None
  {
    FoundIsFirst(pages, side, handle / 115, 0);
  }

  /** Roots stand in the first page zero of the side; without one there is none. */
  lemma RootRead(pages: seq<PageData>, side: nat, i: nat)
    ensures IsFirstPage(pages, side, 0, i) ==>
              Root(pages, side, Fixed) == pages[i].fixedRoot && Root(pages, side, OraclePegged) == pages[i].peggedRoot
    ensures (forall k: nat :: !IsFirstPage(pages, side, 0, k)) ==>
              Root(pages, side, Fixed) == Root(pages, side, OraclePegged) == 0xFFFF_FFFF
  {
    FoundIsFirst(pages, side, 0, 0);
  }

  /** The last node of a list with a handle. */
  function LastIn(nodes: seq<NodeData>, h: nat): Option<nat> {
    if nodes == [] then None
    else if nodes[|nodes| - 1].handle == h then Some(|nodes| - 1)
    else LastIn(nodes[..|nodes| - 1], h)
  }

  /** The last node with a handle in the pages of a side. */
  function LastPlace(pages: seq<PageData>, side: nat, h: nat): Option<(nat, nat)> {
    if pages == [] then None
    else
      var n := |pages| - 1;
      var last := if pages[n].side == side then LastIn(pages[n].nodes, h) else None;
      if last.Some? then Some((n, last.value)) else LastPlace(pages[..n], side, h)
  }

  function PlaceOf(m: map<nat, Place>, h: nat): Option<Place> {
    if h in m then Some(m[h]) else None
  }

  lemma {:induction false} PageHandlesSnoc(m: map<nat, Place>, nodes: seq<NodeData>, n: NodeData, r: nat, j: nat)
    requires j <= |nodes|
    ensures HandlesOfPage(m, nodes + [n], r, j) == HandlesOfPage(m, nodes, r, j)[n.handle := (r, |nodes|)]
    decreases |nodes| - j
  {
    if j < |nodes| { PageHandlesSnoc(m[nodes[j].handle := (r, j)], nodes, n, r, j + 1); }
  }

  lemma {:induction false} PageHandles(m: map<nat, Place>, nodes: seq<NodeData>, r: nat, h: nat)
    ensures PlaceOf(HandlesOfPage(m, nodes, r, 0), h)
         == var last := LastIn(nodes, h); if last.Some? then Some((r, last.value)) else PlaceOf(m, h)
  {
    if nodes != [] {
      var front, n := nodes[..|nodes| - 1], nodes[|nodes| - 1];
      assert nodes == front + [n];
      PageHandlesSnoc(m, front, n, r, 0);
      PageHandles(m, front, r, h);
    }
  }

  lemma {:induction false} HandlesSnoc(m: map<nat, Place>, pages: seq<PageData>, p: PageData, rep: seq<nat>, side: nat,
                                       i: nat)
    requires |rep| == |pages| + 1 && i <= |pages|
    ensures var front := Handles(m, pages, rep[..|pages|], side, i);
            Handles(m, pages + [p], rep, side, i)
            == if p.side == side then HandlesOfPage(front, p.nodes, rep[|pages|], 0) else front
    decreases |pages| - i
  {
    if i < |pages| {
      HandlesSnoc(if pages[i].side == side then HandlesOfPage(m, pages[i].nodes, rep[i], 0) else m, pages, p, rep, side,
                  i + 1);
    }
  }

  /** A handle names the last node of the side that carries it, in the page kept for that page's array. */
  lemma {:induction false} HandleNamesLast(pages: seq<PageData>, rep: seq<nat>, side: nat, h: nat)
    requires |rep| == |pages|
    ensures PlaceOf(Handles(map[], pages, rep, side, 0), h)
         == var last := LastPlace(pages, side, h);
            if last.Some? && last.value.0 < |rep| then Some((rep[last.value.0], last.value.1)) else None
    ensures LastPlace(pages, side, h).Some? ==> LastPlace(pages, side, h).value.0 < |rep|
  {
    if pages != [] {
      var n := |pages| - 1;
      var front, p := pages[..n], pages[n];
      assert pages == front + [p];
      HandlesSnoc(map[], front, p, rep, side, 0);
      HandleNamesLast(front, rep[..n], side, h);
      PageHandles(Handles(map[], front, rep[..n], side, 0), p.nodes, rep[n], h);
    }
  }

  // ----- the leaves -----

  function NodesOfPage(page: PageData, r: nat, marks: Marks): (s: seq<Node>)
    ensures |s| == |page.nodes|
  {
    seq(|page.nodes|, j requires 0 <= j < |page.nodes| => page.nodes[j].node.(tree := MarkOf(marks, (r, j))))
  }

  /** All nodes of all pages in order, each with its mark. */
  function MarkedNodes(pages: seq<PageData>, rep: seq<nat>, marks: Marks): seq<Node>
    requires |rep| == |pages|
  {
    if pages == [] then []
    else
      var n := |pages| - 1;
      MarkedNodes(pages[..n], rep[..n], marks) + NodesOfPage(pages[n], rep[n], marks)
  }

  // ----- what a successful walk means -----

  /** `b` is a child of the inner node `a`. */
  predicate Edge(pages: seq<PageData>, handles: map<nat, Place>, side: nat, a: nat, b: nat)
    requires HandlesIn(handles, pages)
  {
    && a in handles && b != NONE_HANDLE
    && pages[handles[a].0].nodes[handles[a].1].node.tag == 1
    && var c := Children(pages, side, a); c.Some? && (b == c.value.0 || b == c.value.1)
  }

  predicate IsPath(pages: seq<PageData>, handles: map<nat, Place>, side: nat, p: seq<nat>)
    requires HandlesIn(handles, pages)
  {
    p != [] && forall i :: 0 <= i < |p| - 1 ==> Edge(pages, handles, side, p[i], p[i + 1])
  }

  ghost predicate Reaches(pages: seq<PageData>, handles: map<nat, Place>, side: nat, a: nat, b: nat)
    requires HandlesIn(handles, pages)
  {
    exists p: seq<nat> :: IsPath(pages, handles, side, p) && p[0] == a && p[|p| - 1] == b
  }

  lemma ReachesSelf(pages: seq<PageData>, handles: map<nat, Place>, side: nat, a: nat)
    requires HandlesIn(handles, pages)
    ensures Reaches(pages, handles, side, a, a)
  {
    assert IsPath(pages, handles, side, [a]);
  }

  lemma ReachesThrough(pages: seq<PageData>, handles: map<nat, Place>, side: nat, a: nat, b: nat, c: nat)
    requires HandlesIn(handles, pages) && Edge(pages, handles, side, a, b) && Reaches(pages, handles, side, b, c)
    ensures Reaches(pages, handles, side, a, c)
  {
    var p: seq<nat> :| IsPath(pages, handles, side, p) && p[0] == b && p[|p| - 1] == c;
    var q := [a] + p;
    assert forall i :: 0 < i < |q| - 1 ==> q[i] == p[i - 1] && q[i + 1] == p[i];
    assert IsPath(pages, handles, side, q);
  }

  /** What a valid walk from `handle` adds to the handles seen: they are in the table, marked, reachable
      from `handle`, and closed under children. */
  ghost predicate Visited(pages: seq<PageData>, handles: map<nat, Place>, side: nat, tree: Tree, handle: nat,
                          s: WalkState, r: WalkState)
    requires HandlesIn(handles, pages)
  {
    && (handle != NONE_HANDLE ==> handle in r.seen)
    && (forall h :: h in r.seen && h !in s.seen ==>
          h in handles && MarkOf(r.marks, handles[h]) == tree && Reaches(pages, handles, side, handle, h))
    && (forall h, c :: h in r.seen && h !in s.seen && Edge(pages, handles, side, h, c) ==> c in r.seen)
  }

  /** Marks change only at visited places, and only to this tree. */
  ghost predicate OnlyVisitedMarked(handles: map<nat, Place>, tree: Tree, s: WalkState, r: WalkState) {
    forall k :: MarkOf(r.marks, k) == MarkOf(s.marks, k)
                || (MarkOf(r.marks, k) == tree && exists h ::
                      h in r.seen && h !in s.seen && h in handles && handles[h] == k)
  }

  /** No mark is taken back or replaced. */
  ghost predicate MarksKept(s: WalkState, r: WalkState) {
    forall k :: MarkOf(s.marks, k) != Unmarked ==> MarkOf(r.marks, k) == MarkOf(s.marks, k)
  }

  lemma {:induction false} WalkVisits(pages: seq<PageData>, handles: map<nat, Place>, side: nat, tree: Tree,
                                      handle: nat, s: WalkState)
    requires HandlesIn(handles, pages) && tree != Unmarked
    requires Walk(pages, handles, side, tree, handle, s).valid
    ensures var r := Walk(pages, handles, side, tree, handle, s);
            && s.valid
            && Visited(pages, handles, side, tree, handle, s, r)
            && OnlyVisitedMarked(handles, tree, s, r)
            && MarksKept(s, r)
    decreases handles.Keys - s.seen
  {
    if s.valid && handle != NONE_HANDLE {
      var k := handles[handle];
      var marked := WalkState(s.marks[k := tree], s.seen + {handle}, true);
      ReachesSelf(pages, handles, side, handle);
      assert MarkOf(marked.marks, k) == tree;
      if pages[k.0].nodes[k.1].node.tag == 1 {
        var (left, right) := Children(pages, side, handle).value;
        var first := Walk(pages, handles, side, tree, left, marked);
        var r := Walk(pages, handles, side, tree, right, first);
        InvalidStays(pages, handles, side, tree, right, first);
        WalkVisits(pages, handles, side, tree, left, marked);
        WalkVisits(pages, handles, side, tree, right, first);
        InnerMarks(handles, tree, handle, s, marked, first, r);
        InnerVisits(pages, handles, side, tree, handle, s, marked, first, r);
      }
    }
  }

  lemma InnerMarks(handles: map<nat, Place>, tree: Tree, handle: nat, s: WalkState, marked: WalkState,
                   first: WalkState, r: WalkState)
    requires handle in handles && handle !in s.seen
    requires marked == WalkState(s.marks[handles[handle] := tree], s.seen + {handle}, true)
    requires marked.seen <= first.seen <= r.seen
    requires OnlyVisitedMarked(handles, tree, marked, first) && OnlyVisitedMarked(handles, tree, first, r)
    ensures OnlyVisitedMarked(handles, tree, s, r)
  {
    forall k | MarkOf(r.marks, k) != MarkOf(s.marks, k)
      ensures MarkOf(r.marks, k) == tree && exists h :: h in r.seen && h !in s.seen && h in handles && handles[h] == k
    {
      if MarkOf(r.marks, k) != MarkOf(first.marks, k) {
        var h :| h in r.seen && h !in first.seen && h in handles && handles[h] == k;
      } else if MarkOf(first.marks, k) != MarkOf(marked.marks, k) {
        var h :| h in first.seen && h !in marked.seen && h in handles && handles[h] == k;
      } else {
        assert k == handles[handle] && handle in r.seen;
      }
    }
  }

  lemma InnerVisits(pages: seq<PageData>, handles: map<nat, Place>, side: nat, tree: Tree, handle: nat,
                    s: WalkState, marked: WalkState, first: WalkState, r: WalkState)
    requires HandlesIn(handles, pages) && handle in handles && handle !in s.seen && handle != NONE_HANDLE
    requires pages[handles[handle].0].nodes[handles[handle].1].node.tag == 1 && Children(pages, side, handle).Some?
    requires marked == WalkState(s.marks[handles[handle] := tree], s.seen + {handle}, true)
    requires marked.seen <= first.seen <= r.seen
    requires var (left, right) := Children(pages, side, handle).value;
             && Visited(pages, handles, side, tree, left, marked, first) && (left == NONE_HANDLE ==> first == marked)
             && Visited(pages, handles, side, tree, right, first, r) && (right == NONE_HANDLE ==> r == first)
    requires tree != Unmarked && MarksKept(marked, first) && MarksKept(first, r)
    ensures Visited(pages, handles, side, tree, handle, s, r)
  {
    var (left, right) := Children(pages, side, handle).value;
    forall h | h in r.seen && h !in s.seen
      ensures h in handles && MarkOf(r.marks, handles[h]) == tree && Reaches(pages, handles, side, handle, h)
    {
      if h == handle {
        ReachesSelf(pages, handles, side, handle);
        assert MarkOf(marked.marks, handles[h]) == tree;
      } else if h in first.seen {
        ReachesThrough(pages, handles, side, handle, left, h);
      } else {
        ReachesThrough(pages, handles, side, handle, right, h);
      }
    }
  }

  lemma InvalidStays(pages: seq<PageData>, handles: map<nat, Place>, side: nat, tree: Tree, handle: nat, s: WalkState)
    requires HandlesIn(handles, pages)
    ensures !s.valid ==> Walk(pages, handles, side, tree, handle, s) == s
  {}

  lemma {:induction false} PathStaysSeen(pages: seq<PageData>, handles: map<nat, Place>, side: nat, seen: set<nat>,
                                         p: seq<nat>)
    requires HandlesIn(handles, pages) && IsPath(pages, handles, side, p) && p[0] in seen
    requires forall h, c :: h in seen && Edge(pages, handles, side, h, c) ==> c in seen
    ensures p[|p| - 1] in seen
  {
    if |p| > 1 {
      var q := p[..|p| - 1];
      assert IsPath(pages, handles, side, q);
      PathStaysSeen(pages, handles, side, seen, q);
      assert Edge(pages, handles, side, p[|p| - 2], p[|p| - 1]);
    }
  }

  /** The place is that of a handle reachable from the tree's root on this side. */
  ghost predicate Reached(pages: seq<PageData>, handles: map<nat, Place>, side: nat, tree: Tree, k: Place)
    requires HandlesIn(handles, pages)
  {
    Root(pages, side, tree) != NONE_HANDLE
    && exists h :: h in handles && handles[h] == k && Reaches(pages, handles, side, Root(pages, side, tree), h)
  }

  /** One accepted tree adds its mark to exactly the places reached from its root and touches no other mark. */
  lemma TreeMarksReached(pages: seq<PageData>, handles: map<nat, Place>, side: nat, tree: Tree, marks: Marks,
                         k: Place, other: Tree)
    requires HandlesIn(handles, pages) && tree != Unmarked && AnnotateTree(pages, handles, side, tree, marks).0
    ensures var next := AnnotateTree(pages, handles, side, tree, marks).1;
            && (MarkOf(next, k) == tree <==> MarkOf(marks, k) == tree || Reached(pages, handles, side, tree, k))
            && (other != tree && other != Unmarked ==> (MarkOf(next, k) == other <==> MarkOf(marks, k) == other))
  {
    var root, s := Root(pages, side, tree), WalkState(marks, {}, true);
    var r := Walk(pages, handles, side, tree, root, s);
    WalkVisits(pages, handles, side, tree, root, s);
    if Reached(pages, handles, side, tree, k) {
      var h :| h in handles && handles[h] == k && Reaches(pages, handles, side, root, h);
      var p: seq<nat> :| IsPath(pages, handles, side, p) && p[0] == root && p[|p| - 1] == h;
      PathStaysSeen(pages, handles, side, r.seen, p);
    }
  }

  lemma SideMarksReached(pages: seq<PageData>, rep: seq<nat>, side: nat, marks: Marks, tree: Tree, k: Place)
    requires RepOk(pages, rep) && tree != Unmarked && AnnotateSide(pages, rep, side, marks).0
    ensures MarkOf(AnnotateSide(pages, rep, side, marks).1, k) == tree
       <==> MarkOf(marks, k) == tree || Reached(pages, HandlesOf(pages, rep, side), side, tree, k)
  {
    var handles := HandlesOf(pages, rep, side);
    var first := AnnotateTree(pages, handles, side, Fixed, marks).1;
    TreeMarksReached(pages, handles, side, Fixed, marks, k, tree);
    TreeMarksReached(pages, handles, side, OraclePegged, first, k, tree);
  }

  /** When the trees are accepted, a node is marked with a tree exactly when one of that tree's two roots
      reaches it through child handles. */
  lemma AnnotateMarksReached(pages: seq<PageData>, rep: seq<nat>, tree: Tree, k: Place)
    requires RepOk(pages, rep) && tree != Unmarked && Annotate(pages, rep).0
    ensures MarkOf(Annotate(pages, rep).1, k) == tree
       <==> || Reached(pages, HandlesOf(pages, rep, 0), 0, tree, k)
            || Reached(pages, HandlesOf(pages, rep, 1), 1, tree, k)
  {
    SideMarksReached(pages, rep, 0, map[], tree, k);
    SideMarksReached(pages, rep, 1, AnnotateSide(pages, rep, 0, map[]).1, tree, k);
  }

  lemma ReachedIsMarked(pages: seq<PageData>, rep: seq<nat>, side: nat, tree: Tree, k: Place, marks: Marks)
    requires RepOk(pages, rep) && tree != Unmarked && side <= 1 && Annotate(pages, rep) == (true, marks)
    requires Reached(pages, HandlesOf(pages, rep, side), side, tree, k)
    ensures MarkOf(marks, k) == tree
  {
    AnnotateMarksReached(pages, rep, tree, k);
  }

  /** So no node of an accepted book belongs to both trees. */
  lemma TreesAreDisjoint(pages: seq<PageData>, rep: seq<nat>, k: Place, side1: nat, side2: nat)
    requires RepOk(pages, rep) && Annotate(pages, rep).0 && side1 <= 1 && side2 <= 1
    ensures !(Reached(pages, HandlesOf(pages, rep, side1), side1, Fixed, k)
              && Reached(pages, HandlesOf(pages, rep, side2), side2, OraclePegged, k))
  {
    var marks := Annotate(pages, rep).1;
    if Reached(pages, HandlesOf(pages, rep, side1), side1, Fixed, k) {
      ReachedIsMarked(pages, rep, side1, Fixed, k, marks);
      if Reached(pages, HandlesOf(pages, rep, side2), side2, OraclePegged, k) {
        ReachedIsMarked(pages, rep, side2, OraclePegged, k, marks);
        assert false;
      }
    }
  }
}
