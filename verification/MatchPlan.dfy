/**
 `plan_limit_arenas_into` of `programs/equinox/src/book.rs`: the planner reads the
 opposing arena slot by slot, sees it through the actions planned so far, and
 changes nothing. It is proved to take from the one queue of `Matching`.
 */
module MatchPlan {
  import opened Wrappers
  import opened OrderKeys
  import opened Patricia
  import opened ArenaLayout
  import opened ArenaQuantity
  import opened ArenaScan
  import opened BookArena
  import opened Matching
  import opened MakersMet
  import opened MatchEngine

  const MAX_PLAN_ACTIONS := 16

  datatype Action = Action(
    slot: nat, side: Side, tree: Bit, remove: bool, newQuantity: u64, key: Key, owner: nat, expectedQuantity: u64,
        phantom: bool)

  // ----- the book seen through a plan -----

  /** The action on a leaf, if one is planned. */
  function ActionOn(actions: seq<Action>, tree: Bit, slot: nat): Option<Action> {
    if actions == [] then None
    else if actions[0].tree == tree && actions[0].slot == slot then Some(actions[0])
    else ActionOn(actions[1..], tree, slot)
  }

  /** How a leaf would stand after an action; a phantom counts as empty. */
  function Seen(action: Option<Action>, tree: Bit, e: Entry, terms: Terms): Option<Quote> {
    var quantity :=
      if action.None? then e.order.quantity else if action.value.phantom then 0 else action.value.newQuantity;
    if (action.Some? && action.value.remove) || quantity == 0 then None
    else QuoteOf(tree, Entry(e.slot, e.order.(quantity := quantity)), terms)
  }

  predicate SeenAs(books: Two<seq<Entry>>, actions: seq<Action>, terms: Terms, q: Quote, e: Entry) {
    e in books.At(q.tree) && e.slot == q.slot && Seen(ActionOn(actions, q.tree, e.slot), q.tree, e, terms) == Some(q)
  }

  ghost predicate Visible(books: Two<seq<Entry>>, actions: seq<Action>, terms: Terms, q: Quote) {
    exists e :: SeenAs(books, actions, terms, q, e)
  }

  /** Through the plan, exactly the queue is seen. */
  ghost predicate Shown(books: Two<seq<Entry>>, actions: seq<Action>, terms: Terms, queue: seq<Quote>) {
    forall q :: q in queue <==> Visible(books, actions, terms, q)
  }

  lemma NothingPlanned(tree: Bit, e: Entry, terms: Terms)
    ensures Seen(None, tree, e, terms) == QuoteOf(tree, e, terms)
  {}

  lemma QueueHas(books: Two<seq<Entry>>, terms: Terms, q: Quote)
    ensures q in Queue(books, terms) <==> exists e :: e in books.At(q.tree) && QuoteOf(q.tree, e, terms) == Some(q)
  {
    MergeHas(terms.side, Quotes(books.fixed, 0, terms), Quotes(books.pegged, 1, terms), q);
    QuotesHave(books.fixed, 0, terms, q);
    QuotesHave(books.pegged, 1, terms, q);
  }

  /** The actions of a plan that has only cleared: one removal for each dead order. */
  ghost predicate Clears(books: Two<seq<Entry>>, actions: seq<Action>, terms: Terms) {
    && (forall i :: 0 <= i < |actions| ==> actions[i].remove)
    && (forall b: Bit, e :: e in books.At(b) ==> (ActionOn(actions, b, e.slot).Some? <==> Dead(b, e.order, terms)))
  }

  lemma {:induction false} ActionIsListed(actions: seq<Action>, tree: Bit, slot: nat)
    ensures var a := ActionOn(actions, tree, slot); a.Some? ==>
              a.value in actions && a.value.tree == tree && a.value.slot == slot
    ensures ActionOn(actions, tree, slot).None?
       <==> forall i :: 0 <= i < |actions| ==> actions[i].tree != tree || actions[i].slot != slot
  {
    if actions != [] {
      ActionIsListed(actions[1..], tree, slot);
      assert forall i :: 0 <= i < |actions| - 1 ==> actions[1..][i] == actions[i + 1];
    }
  }

  lemma ClearedSees(books: Two<seq<Entry>>, actions: seq<Action>, terms: Terms, b: Bit, e: Entry)
    requires Clears(books, actions, terms) && e in books.At(b)
    ensures Seen(ActionOn(actions, b, e.slot), b, e, terms) == QuoteOf(b, e, terms)
  {
    ActionIsListed(actions, b, e.slot);
    NothingPlanned(b, e, terms);
    assert ActionOn(actions, b, e.slot).Some? <==> Dead(b, e.order, terms);
  }

  /** After clearing, the whole queue is seen. */
  lemma ClearedShows(books: Two<seq<Entry>>, actions: seq<Action>, terms: Terms)
    requires Clears(books, actions, terms)
    ensures Shown(books, actions, terms, Queue(books, terms))
  {
    forall q
      ensures q in Queue(books, terms) <==> Visible(books, actions, terms, q)
    {
      QueueHas(books, terms, q);
      if q in Queue(books, terms) {
        var e :| e in books.At(q.tree) && QuoteOf(q.tree, e, terms) == Some(q);
        ClearedSees(books, actions, terms, q.tree, e);
        assert SeenAs(books, actions, terms, q, e);
      }
      if Visible(books, actions, terms, q) {
        var e :| SeenAs(books, actions, terms, q, e);
        ClearedSees(books, actions, terms, q.tree, e);
      }
    }
  }

  // ----- reading the arena slot by slot -----

  /** The order of a tree in a slot. */
  method EntryAt(arena: Arena, tree: Bit, slot: nat) returns (e: Option<Entry>)
    requires arena.Valid() && slot < arena.bump
    ensures e.Some? ==> e.value in arena.Book(tree) && e.value.slot == slot
    ensures e.None? ==> forall x :: x in arena.Book(tree) ==> x.slot != slot
  {
    SlotView(arena.Value(), arena.trees, arena.free, tree, slot);
    if !arena.nodes[slot].Leaf? {
      return None;
    }
    LeafHasKey(arena.Value(), arena.trees, arena.free, slot);
    var order := arena.nodes[slot].order;
    var found := arena.Find(tree, order.key);
    return if found == Ok(slot) then Some(Entry(slot, order)) else None;
  }

  /** What is seen in a slot of a tree. */
  method SeenAt(arena: Arena, tree: Bit, slot: nat, terms: Terms, actions: seq<Action>) returns (q: Option<Quote>)
    requires arena.Valid() && slot < arena.bump
    ensures q.Some? ==> Visible(arena.Books(), actions, terms, q.value)
    ensures forall v :: Visible(arena.Books(), actions, terms, v) && v.tree == tree && v.slot == slot ==> q == Some(v)
  {
    SlotsAreDistinct(arena.Value(), arena.trees, arena.free, tree);
    var e := EntryAt(arena, tree, slot);
    if e.None? {
      return None;
    }
    q := Seen(ActionOn(actions, tree, slot), tree, e.value, terms);
    if q.Some? { assert SeenAs(arena.Books(), actions, terms, q.value, e.value); }
  }

  /** The key by which candidates are compared. */
  function NormalKey(q: Quote, side: Side): Key
    requires q.price > 0
  {
    if q.tree == 0 then q.order.key else PriceTimeKey(side, q.price, q.order.sequence).value
  }

  lemma VisibleIsFiled(books: Two<seq<Entry>>, actions: seq<Action>, terms: Terms, q: Quote)
    requires BooksFiled(books, terms.side) && Visible(books, actions, terms, q)
    ensures Filed(q.tree, q.order, terms.side) && q.price > 0 && q.order.quantity > 0
    ensures q.tree == 0 ==> q.price == q.order.priceOrOffset
  {
    var e :| SeenAs(books, actions, terms, q, e);
    var i :| 0 <= i < |books.At(q.tree)| && books.At(q.tree)[i] == e;
    assert Filed(q.tree, books.At(q.tree)[i].order, terms.side);
  }

  lemma KeysCompare(a: Quote, b: Quote, side: Side)
    requires Filed(a.tree, a.order, side) && a.price > 0 && (a.tree == 0 ==> a.price == a.order.priceOrOffset)
    requires Filed(b.tree, b.order, side) && b.price > 0 && (b.tree == 0 ==> b.price == b.order.priceOrOffset)
    ensures Less(NormalKey(a, side), NormalKey(b, side)) <==> Ahead(side, a, b)
  {
    PriceTimePriority(side, a.price, a.order.sequence, b.price, b.order.sequence);
  }

  /** The better of the best so far and another; the earlier among equals. */
  method Better(best: Option<Quote>, q: Option<Quote>, side: Side) returns (r: Option<Quote>)
    requires best.Some? ==> Filed(best.value.tree, best.value.order, side) && best.value.price > 0
                            && (best.value.tree == 0 ==> best.value.price == best.value.order.priceOrOffset)
    requires q.Some? ==> Filed(q.value.tree, q.value.order, side) && q.value.price > 0
                         && (q.value.tree == 0 ==> q.value.price == q.value.order.priceOrOffset)
    ensures r == if best.None? || (q.Some? && Ahead(side, q.value, best.value)) then q else best
  {
    if q.None? || best.None? {
      return if best.None? then q else best;
    }
    KeysCompare(q.value, best.value, side);
    return if Less(NormalKey(q.value, side), NormalKey(best.value, side)) then q else best;
  }

  /** Nothing seen is ahead of the best. */
  ghost predicate LeadsBelow(books: Two<seq<Entry>>, actions: seq<Action>, terms: Terms, best: Option<Quote>,
                             bound: nat) {
    && (best.Some? ==> Visible(books, actions, terms, best.value))
    && (forall v :: Visible(books, actions, terms, v) && v.slot < bound ==>
         best.Some? && !Ahead(terms.side, v, best.value))
  }

  lemma AheadIsTransitive(side: Side, a: Quote, b: Quote, c: Quote)
    requires !Ahead(side, a, b) && Ahead(side, c, b)
    ensures !Ahead(side, a, c)
  {}

  method BetterAt(arena: Arena, tree: Bit, slot: nat, terms: Terms, actions: seq<Action>,
                  best: Option<Quote>) returns (r: Option<Quote>)
    requires arena.Valid() && BooksFiled(arena.Books(), terms.side) && slot < arena.bump
    requires best.Some? ==> Visible(arena.Books(), actions, terms, best.value)
    ensures r.Some? ==> Visible(arena.Books(), actions, terms, r.value)
    ensures best.Some? ==> r.Some? && (r == best || Ahead(terms.side, r.value, best.value))
    ensures forall v :: Visible(arena.Books(), actions, terms, v) && v.tree == tree && v.slot == slot ==>
                          r.Some? && !Ahead(terms.side, v, r.value)
  {
    var q := SeenAt(arena, tree, slot, terms, actions);
    if q.Some? { VisibleIsFiled(arena.Books(), actions, terms, q.value); }
    if best.Some? { VisibleIsFiled(arena.Books(), actions, terms, best.value); }
    r := Better(best, q, terms.side);
  }

  method BestVirtual(arena: Arena, terms: Terms, actions: seq<Action>) returns (best: Option<Quote>)
    requires arena.Valid() && BooksFiled(arena.Books(), terms.side)
    ensures LeadsBelow(arena.Books(), actions, terms, best, arena.bump)
  {
    best := None;
    for slot := 0 to arena.bump
      invariant LeadsBelow(arena.Books(), actions, terms, best, slot)
    {
      var first := BetterAt(arena, 0, slot, terms, actions, best);
      var second := BetterAt(arena, 1, slot, terms, actions, first);
      LeadsOn(arena.Books(), actions, terms, slot, best, first, second);
      best := second;
    }
  }

  lemma LeadsOn(books: Two<seq<Entry>>, actions: seq<Action>, terms: Terms, slot: nat, best: Option<Quote>,
                first: Option<Quote>, second: Option<Quote>)
    requires LeadsBelow(books, actions, terms, best, slot)
    requires best.Some? ==> first.Some? && (first == best || Ahead(terms.side, first.value, best.value))
    requires first.Some? ==> second.Some? && (second == first || Ahead(terms.side, second.value, first.value))
    requires second.Some? ==> Visible(books, actions, terms, second.value)
    requires forall v :: Visible(books, actions, terms, v) && v.tree == 0 && v.slot == slot ==>
               first.Some? && !Ahead(terms.side, v, first.value)
    requires forall v :: Visible(books, actions, terms, v) && v.tree == 1 && v.slot == slot ==>
               second.Some? && !Ahead(terms.side, v, second.value)
    ensures LeadsBelow(books, actions, terms, second, slot + 1)
  {
    forall v | Visible(books, actions, terms, v) && v.slot < slot + 1
      ensures second.Some? && !Ahead(terms.side, v, second.value)
    {
      if v.slot < slot && first != best { AheadIsTransitive(terms.side, v, best.value, first.value); }
      if (v.slot < slot || v.tree == 0) && second != first {
        AheadIsTransitive(terms.side, v, first.value, second.value);
      }
    }
  }

  /** The best of all is the front of a queue in order. */
  lemma BestIsFront(books: Two<seq<Entry>>, actions: seq<Action>, terms: Terms, queue: seq<Quote>,
                    best: Option<Quote>, bound: nat)
    requires Sorted(terms.side, queue) && Shown(books, actions, terms, queue)
    requires LeadsBelow(books, actions, terms, best, bound)
    requires forall b: Bit, e :: e in books.At(b) ==> e.slot < bound
    ensures best.None? <==> queue == []
    ensures best.Some? ==> queue != [] && best.value == queue[0]
  {
    assert best.Some? ==> best.value in queue;
    if queue != [] {
      assert queue[0] in queue;
      assert Visible(books, actions, terms, queue[0]);
      var e :| SeenAs(books, actions, terms, queue[0], e);
      FrontLeads(terms.side, queue, best.value);
    }
  }

  lemma FrontLeads(side: Side, queue: seq<Quote>, q: Quote)
    requires Sorted(side, queue) && q in queue
    ensures queue != [] && (q == queue[0] || Ahead(side, queue[0], q))
  {
    var i :| 0 <= i < |queue| && queue[i] == q;
  }

  // ----- planning an action -----

  function IndexOn(actions: seq<Action>, tree: Bit, slot: nat): (i: Option<nat>)
    ensures i.Some? ==> i.value < |actions|
  {
    if actions == [] then None
    else if actions[0].tree == tree && actions[0].slot == slot then Some(0)
    else
      var i := IndexOn(actions[1..], tree, slot);
      if i.None? then None else Some(i.value + 1)
  }

  /** An action replaces an earlier one on the same leaf; None stands for a full plan. */
  function AddAction(actions: seq<Action>, a: Action): Option<seq<Action>> {
    var i := IndexOn(actions, a.tree, a.slot);
    if i.Some? then Some(actions[i.value := a])
    else if |actions| >= MAX_PLAN_ACTIONS then None
    else Some(actions + [a])
  }

  lemma {:induction false} NoIndexNoAction(actions: seq<Action>, tree: Bit, slot: nat)
    ensures IndexOn(actions, tree, slot).None? <==> ActionOn(actions, tree, slot).None?
  {
    if actions != [] { NoIndexNoAction(actions[1..], tree, slot); }
  }

  method AddPlanAction(actions: seq<Action>, a: Action) returns (r: Option<seq<Action>>)
    ensures r == AddAction(actions, a)
  {
    var i := 0;
    while i < |actions|
      invariant 0 <= i <= |actions|
      invariant IndexOn(actions, a.tree, a.slot)
             == var rest := IndexOn(actions[i..], a.tree, a.slot); if rest.None? then None else Some(rest.value + i)
    {
      assert actions[i..][1..] == actions[i + 1..];
      if actions[i].tree == a.tree && actions[i].slot == a.slot {
        return Some(actions[i := a]);
      }
      i := i + 1;
    }
    return if |actions| >= MAX_PLAN_ACTIONS then None else Some(actions + [a]);
  }

  lemma {:induction false} ActionOnSnoc(actions: seq<Action>, a: Action, tree: Bit, slot: nat)
    ensures ActionOn(actions + [a], tree, slot)
         == if ActionOn(actions, tree, slot).Some? then ActionOn(actions, tree, slot)
            else if a.tree == tree && a.slot == slot then Some(a) else None
  {
    if actions == [] {
      assert actions + [a] == [a] && [a][1..] == [];
    } else {
      assert (actions + [a])[1..] == actions[1..] + [a];
      ActionOnSnoc(actions[1..], a, tree, slot);
    }
  }

  ghost predicate OneSlotBooks(books: Two<seq<Entry>>) {
    OneSlotEach(books.fixed) && OneSlotEach(books.pegged)
  }

  lemma OneInSlot(books: Two<seq<Entry>>, actions: seq<Action>, terms: Terms, p: Quote, q: Quote)
    requires OneSlotBooks(books) && Visible(books, actions, terms, p) && Visible(books, actions, terms, q)
    requires p.tree == q.tree && p.slot == q.slot
    ensures p == q
  {
    var d :| SeenAs(books, actions, terms, p, d);
    var e :| SeenAs(books, actions, terms, q, e);
    assert d == e;
  }

  /** An action on the front leaf changes what is seen there and nothing else. */
  lemma ActedShows(books: Two<seq<Entry>>, actions: seq<Action>, terms: Terms, queue: seq<Quote>, e: Entry, a: Action)
    requires Shown(books, actions, terms, queue) && Sorted(terms.side, queue) && OneSlotBooks(books) && queue != []
    requires SeenAs(books, actions, terms, queue[0], e) && ActionOn(actions, a.tree, a.slot).None?
    requires a.tree == queue[0].tree && a.slot == queue[0].slot
    ensures var x := Seen(Some(a), a.tree, e, terms);
            Shown(books, actions + [a], terms, (if x.Some? then [x.value] else []) + queue[1..])
  {
    var x, rest := Seen(Some(a), a.tree, e, terms), queue[1..];
    var queue' := (if x.Some? then [x.value] else []) + rest;
    forall q
      ensures q in queue' <==> Visible(books, actions + [a], terms, q)
    {
      TailHas(terms.side, queue, q);
      assert q in queue' <==> x == Some(q) || q in rest;
      if q.tree == a.tree && q.slot == a.slot {
        ActedThere(books, actions, terms, e, a, q);
        assert q in queue ==> q == queue[0] by {
          if q in queue { assert queue[0] in queue; OneInSlot(books, actions, terms, q, queue[0]); }
        }
      } else {
        ActedElsewhere(books, actions, terms, a, q);
      }
    }
  }

  lemma ActedThere(books: Two<seq<Entry>>, actions: seq<Action>, terms: Terms, e: Entry, a: Action, q: Quote)
    requires OneSlotBooks(books) && e in books.At(a.tree) && e.slot == a.slot && ActionOn(actions, a.tree, a.slot).None?
    requires q.tree == a.tree && q.slot == a.slot
    ensures Visible(books, actions + [a], terms, q) <==> Seen(Some(a), a.tree, e, terms) == Some(q)
  {
    ActionOnSnoc(actions, a, a.tree, a.slot);
    if Seen(Some(a), a.tree, e, terms) == Some(q) { assert SeenAs(books, actions + [a], terms, q, e); }
    if Visible(books, actions + [a], terms, q) {
      var d :| SeenAs(books, actions + [a], terms, q, d);
      assert d == e;
    }
  }

  lemma ActedElsewhere(books: Two<seq<Entry>>, actions: seq<Action>, terms: Terms, a: Action, q: Quote)
    requires q.tree != a.tree || q.slot != a.slot
    ensures Visible(books, actions + [a], terms, q) <==> Visible(books, actions, terms, q)
  {
    ActionOnSnoc(actions, a, q.tree, q.slot);
    if Visible(books, actions, terms, q) {
      var e :| SeenAs(books, actions, terms, q, e);
      assert SeenAs(books, actions + [a], terms, q, e);
    }
    if Visible(books, actions + [a], terms, q) {
      var e :| SeenAs(books, actions + [a], terms, q, e);
      assert SeenAs(books, actions, terms, q, e);
    }
  }

  // ----- the planner -----

  datatype Plan = Plan(
    fills: seq<Fill>, remaining: u64, invalidRemoved: nat, expiredRemoved: nat, selfCancelled: nat,
    postOnlyRejected: bool, selfTradeAborted: bool, actions: seq<Action>)

  function PlanNow(queue: seq<Quote>, plan: Plan): Trading {
    Trading(queue, plan.remaining, plan.fills, plan.selfCancelled, plan.postOnlyRejected, plan.selfTradeAborted)
  }

  /** Actions whose leaf is seen no more. */
  predicate Hiding(actions: seq<Action>) {
    forall i :: 0 <= i < |actions| ==> actions[i].remove || actions[i].phantom
  }

  /** The order an action is on, as the action expects it; a phantom carries the quantity that is there. */
  predicate Names(books: Two<seq<Entry>>, a: Action, e: Entry) {
    && e in books.At(a.tree) && e.slot == a.slot && e.order.key == a.key
    && e.order.owner == a.owner && e.order.quantity == a.expectedQuantity
    && (a.phantom ==> !a.remove && a.newQuantity == e.order.quantity)
  }

  ghost predicate Rests(books: Two<seq<Entry>>, a: Action) {
    exists e :: Names(books, a, e)
  }

  /** Every action names a resting order, and no two the same. */
  ghost predicate Grounded(books: Two<seq<Entry>>, actions: seq<Action>) {
    && (forall i :: 0 <= i < |actions| ==> Rests(books, actions[i]))
    && (forall i, j :: 0 <= i < j < |actions| ==>
         actions[i].tree != actions[j].tree || actions[i].slot != actions[j].slot)
  }

  lemma GroundedSnoc(books: Two<seq<Entry>>, actions: seq<Action>, a: Action, e: Entry)
    requires Grounded(books, actions) && ActionOn(actions, a.tree, a.slot).None? && Names(books, a, e)
    ensures Grounded(books, actions + [a])
  {
    ActionIsListed(actions, a.tree, a.slot);
    var all := actions + [a];
    assert Rests(books, a);
    forall i, j | 0 <= i < j < |all|
      ensures all[i].tree != all[j].tree || all[i].slot != all[j].slot
    {
      assert all[i] == actions[i] && (j < |actions| ==> all[j] == actions[j]);
    }
  }

  /** The actions are on one side's orders. */
  predicate OnSide(actions: seq<Action>, side: Side) {
    forall i :: 0 <= i < |actions| ==> actions[i].side == side
  }

  predicate NoPhantom(actions: seq<Action>) {
    forall i :: 0 <= i < |actions| ==> !actions[i].phantom
  }

  /** An order with a phantom on it. */
  ghost predicate PhantomOn(books: Two<seq<Entry>>, actions: seq<Action>, terms: Terms, q: Quote) {
    var a := ActionOn(actions, q.tree, q.slot);
    a.Some? && a.value.phantom && exists e :: e in books.At(q.tree) && QuoteOf(q.tree, e, terms) == Some(q)
  }

  /** The phantoms are on exactly these. */
  ghost predicate Phantoms(books: Two<seq<Entry>>, actions: seq<Action>, terms: Terms, passed: seq<Quote>) {
    forall q :: q in passed <==> PhantomOn(books, actions, terms, q)
  }

  /** What a plan leaves of an order is not dead. */
  predicate CoversAt(actions: seq<Action>, terms: Terms, b: Bit, e: Entry) {
    match ActionOn(actions, b, e.slot)
    case None => !Dead(b, e.order, terms)
    case Some(a) => a.remove || !Dead(b, Requoted(e.order, a.newQuantity), terms)
  }

  /** The plan leaves no dead order. */
  ghost predicate Covers(books: Two<seq<Entry>>, actions: seq<Action>, terms: Terms) {
    forall b: Bit, e {:trigger CoversAt(actions, terms, b, e)} :: e in books.At(b) ==> CoversAt(actions, terms, b, e)
  }

  lemma ClearedCovers(books: Two<seq<Entry>>, actions: seq<Action>, terms: Terms)
    requires Clears(books, actions, terms)
    ensures Covers(books, actions, terms)
  {
    forall b: Bit, e | e in books.At(b)
      ensures CoversAt(actions, terms, b, e)
    {
      ActionIsListed(actions, b, e.slot);
      assert ActionOn(actions, b, e.slot).Some? <==> Dead(b, e.order, terms);
    }
  }

  lemma CoversSnoc(books: Two<seq<Entry>>, actions: seq<Action>, terms: Terms, q: Quote, a: Action)
    requires Covers(books, actions, terms) && OneSlotBooks(books) && Entry(q.slot, q.order) in books.At(q.tree)
    requires QuoteOf(q.tree, Entry(q.slot, q.order), terms) == Some(q) && ActionOn(actions, q.tree, q.slot).None?
    requires a.tree == q.tree && a.slot == q.slot && (a.remove || a.newQuantity > 0)
    ensures Covers(books, actions + [a], terms)
  {
    forall b: Bit, e | e in books.At(b)
      ensures CoversAt(actions + [a], terms, b, e)
    {
      assert CoversAt(actions, terms, b, e);
      ActionOnSnoc(actions, a, b, e.slot);
      if b == a.tree && e.slot == a.slot { assert e == Entry(q.slot, q.order); }
    }
  }

  /** The makers met are the first of the queue, and there is a phantom for each that is passed over. */
  ghost predicate Passing(start: Trading, taker: Taker, terms: Terms, books: Two<seq<Entry>>, plan: Plan,
                          queue: seq<Quote>) {
    var n := |plan.fills| + plan.selfCancelled;
    && n <= |start.queue| && (plan.remaining > 0 ==> queue == start.queue[n..])
    && Phantoms(books, plan.actions, terms, PassedOver(start.queue, taker, n)) && Covers(books, plan.actions, terms)
  }

  lemma NoPhantoms(books: Two<seq<Entry>>, actions: seq<Action>, terms: Terms)
    requires NoPhantom(actions)
    ensures Phantoms(books, actions, terms, [])
  {
    forall q
      ensures !PhantomOn(books, actions, terms, q)
    {
      ActionIsListed(actions, q.tree, q.slot);
    }
  }

  /** A new action adds its own leaf to the phantoms, or nothing. */
  lemma PhantomsSnoc(books: Two<seq<Entry>>, actions: seq<Action>, terms: Terms, passed: seq<Quote>, q: Quote,
                     a: Action)
    requires Phantoms(books, actions, terms, passed) && OneSlotBooks(books)
    requires Entry(q.slot, q.order) in books.At(q.tree) && QuoteOf(q.tree, Entry(q.slot, q.order), terms) == Some(q)
    requires a.tree == q.tree && a.slot == q.slot && ActionOn(actions, q.tree, q.slot).None?
    ensures Phantoms(books, actions + [a], terms, passed + if a.phantom then [q] else [])
  {
    forall x
      ensures x in passed + (if a.phantom then [q] else []) <==> PhantomOn(books, actions + [a], terms, x)
    {
      ActionOnSnoc(actions, a, x.tree, x.slot);
    }
  }

  lemma PassingOn(start: Trading, taker: Taker, terms: Terms, books: Two<seq<Entry>>, plan: Plan, queue: seq<Quote>)
    requires Passing(start, taker, terms, books, plan, queue) && OneSlotBooks(books) && queue != []
             && plan.remaining > 0
    requires !Abstains(taker, queue[0]) && ActionOn(plan.actions, queue[0].tree, queue[0].slot).None?
    requires queue[0].order.quantity > 0
    requires Entry(queue[0].slot, queue[0].order) in books.At(queue[0].tree)
    requires QuoteOf(queue[0].tree, Entry(queue[0].slot, queue[0].order), terms) == Some(queue[0])
    ensures var a := ActionFor(plan, taker, queue[0]);
            Passing(start, taker, terms, books, PlanAfter(plan, taker, queue[0], plan.actions + [a]),
                    Meet(PlanNow(queue, plan), taker).queue)
  {
    var n, q, a := |plan.fills| + plan.selfCancelled, queue[0], ActionFor(plan, taker, queue[0]);
    assert start.queue[n] == q && start.queue[n..][1..] == start.queue[n + 1..];
    PassedOverSnoc(start.queue, taker, n);
    PhantomsSnoc(books, plan.actions, terms, PassedOver(start.queue, taker, n), q, a);
    CoversSnoc(books, plan.actions, terms, q, a);
    AfterIsMet(plan, taker, queue);
  }

  lemma AfterIsMet(plan: Plan, taker: Taker, queue: seq<Quote>)
    requires queue != [] && !Abstains(taker, queue[0])
    ensures var plan' := PlanAfter(plan, taker, queue[0], plan.actions + [ActionFor(plan, taker, queue[0])]);
            && |plan'.fills| + plan'.selfCancelled == |plan.fills| + plan.selfCancelled + 1
            && (plan'.remaining > 0 ==> Meet(PlanNow(queue, plan), taker).queue == queue[1..])
    ensures ActionFor(plan, taker, queue[0]).phantom
       <==> queue[0].order.owner == taker.owner && taker.selfTrade == DecrementTake
  {}

  /** The plan is where the queue comes to in so many steps, with an action for each maker met. */
  ghost predicate Proceeds(start: Trading, taker: Taker, terms: Terms, limits: Limits, books: Two<seq<Entry>>,
                           plan: Plan, queue: seq<Quote>, steps: nat, cleared: nat) {
    && Sorted(terms.side, queue) && Shown(books, plan.actions, terms, queue)
    && Comes(start, PlanNow(queue, plan), taker, limits.maxFills, steps)
    && |plan.actions| == cleared + Met(PlanNow(queue, plan))
    && (plan.remaining > 0 ==> Hiding(plan.actions)) && OnSide(plan.actions, Opposite(taker.side))
    && Grounded(books, plan.actions) && (taker.selfTrade != DecrementTake ==> NoPhantom(plan.actions))
  }

  ghost predicate Planning(start: Trading, taker: Taker, terms: Terms, limits: Limits, books: Two<seq<Entry>>,
                           plan: Plan, queue: seq<Quote>, steps: nat, cleared: nat) {
    && Proceeds(start, taker, terms, limits, books, plan, queue, steps, cleared)
    && Passing(start, taker, terms, books, plan, queue)
  }

  /** What is planned for the maker at the front. */
  function ActionFor(plan: Plan, taker: Taker, q: Quote): Action {
    var amount := Amount(q.order, plan.remaining);
    var own, side := q.order.owner == taker.owner, Opposite(taker.side);
    if own && taker.selfTrade == DecrementTake then
      Action(q.slot, side, q.tree, false, q.order.quantity, q.order.key, q.order.owner, q.order.quantity, true)
    else if own || amount == q.order.quantity then
      Action(q.slot, side, q.tree, true, 0, q.order.key, q.order.owner, q.order.quantity, false)
    else
      Action(q.slot, side, q.tree, false, q.order.quantity - amount, q.order.key, q.order.owner, q.order.quantity,
             false)
  }

  function PlanAfter(plan: Plan, taker: Taker, q: Quote, actions: seq<Action>): Plan {
    var amount := Amount(q.order, plan.remaining);
    if q.order.owner == taker.owner then
      plan.(selfCancelled := plan.selfCancelled + 1, actions := actions,
            remaining := if taker.selfTrade == DecrementTake then plan.remaining - amount else plan.remaining)
    else
      plan.(fills := plan.fills + [FillOf(q, amount)], remaining := plan.remaining - amount, actions := actions)
  }

  /** The front has no action on it yet. */
  lemma FrontIsUntouched(books: Two<seq<Entry>>, actions: seq<Action>, terms: Terms, q: Quote)
    requires Visible(books, actions, terms, q) && Hiding(actions)
    ensures ActionOn(actions, q.tree, q.slot).None? && IndexOn(actions, q.tree, q.slot).None?
    ensures exists e :: SeenAs(books, actions, terms, q, e) && e == Entry(q.slot, q.order)
  {
    var e :| SeenAs(books, actions, terms, q, e);
    ActionIsListed(actions, q.tree, q.slot);
    NoIndexNoAction(actions, q.tree, q.slot);
    NothingPlanned(q.tree, e, terms);
  }

  /** What is left of a maker met. */
  function LeftOf(q: Quote, taker: Taker, remaining: u64): Option<Quote> {
    var amount := Amount(q.order, remaining);
    if q.order.owner == taker.owner || amount == q.order.quantity then None
    else Some(Reduced(q, q.order.quantity - amount))
  }

  lemma SeenAfter(plan: Plan, taker: Taker, q: Quote, terms: Terms)
    requires QuoteOf(q.tree, Entry(q.slot, q.order), terms) == Some(q) && !Abstains(taker, q) && plan.remaining > 0
    ensures Seen(Some(ActionFor(plan, taker, q)), q.tree, Entry(q.slot, q.order), terms)
         == LeftOf(q, taker, plan.remaining)
  {}

  lemma MeetLeaves(t: Trading, taker: Taker)
    requires t.queue != [] && !Abstains(taker, t.queue[0])
    ensures var left := LeftOf(t.queue[0], taker, t.remaining);
            Meet(t, taker).queue == (if left.Some? then [left.value] else []) + t.queue[1..]
  {
    assert [] + t.queue[1..] == t.queue[1..];
  }

  lemma FrontIsQuoted(books: Two<seq<Entry>>, actions: seq<Action>, terms: Terms, queue: seq<Quote>)
    requires Shown(books, actions, terms, queue) && queue != [] && Hiding(actions)
    ensures var q := queue[0];
            var e := Entry(q.slot, q.order);
            && ActionOn(actions, q.tree, q.slot).None? && IndexOn(actions, q.tree, q.slot).None?
            && SeenAs(books, actions, terms, q, e) && QuoteOf(q.tree, e, terms) == Some(q) && q.order.quantity > 0
  {
    var q := queue[0];
    assert q in queue;
    FrontIsUntouched(books, actions, terms, q);
    NothingPlanned(q.tree, Entry(q.slot, q.order), terms);
  }

  lemma ProceedsOn(start: Trading, taker: Taker, terms: Terms, limits: Limits, books: Two<seq<Entry>>, plan: Plan,
                   queue: seq<Quote>, steps: nat, cleared: nat)
    requires Proceeds(start, taker, terms, limits, books, plan, queue, steps, cleared) && OneSlotBooks(books)
    requires Goes(PlanNow(queue, plan), taker, limits.maxFills) && !Abstains(taker, queue[0])
    ensures var a := ActionFor(plan, taker, queue[0]);
            Proceeds(start, taker, terms, limits, books, PlanAfter(plan, taker, queue[0], plan.actions + [a]),
                     Meet(PlanNow(queue, plan), taker).queue, steps + 1, cleared)
  {
    var now, q, a := PlanNow(queue, plan), queue[0], ActionFor(plan, taker, queue[0]);
    FrontIsQuoted(books, plan.actions, terms, queue);
    var e := Entry(q.slot, q.order);
    ActedShows(books, plan.actions, terms, queue, e, a);
    SeenAfter(plan, taker, q, terms);
    MeetLeaves(now, taker);
    MeetKeepsOrder(terms.side, now, taker);
    ComesFurther(start, now, taker, limits.maxFills, steps);
    GroundedSnoc(books, plan.actions, a, e);
    var plan' := PlanAfter(plan, taker, q, plan.actions + [a]);
    assert PlanNow(Meet(now, taker).queue, plan') == Meet(now, taker);
  }

  lemma PlanningOn(start: Trading, taker: Taker, terms: Terms, limits: Limits, books: Two<seq<Entry>>, plan: Plan,
                   queue: seq<Quote>, steps: nat, cleared: nat)
    requires Planning(start, taker, terms, limits, books, plan, queue, steps, cleared) && OneSlotBooks(books)
    requires Goes(PlanNow(queue, plan), taker, limits.maxFills) && !Abstains(taker, queue[0])
    ensures var a := ActionFor(plan, taker, queue[0]);
            && IndexOn(plan.actions, a.tree, a.slot).None?
            && Planning(start, taker, terms, limits, books, PlanAfter(plan, taker, queue[0], plan.actions + [a]),
                        Meet(PlanNow(queue, plan), taker).queue, steps + 1, cleared)
  {
    FrontIsQuoted(books, plan.actions, terms, queue);
    ProceedsOn(start, taker, terms, limits, books, plan, queue, steps, cleared);
    PassingOn(start, taker, terms, books, plan, queue);
  }

  /** The taker gives up at the front. */
  lemma PlanningStops(start: Trading, taker: Taker, terms: Terms, limits: Limits, books: Two<seq<Entry>>, plan: Plan,
                      queue: seq<Quote>, steps: nat, cleared: nat)
    requires Planning(start, taker, terms, limits, books, plan, queue, steps, cleared)
    requires Goes(PlanNow(queue, plan), taker, limits.maxFills) && Abstains(taker, queue[0])
    ensures var plan' := if taker.postOnly then plan.(postOnlyRejected := true) else plan.(selfTradeAborted := true);
            Planning(start, taker, terms, limits, books, plan', queue, steps + 1, cleared)
  {
    ComesFurther(start, PlanNow(queue, plan), taker, limits.maxFills, steps);
  }

  /** Slots are what the arena's invariant makes of them. */
  lemma SlotsInOrder(arena: Arena)
    requires arena.Valid()
    ensures OneSlotBooks(arena.Books())
    ensures forall b: Bit, e :: e in arena.Books().At(b) ==> e.slot < arena.bump
  {
    forall b: Bit
      ensures OneSlotEach(arena.Books().At(b)) && forall e :: e in arena.Books().At(b) ==> e.slot < arena.bump
    {
      SlotsAreDistinct(arena.Value(), arena.trees, arena.free, b);
      SlotsAreHandedOut(arena.Value(), arena.trees, arena.free, b);
    }
    assert OneSlotEach(arena.Books().At(0)) && OneSlotEach(arena.Books().At(1));
  }

  /** One turn of the planner. */
  method PlanOnce(arena: Arena, taker: Taker, terms: Terms, limits: Limits, plan: Plan, ghost start: Trading,
                  ghost queue: seq<Quote>, ghost steps: nat, ghost cleared: nat)
    returns (r: Result<Plan>, done: bool, ghost queue': seq<Quote>, ghost steps': nat)
    requires arena.Valid() && BooksFiled(arena.Books(), terms.side)
    requires Planning(start, taker, terms, limits, arena.Books(), plan, queue, steps, cleared)
    requires plan.remaining > 0 && |plan.fills| < limits.maxFills && !plan.postOnlyRejected && !plan.selfTradeAborted
    ensures r.Ok? ==>
              && Planning(start, taker, terms, limits, arena.Books(), r.value, queue', steps', cleared)
                 && steps' <= steps + 1
              && r.value.invalidRemoved == plan.invalidRemoved && r.value.expiredRemoved == plan.expiredRemoved
              && (|plan.actions| <= MAX_PLAN_ACTIONS ==> |r.value.actions| <= MAX_PLAN_ACTIONS)
              && (!done ==> steps' == steps + 1 && !r.value.postOnlyRejected && !r.value.selfTradeAborted)
              && (done ==> !Goes(PlanNow(queue', r.value), taker, limits.maxFills))
    ensures r.Err? ==>
              && r == Err(BadLimit) && |plan.actions| >= MAX_PLAN_ACTIONS
              && Goes(PlanNow(queue, plan), taker, limits.maxFills) && !Abstains(taker, queue[0])
  {
    SlotsInOrder(arena);
    var best := BestVirtual(arena, terms, plan.actions);
    BestIsFront(arena.Books(), plan.actions, terms, queue, best, arena.bump);
    if best.None? || !Crosses(taker, best.value.price) {
      return Ok(plan), true, queue, steps;
    }
    var q := best.value;
    if Abstains(taker, q) {
      PlanningStops(start, taker, terms, limits, arena.Books(), plan, queue, steps, cleared);
      return Ok(if taker.postOnly then plan.(postOnlyRejected := true) else plan.(selfTradeAborted := true)), true,
          queue, steps + 1;
    }
    PlanningOn(start, taker, terms, limits, arena.Books(), plan, queue, steps, cleared);
    var actions := AddPlanAction(plan.actions, ActionFor(plan, taker, q));
    if actions.None? {
      return Err(BadLimit), true, queue, steps;
    }
    return Ok(PlanAfter(plan, taker, q, actions.value)), false, Meet(PlanNow(queue, plan), taker).queue, steps + 1;
  }

  lemma {:induction false} MetGrows(t: Trading, taker: Taker, maxFills: nat, steps: nat)
    ensures Met(t) <= Met(Trade(t, taker, maxFills, steps))
    ensures steps > 0 && Goes(t, taker, maxFills) && !Abstains(taker, t.queue[0]) ==>
              Met(t) < Met(Trade(t, taker, maxFills, steps))
    decreases steps
  {
    if steps > 0 && Goes(t, taker, maxFills) { MetGrows(Meet(t, taker), taker, maxFills, steps - 1); }
  }

  /** A plan that overflows has more makers to meet than actions left. */
  lemma OverflowMeets(start: Trading, taker: Taker, limits: Limits, now: Trading, steps: nat, cleared: nat)
    requires Comes(start, now, taker, limits.maxFills, steps) && steps < MAX_PLAN_ACTIONS
    requires Goes(now, taker, limits.maxFills) && !Abstains(taker, now.queue[0])
             && cleared + Met(now) >= MAX_PLAN_ACTIONS
    ensures cleared + Met(Trade(start, taker, limits.maxFills, MAX_PLAN_ACTIONS)) > MAX_PLAN_ACTIONS
  {
    var left := MAX_PLAN_ACTIONS - steps;
    assert Trade(start, taker, limits.maxFills, steps + left) == Trade(now, taker, limits.maxFills, left);
    MetGrows(now, taker, limits.maxFills, left);
  }

  /** The plan is where sixteen steps bring the queue. */
  ghost predicate Concludes(start: Trading, taker: Taker, terms: Terms, limits: Limits, books: Two<seq<Entry>>,
                            plan: Plan, queue: seq<Quote>) {
    && PlanNow(queue, plan) == Trade(start, taker, limits.maxFills, MAX_PLAN_ACTIONS)
    && Sorted(terms.side, queue) && Shown(books, plan.actions, terms, queue) && Grounded(books, plan.actions)
    && OnSide(plan.actions, Opposite(taker.side)) && Passing(start, taker, terms, books, plan, queue)
  }

  /** The planning loop: it fails if and only if clearing and meeting take more actions than a plan holds, and
      otherwise plans what sixteen steps of the queue give. */
  method PlanLoop(arena: Arena, taker: Taker, terms: Terms, limits: Limits, plan: Plan, ghost start: Trading)
    returns (r: Result<Plan>, ghost queue: seq<Quote>)
    requires arena.Valid() && BooksFiled(arena.Books(), terms.side)
    requires plan.fills == [] && plan.selfCancelled == 0 && !plan.postOnlyRejected && !plan.selfTradeAborted
    requires start == PlanNow(start.queue, plan) && Sorted(terms.side, start.queue)
    requires Shown(arena.Books(), plan.actions, terms, start.queue) && Hiding(plan.actions)
    requires |plan.actions| <= MAX_PLAN_ACTIONS
    requires Grounded(arena.Books(), plan.actions) && NoPhantom(plan.actions)
    requires Covers(arena.Books(), plan.actions, terms) && OnSide(plan.actions, Opposite(taker.side))
    ensures r.Err? <==> |plan.actions| + Met(Trade(start, taker, limits.maxFills, MAX_PLAN_ACTIONS)) > MAX_PLAN_ACTIONS
    ensures r.Err? ==> r == Err(BadLimit)
    ensures r.Ok? ==>
              && Concludes(start, taker, terms, limits, arena.Books(), r.value, queue)
              && (taker.selfTrade != DecrementTake ==> NoPhantom(r.value.actions))
              && r.value.invalidRemoved == plan.invalidRemoved && r.value.expiredRemoved == plan.expiredRemoved
  {
    NoPhantoms(arena.Books(), plan.actions, terms);
    ghost var cleared := |plan.actions|;
    ghost var steps: nat := 0;
    queue := start.queue;
    var now, iterations, done := plan, 0, false;
    while !done && now.remaining > 0 && |now.fills| < limits.maxFills && iterations < MAX_PLAN_ACTIONS
      invariant steps <= iterations <= MAX_PLAN_ACTIONS && |now.actions| <= MAX_PLAN_ACTIONS
      invariant Planning(start, taker, terms, limits, arena.Books(), now, queue, steps, cleared)
      invariant now.invalidRemoved == plan.invalidRemoved && now.expiredRemoved == plan.expiredRemoved
      invariant !done ==> steps == iterations && !now.postOnlyRejected && !now.selfTradeAborted
      invariant done ==> !Goes(PlanNow(queue, now), taker, limits.maxFills)
      decreases MAX_PLAN_ACTIONS - iterations
    {
      iterations := iterations + 1;
      var next;
      ghost var queue', steps';
      next, done, queue', steps' := PlanOnce(arena, taker, terms, limits, now, start, queue, steps, cleared);
      if next.Err? {
        OverflowMeets(start, taker, limits, PlanNow(queue, now), steps, cleared);
        return next, queue;
      }
      now, queue, steps := next.value, queue', steps';
    }
    ComesToEnd(start, PlanNow(queue, now), taker, limits.maxFills, steps, MAX_PLAN_ACTIONS);
    return Ok(now), queue;
  }

  // ----- clearing -----

  /** Where a leaf comes in the scan: slot by slot, the fixed tree first. */
  function Turn(tree: Bit, slot: nat): nat {
    2 * slot + tree
  }

  /** Dead orders, expired or not, that the scan has passed. */
  function CountPassed(es: seq<Entry>, tree: Bit, terms: Terms, expired: bool, turn: nat): nat {
    if es == [] then 0
    else
      (if Dead(tree, es[0].order, terms) && Expired(es[0], terms.now) == expired && Turn(tree, es[0].slot) < turn
       then 1 else 0)
      + CountPassed(es[1..], tree, terms, expired, turn)
  }

  function Passed(books: Two<seq<Entry>>, terms: Terms, expired: bool, turn: nat): nat {
    CountPassed(books.fixed, 0, terms, expired, turn) + CountPassed(books.pegged, 1, terms, expired, turn)
  }

  lemma {:induction false} PassedAtMost(es: seq<Entry>, tree: Bit, terms: Terms, turn: nat)
    ensures CountPassed(es, tree, terms, true, turn) <= CountExpired(es, terms.now)
    ensures CountPassed(es, tree, terms, false, turn) <= CountStale(es, tree, terms)
    ensures (forall e :: e in es ==> Turn(tree, e.slot) < turn) ==>
              && CountPassed(es, tree, terms, true, turn) == CountExpired(es, terms.now)
              && CountPassed(es, tree, terms, false, turn) == CountStale(es, tree, terms)
  {
    if es != [] {
      PassedAtMost(es[1..], tree, terms, turn);
      assert es[0] in es && forall e :: e in es[1..] ==> e in es;
    }
  }

  lemma {:induction false} NothingAtTurn(es: seq<Entry>, tree: Bit, terms: Terms, expired: bool, turn: nat)
    requires forall e :: e in es ==> Turn(tree, e.slot) != turn
    ensures CountPassed(es, tree, terms, expired, turn + 1) == CountPassed(es, tree, terms, expired, turn)
  {
    if es != [] {
      assert es[0] in es && forall e :: e in es[1..] ==> e in es;
      NothingAtTurn(es[1..], tree, terms, expired, turn);
    }
  }

  lemma {:induction false} OneAtTurn(es: seq<Entry>, tree: Bit, terms: Terms, expired: bool, e: Entry)
    requires Ascending(es) && OneSlotEach(es) && e in es
    ensures var turn := Turn(tree, e.slot);
            CountPassed(es, tree, terms, expired, turn + 1)
            == CountPassed(es, tree, terms, expired, turn)
               + if Dead(tree, e.order, terms) && Expired(e, terms.now) == expired then 1 else 0
  {
    AscendingTail(es);
    assert forall x :: x in es[1..] ==> x in es;
    if es[0] == e {
      NothingAtTurn(es[1..], tree, terms, expired, Turn(tree, e.slot));
    } else {
      assert es[0].slot != e.slot;
      OneAtTurn(es[1..], tree, terms, expired, e);
    }
  }

  /** A removal is planned exactly if the order is dead and passed. */
  predicate Handled(actions: seq<Action>, terms: Terms, turn: nat, b: Bit, e: Entry) {
    ActionOn(actions, b, e.slot).Some? <==> Dead(b, e.order, terms) && Turn(b, e.slot) < turn
  }

  /** The scan has come to `turn`, and the plan removes exactly the dead orders passed. */
  ghost predicate Clearing(books: Two<seq<Entry>>, plan: Plan, terms: Terms, turn: nat) {
    && Grounded(books, plan.actions) && OnSide(plan.actions, terms.side)
    && (forall i :: 0 <= i < |plan.actions| ==> plan.actions[i].remove && !plan.actions[i].phantom)
    && (forall b: Bit, e {:trigger Handled(plan.actions, terms, turn, b, e)} ::
          e in books.At(b) ==> Handled(plan.actions, terms, turn, b, e))
    && plan.expiredRemoved == Passed(books, terms, true, turn)
    && plan.invalidRemoved == Passed(books, terms, false, turn)
    && |plan.actions| == plan.expiredRemoved + plan.invalidRemoved
  }

  ghost predicate Tidy(books: Two<seq<Entry>>) {
    OneSlotBooks(books) && Ascending(books.fixed) && Ascending(books.pegged)
  }

  lemma TidyArena(arena: Arena)
    requires arena.Valid()
    ensures Tidy(arena.Books()) && forall b: Bit, e :: e in arena.Books().At(b) ==> e.slot < arena.bump
  {
    SlotsInOrder(arena);
    SlotsAreDistinct(arena.Value(), arena.trees, arena.free, 0);
    SlotsAreDistinct(arena.Value(), arena.trees, arena.free, 1);
  }

  lemma PassNothing(books: Two<seq<Entry>>, plan: Plan, terms: Terms, tree: Bit, slot: nat)
    requires Clearing(books, plan, terms, Turn(tree, slot))
    requires forall e :: e in books.At(tree) ==> e.slot != slot
    ensures Clearing(books, plan, terms, Turn(tree, slot) + 1)
  {
    var turn := Turn(tree, slot);
    NothingAtTurn(books.fixed, 0, terms, true, turn);
    NothingAtTurn(books.fixed, 0, terms, false, turn);
    NothingAtTurn(books.pegged, 1, terms, true, turn);
    NothingAtTurn(books.pegged, 1, terms, false, turn);
    forall b: Bit, e | e in books.At(b)
      ensures Handled(plan.actions, terms, turn + 1, b, e)
    {
      assert Handled(plan.actions, terms, turn, b, e) && Turn(b, e.slot) != turn;
    }
  }

  lemma CountsAtTurn(books: Two<seq<Entry>>, terms: Terms, tree: Bit, e: Entry, expired: bool)
    requires Tidy(books) && e in books.At(tree)
    ensures var turn := Turn(tree, e.slot);
            Passed(books, terms, expired, turn + 1)
            == Passed(books, terms, expired, turn)
               + if Dead(tree, e.order, terms) && Expired(e, terms.now) == expired then 1 else 0
  {
    var turn := Turn(tree, e.slot);
    OneAtTurn(books.At(tree), tree, terms, expired, e);
    NothingAtTurn(books.At(1 - tree), 1 - tree, terms, expired, turn);
  }

  lemma PassAlive(books: Two<seq<Entry>>, plan: Plan, terms: Terms, tree: Bit, e: Entry)
    requires Clearing(books, plan, terms, Turn(tree, e.slot)) && Tidy(books) && e in books.At(tree)
    requires !Dead(tree, e.order, terms)
    ensures Clearing(books, plan, terms, Turn(tree, e.slot) + 1)
  {
    CountsAtTurn(books, terms, tree, e, true);
    CountsAtTurn(books, terms, tree, e, false);
    forall b: Bit, x | x in books.At(b)
      ensures Handled(plan.actions, terms, Turn(tree, e.slot) + 1, b, x)
    {
      assert Handled(plan.actions, terms, Turn(tree, e.slot), b, x);
      assert Turn(b, x.slot) == Turn(tree, e.slot) ==> b == tree && x == e;
    }
  }

  function RemovalOf(side: Side, tree: Bit, e: Entry): Action {
    Action(e.slot, side, tree, true, 0, e.order.key, e.order.owner, e.order.quantity, false)
  }

  function ClearedPlan(plan: Plan, tree: Bit, e: Entry, terms: Terms): Plan {
    var expired := Expired(e, terms.now);
    plan.(actions := plan.actions + [RemovalOf(terms.side, tree, e)],
          expiredRemoved := plan.expiredRemoved + if expired then 1 else 0,
          invalidRemoved := plan.invalidRemoved + if expired then 0 else 1)
  }

  lemma PassDead(books: Two<seq<Entry>>, plan: Plan, terms: Terms, tree: Bit, e: Entry)
    requires Clearing(books, plan, terms, Turn(tree, e.slot)) && Tidy(books) && e in books.At(tree)
    requires Dead(tree, e.order, terms)
    ensures IndexOn(plan.actions, tree, e.slot).None?
    ensures Clearing(books, ClearedPlan(plan, tree, e, terms), terms, Turn(tree, e.slot) + 1)
  {
    assert Handled(plan.actions, terms, Turn(tree, e.slot), tree, e);
    NoIndexNoAction(plan.actions, tree, e.slot);
    CountsAtTurn(books, terms, tree, e, true);
    CountsAtTurn(books, terms, tree, e, false);
    var a := RemovalOf(terms.side, tree, e);
    GroundedSnoc(books, plan.actions, a, e);
    forall b: Bit, x | x in books.At(b)
      ensures Handled(plan.actions + [a], terms, Turn(tree, e.slot) + 1, b, x)
    {
      assert Handled(plan.actions, terms, Turn(tree, e.slot), b, x);
      ActionOnSnoc(plan.actions, a, b, x.slot);
      assert Turn(b, x.slot) == Turn(tree, e.slot) <==> b == tree && x == e;
    }
  }

  /** How many orders clearing removes. */
  function ToClear(books: Two<seq<Entry>>, terms: Terms): nat {
    CountExpired(books.fixed, terms.now) + CountExpired(books.pegged, terms.now)
    + CountStale(books.fixed, 0, terms) + CountStale(books.pegged, 1, terms)
  }

  lemma PassedWithin(books: Two<seq<Entry>>, terms: Terms, limits: Limits, turn: nat)
    requires Passed(books, terms, true, turn) > limits.maxExpired
             || Passed(books, terms, false, turn) > limits.maxInvalid
    ensures !ClearingFits(books, terms, limits)
  {
    PassedAtMost(books.fixed, 0, terms, turn);
    PassedAtMost(books.pegged, 1, terms, turn);
  }

  predicate SameSoFar(plan: Plan, plan': Plan) {
    plan' == plan.(actions := plan'.actions, expiredRemoved := plan'.expiredRemoved,
                   invalidRemoved := plan'.invalidRemoved)
  }

  predicate WithinLimits(plan: Plan, limits: Limits) {
    plan.expiredRemoved <= limits.maxExpired && plan.invalidRemoved <= limits.maxInvalid
    && limits.maxExpired + limits.maxInvalid < MAX_PLAN_ACTIONS
  }

  lemma ClearedWithin(books: Two<seq<Entry>>, plan: Plan, terms: Terms, limits: Limits, tree: Bit, e: Entry)
    requires Clearing(books, ClearedPlan(plan, tree, e, terms), terms, Turn(tree, e.slot) + 1)
    ensures var plan' := ClearedPlan(plan, tree, e, terms);
            plan'.expiredRemoved > limits.maxExpired || plan'.invalidRemoved > limits.maxInvalid ==>
                  !ClearingFits(books, terms, limits)
  {
    var plan' := ClearedPlan(plan, tree, e, terms);
    if plan'.expiredRemoved > limits.maxExpired || plan'.invalidRemoved > limits.maxInvalid {
      PassedWithin(books, terms, limits, Turn(tree, e.slot) + 1);
    }
  }

  /** Plans the removal of a dead order. */
  method ClearDead(plan: Plan, tree: Bit, e: Entry, terms: Terms, limits: Limits,
                   ghost books: Two<seq<Entry>>) returns (r: Result<Plan>)
    requires Clearing(books, plan, terms, Turn(tree, e.slot)) && WithinLimits(plan, limits)
    requires Tidy(books) && e in books.At(tree) && Dead(tree, e.order, terms)
    ensures r.Ok? ==> r.value == ClearedPlan(plan, tree, e, terms) && WithinLimits(r.value, limits)
    ensures r.Err? ==> r == Err(BadLimit) && !ClearingFits(books, terms, limits)
  {
    PassDead(books, plan, terms, tree, e);
    ClearedWithin(books, plan, terms, limits, tree, e);
    var expired := ExpiryOf(e.order) <= terms.now;
    if (if expired then plan.expiredRemoved >= limits.maxExpired else plan.invalidRemoved >= limits.maxInvalid) {
      return Err(BadLimit);
    }
    var actions := AddPlanAction(plan.actions, RemovalOf(terms.side, tree, e));
    return Ok(plan.(actions := actions.value,
                    expiredRemoved := plan.expiredRemoved + if expired then 1 else 0,
                    invalidRemoved := plan.invalidRemoved + if expired then 0 else 1));
  }

  /** The turn of a slot and tree that holds `e`, or nothing. */
  method ClearEntry(plan: Plan, tree: Bit, slot: nat, e: Option<Entry>, terms: Terms, limits: Limits,
                    ghost books: Two<seq<Entry>>)
    returns (r: Result<Plan>)
    requires Tidy(books) && Clearing(books, plan, terms, Turn(tree, slot)) && WithinLimits(plan, limits)
    requires e.Some? ==> e.value in books.At(tree) && e.value.slot == slot
    requires e.None? ==> forall x :: x in books.At(tree) ==> x.slot != slot
    ensures r.Ok? ==>
              && Clearing(books, r.value, terms, Turn(tree, slot) + 1) && WithinLimits(r.value, limits)
              && SameSoFar(plan, r.value)
    ensures r.Err? ==> r == Err(BadLimit) && !ClearingFits(books, terms, limits)
  {
    if e.None? {
      PassNothing(books, plan, terms, tree, slot);
      return Ok(plan);
    }
    if !Dead(tree, e.value.order, terms) {
      PassAlive(books, plan, terms, tree, e.value);
      return Ok(plan);
    }
    PassDead(books, plan, terms, tree, e.value);
    r := ClearDead(plan, tree, e.value, terms, limits, books);
  }

  /** Plans the removal of the order in a slot of a tree, if it is dead. */
  method ClearAt(arena: Arena, tree: Bit, slot: nat, terms: Terms, limits: Limits, plan: Plan) returns (r: Result<Plan>)
    requires arena.Valid() && slot < arena.bump && Clearing(arena.Books(), plan, terms, Turn(tree, slot))
    requires WithinLimits(plan, limits)
    ensures r.Ok? ==>
              && Clearing(arena.Books(), r.value, terms, Turn(tree, slot) + 1) && WithinLimits(r.value, limits)
              && SameSoFar(plan, r.value)
    ensures r.Err? ==> r == Err(BadLimit) && !ClearingFits(arena.Books(), terms, limits)
  {
    TidyArena(arena);
    var e := EntryAt(arena, tree, slot);
    r := ClearEntry(plan, tree, slot, e, terms, limits, arena.Books());
  }

  /** Both trees of a slot. */
  method ClearSlot(arena: Arena, slot: nat, terms: Terms, limits: Limits, plan: Plan) returns (r: Result<Plan>)
    requires arena.Valid() && slot < arena.bump && Clearing(arena.Books(), plan, terms, Turn(0, slot))
    requires WithinLimits(plan, limits)
    ensures r.Ok? ==>
              && Clearing(arena.Books(), r.value, terms, Turn(0, slot + 1)) && WithinLimits(r.value, limits)
              && SameSoFar(plan, r.value)
    ensures r.Err? ==> r == Err(BadLimit) && !ClearingFits(arena.Books(), terms, limits)
  {
    r := ClearAt(arena, 0, slot, terms, limits, plan);
    if r.Ok? {
      r := ClearAt(arena, 1, slot, terms, limits, r.value);
    }
  }

  /** The counters of a plan are those of the dead orders: expired, and not. */
  predicate ClearedCounts(books: Two<seq<Entry>>, terms: Terms, plan: Plan) {
    && plan.expiredRemoved == CountExpired(books.fixed, terms.now) + CountExpired(books.pegged, terms.now)
    && plan.invalidRemoved == CountStale(books.fixed, 0, terms) + CountStale(books.pegged, 1, terms)
  }

  /** Plans the removal of every dead order; it fails exactly when the limits leave no room for that. */
  method ClearAll(arena: Arena, terms: Terms, limits: Limits, quantity: u64) returns (r: Result<Plan>)
    requires arena.Valid() && limits.maxExpired + limits.maxInvalid < MAX_PLAN_ACTIONS
    ensures r.Ok? <==> ClearingFits(arena.Books(), terms, limits)
    ensures r.Err? ==> r == Err(BadLimit)
    ensures r.Ok? ==>
              && Clears(arena.Books(), r.value.actions, terms) && |r.value.actions| == ToClear(arena.Books(), terms)
              && Grounded(arena.Books(), r.value.actions) && NoPhantom(r.value.actions)
                 && OnSide(r.value.actions, terms.side)
              && SameSoFar(Plan([], quantity, 0, 0, 0, false, false, []), r.value)
              && ClearedCounts(arena.Books(), terms, r.value)
  {
    var plan := Plan([], quantity, 0, 0, 0, false, false, []);
    ghost var books := arena.Books();
    NothingPassed(books, terms, plan);
    for slot := 0 to arena.bump
      invariant Clearing(books, plan, terms, Turn(0, slot)) && WithinLimits(plan, limits)
      invariant SameSoFar(Plan([], quantity, 0, 0, 0, false, false, []), plan)
    {
      r := ClearSlot(arena, slot, terms, limits, plan);
      if r.Err? {
        return;
      }
      plan := r.value;
    }
    TidyArena(arena);
    AllPassed(books, terms, plan, arena.bump);
    return Ok(plan);
  }

  lemma {:induction false} NonePassed(es: seq<Entry>, tree: Bit, terms: Terms, expired: bool)
    ensures CountPassed(es, tree, terms, expired, 0) == 0
  {
    if es != [] { NonePassed(es[1..], tree, terms, expired); }
  }

  lemma NothingPassed(books: Two<seq<Entry>>, terms: Terms, plan: Plan)
    requires plan.actions == [] && plan.expiredRemoved == plan.invalidRemoved == 0
    ensures Clearing(books, plan, terms, Turn(0, 0))
  {
    NonePassed(books.fixed, 0, terms, true);
    NonePassed(books.fixed, 0, terms, false);
    NonePassed(books.pegged, 1, terms, true);
    NonePassed(books.pegged, 1, terms, false);
  }

  lemma AllPassed(books: Two<seq<Entry>>, terms: Terms, plan: Plan, bump: nat)
    requires Clearing(books, plan, terms, Turn(0, bump)) && forall b: Bit, e :: e in books.At(b) ==> e.slot < bump
    ensures Clears(books, plan.actions, terms) && |plan.actions| == ToClear(books, terms)
    ensures Grounded(books, plan.actions) && NoPhantom(plan.actions) && OnSide(plan.actions, terms.side)
    ensures plan.expiredRemoved == CountExpired(books.fixed, terms.now) + CountExpired(books.pegged, terms.now)
    ensures plan.invalidRemoved == CountStale(books.fixed, 0, terms) + CountStale(books.pegged, 1, terms)
  {
    assert forall e :: e in books.At(0) ==> e.slot < bump;
    assert forall e :: e in books.At(1) ==> e.slot < bump;
    PassedAtMost(books.fixed, 0, terms, Turn(0, bump));
    PassedAtMost(books.pegged, 1, terms, Turn(0, bump));
    forall b: Bit, e | e in books.At(b)
      ensures ActionOn(plan.actions, b, e.slot).Some? <==> Dead(b, e.order, terms)
    {
      assert Handled(plan.actions, terms, Turn(0, bump), b, e) && Turn(b, e.slot) < Turn(0, bump);
    }
  }

  // ----- the whole plan -----

  /** Sequence numbers are given out once, so no fixed and pegged order share one. */
  predicate Unrepeated(books: Two<seq<Entry>>) {
    forall d, e :: d in books.fixed && e in books.pegged ==> d.order.sequence != e.order.sequence
  }

  lemma QueueSorted(books: Two<seq<Entry>>, terms: Terms)
    requires Ascending(books.fixed) && Ascending(books.pegged) && BooksFiled(books, terms.side) && Unrepeated(books)
    ensures Sorted(terms.side, Queue(books, terms))
  {
    var a, b := Quotes(books.fixed, 0, terms), Quotes(books.pegged, 1, terms);
    QuotesSorted(books.fixed, 0, terms);
    QuotesSorted(books.pegged, 1, terms);
    forall x, y | x in a && y in b
      ensures x.order.sequence != y.order.sequence
    {
      QuotesHave(books.fixed, 0, terms, x);
      QuotesHave(books.pegged, 1, terms, y);
    }
    MergeSorted(terms.side, a, b);
  }

  predicate BadLimits(order: OrderInput, limits: Limits) {
    || order.quantity == 0 || limits.maxFills > MAX_MATCH_FILLS
    || limits.maxInvalid + limits.maxExpired + limits.maxFills + 2 > MAX_PLAN_ACTIONS
  }

  predicate BadTakerPrice(order: OrderInput, oracle: Option<i64>) {
    var price := TakerPrice(order, oracle);
    price.None? || price.value <= 0
  }

  /** Where sixteen steps bring the taker. */
  function Outcome(books: Two<seq<Entry>>, order: OrderInput, oracle: Option<i64>, now: u64, limits: Limits): Trading
    requires TakerPrice(order, oracle).Some?
  {
    var terms := TermsOf(order, oracle, now);
    Trade(Arriving(books, terms, order.quantity), TakerOf(order, TakerPrice(order, oracle).value, order.selfTrade),
          limits.maxFills,
          MAX_PLAN_ACTIONS)
  }

  /** What the planner refuses, with its error. */
  function PlanError(books: Two<seq<Entry>>, order: OrderInput, oracle: Option<i64>, now: u64,
                     limits: Limits): Option<BookError> {
    if BadLimits(order, limits) then Some(BadLimit)
    else if BadTakerPrice(order, oracle) then Some(BadPrice)
    else
      var terms := TermsOf(order, oracle, now);
      if !ClearingFits(books, terms, limits)
         || ToClear(books, terms) + Met(Outcome(books, order, oracle, now, limits)) > MAX_PLAN_ACTIONS
            then Some(BadLimit)
      else None
  }

  /** The plan comes to `end`: through its actions the rest of the queue is seen, and phantoms are on the own orders
      passed over. */
  ghost predicate PlansTo(books: Two<seq<Entry>>, terms: Terms, taker: Taker, plan: Plan, end: Trading) {
    && PlanNow(end.queue, plan) == end && Sorted(terms.side, Queue(books, terms)) && Sorted(terms.side, end.queue)
    && Shown(books, plan.actions, terms, end.queue) && Grounded(books, plan.actions) && OnSide(plan.actions, terms.side)
    && Met(end) <= |Queue(books, terms)| && Covers(books, plan.actions, terms)
    && Phantoms(books, plan.actions, terms, PassedOver(Queue(books, terms), taker, Met(end)))
  }

  ghost predicate Planned(books: Two<seq<Entry>>, order: OrderInput, oracle: Option<i64>, now: u64, limits: Limits,
                          plan: Plan)
    requires TakerPrice(order, oracle).Some?
  {
    var terms, taker := TermsOf(order, oracle, now), TakerOf(order, TakerPrice(order, oracle).value, order.selfTrade);
    var end := Outcome(books, order, oracle, now, limits);
    && PlansTo(books, terms, taker, plan, end) && ClearedCounts(books, terms, plan)
    && Traded(Queue(books, terms), order.quantity, taker, limits.maxFills, MAX_PLAN_ACTIONS, end)
  }

  lemma OutcomePlanned(books: Two<seq<Entry>>, terms: Terms, taker: Taker, quantity: u64, plan: Plan, queue: seq<Quote>,
                       end: Trading)
    requires Sorted(terms.side, Queue(books, terms)) && PlanNow(queue, plan) == end
    requires Sorted(terms.side, queue) && Shown(books, plan.actions, terms, queue) && Grounded(books, plan.actions)
    requires OnSide(plan.actions, terms.side)
             && Passing(Arriving(books, terms, quantity), taker, terms, books, plan, queue)
    ensures PlansTo(books, terms, taker, plan, end)
  {}

  /** Clears and meets, for an order with sound limits and price. */
  method PlanMakers(arena: Arena, order: OrderInput, oracle: Option<i64>, now: u64, limits: Limits)
    returns (r: Result<Plan>)
    requires arena.Valid() && BooksFiled(arena.Books(), Opposite(order.side)) && Unrepeated(arena.Books())
    requires !BadLimits(order, limits) && !BadTakerPrice(order, oracle)
    ensures r.Err? <==>
            || !ClearingFits(arena.Books(), TermsOf(order, oracle, now), limits)
            || ToClear(arena.Books(), TermsOf(order, oracle, now))
               + Met(Outcome(arena.Books(), order, oracle, now, limits))
               > MAX_PLAN_ACTIONS
    ensures r.Err? ==> r == Err(BadLimit)
    ensures r.Ok? ==> Planned(arena.Books(), order, oracle, now, limits, r.value)
    ensures r.Ok? && order.selfTrade != DecrementTake ==> NoPhantom(r.value.actions)
  {
    var terms := TermsOf(order, oracle, now);
    var cleared := ClearAll(arena, terms, limits, order.quantity);
    if cleared.Err? {
      return cleared;
    }
    ghost var books := arena.Books();
    TidyArena(arena);
    QueueSorted(books, terms);
    ClearedShows(books, cleared.value.actions, terms);
    ClearedCovers(books, cleared.value.actions, terms);
    var taker := TakerOf(order, TakerPrice(order, oracle).value, order.selfTrade);
    ghost var start := Arriving(books, terms, order.quantity);
    ghost var queue;
    r, queue := PlanLoop(arena, taker, terms, limits, cleared.value, start);
    if r.Ok? {
      OutcomePlanned(books, terms, taker, order.quantity, r.value, queue, Outcome(books, order, oracle, now, limits));
      TradeComesTo(Queue(books, terms), order.quantity, taker, limits.maxFills, MAX_PLAN_ACTIONS);
    }
  }

  /** Plans without changing the arena. Each error has its exact case; otherwise the plan is what sixteen steps of
      the queue give. */
  method PlanLimit(arena: Arena, order: OrderInput, oracle: Option<i64>, now: u64, limits: Limits)
    returns (r: Result<Plan>)
    requires arena.Valid() && BooksFiled(arena.Books(), Opposite(order.side)) && Unrepeated(arena.Books())
    ensures r.Err? <==> PlanError(arena.Books(), order, oracle, now, limits).Some?
    ensures r.Err? ==> Some(r.error) == PlanError(arena.Books(), order, oracle, now, limits)
    ensures r.Ok? ==> Planned(arena.Books(), order, oracle, now, limits, r.value)
    ensures r.Ok? && order.selfTrade != DecrementTake ==> NoPhantom(r.value.actions)
  {
    if BadLimits(order, limits) {
      return Err(BadLimit);
    }
    if BadTakerPrice(order, oracle) {
      return Err(BadPrice);
    }
    r := PlanMakers(arena, order, oracle, now, limits);
  }
}
