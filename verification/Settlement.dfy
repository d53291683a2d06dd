/**
 `apply_settlement_plan` of `programs/equinox/src/handlers.rs`: a plan applied to
 the arena it was made for. Planning and applying is compared with matching in
 place.
 */
module Settlement {
  import opened Wrappers
  import opened OrderKeys
  import opened Patricia
  import opened ArenaLayout
  import opened ArenaQuantity
  import opened ArenaScan
  import opened BookArena
  import opened Matching
  import opened HeadClearing
  import opened MatchEngine
  import opened MatchPlan

  // ----- one action -----

  /** The list after an action on one of its orders. */
  function Acted(es: seq<Entry>, a: Action): seq<Entry> {
    if a.remove then Without(es, a.key) else WithQuantity(es, a.slot, a.newQuantity)
  }

  lemma {:induction false} WithoutHas(es: seq<Entry>, key: Key, x: Entry)
    requires Ascending(es)
    ensures x in Without(es, key) <==> x in es && x.order.key != key
  {
    if es != [] {
      AscendingTail(es);
      assert es == [es[0]] + es[1..];
      WithoutHas(es[1..], key, x);
    }
  }

  lemma {:induction false} WithQuantityHas(es: seq<Entry>, slot: nat, quantity: u64, x: Entry)
    ensures x in WithQuantity(es, slot, quantity) <==>
            exists e :: e in es && x == if e.slot == slot then Entry(slot, Requoted(e.order, quantity)) else e
  {
    if es != [] {
      WithQuantityHas(es[1..], slot, quantity, x);
      assert es == [es[0]] + es[1..];
    }
  }

  /** Off the action's slot nothing changes. */
  lemma ActedElsewhereHas(es: seq<Entry>, a: Action, e: Entry, x: Entry)
    requires Ascending(es) && OneSlotEach(es) && e in es && e.slot == a.slot && e.order.key == a.key && x.slot != a.slot
    ensures x in Acted(es, a) <==> x in es
  {
    if a.remove {
      WithoutHas(es, a.key, x);
      if x in es { LookupFinds(es, x); LookupFinds(es, e); }
    } else {
      WithQuantityHas(es, a.slot, a.newQuantity, x);
    }
  }

  /** In the action's slot stands what the action says. */
  lemma ActedThereHas(es: seq<Entry>, a: Action, e: Entry, x: Entry)
    requires Ascending(es) && OneSlotEach(es) && e in es && e.slot == a.slot && e.order.key == a.key && x.slot == a.slot
    ensures x in Acted(es, a) <==> !a.remove && x == Entry(a.slot, Requoted(e.order, a.newQuantity))
  {
    if a.remove {
      WithoutHas(es, a.key, x);
    } else {
      WithQuantityHas(es, a.slot, a.newQuantity, x);
    }
  }

  /** Applying an action leaves to be seen, through the others, what was seen through all. */
  lemma AppliedShows(books: Two<seq<Entry>>, a: Action, rest: seq<Action>, terms: Terms, e: Entry, q: Quote)
    requires Tidy(books) && Names(books, a, e) && !a.phantom && ActionOn(rest, a.tree, a.slot).None?
    ensures Visible(books.With(a.tree, Acted(books.At(a.tree), a)), rest, terms, q)
       <==> Visible(books, [a] + rest, terms, q)
  {
    var actions, books' := [a] + rest, books.With(a.tree, Acted(books.At(a.tree), a));
    assert actions[1..] == rest;
    if q.tree == a.tree && q.slot == a.slot {
      SeenThere(books, a, rest, terms, e, q);
    } else {
      forall x: Entry | x.slot == q.slot
        ensures x in books'.At(q.tree) <==> x in books.At(q.tree)
      {
        if q.tree == a.tree { ActedElsewhereHas(books.At(a.tree), a, e, x); }
      }
      if Visible(books', rest, terms, q) {
        var x :| SeenAs(books', rest, terms, q, x);
        assert SeenAs(books, actions, terms, q, x);
      }
      if Visible(books, actions, terms, q) {
        var x :| SeenAs(books, actions, terms, q, x);
        assert SeenAs(books', rest, terms, q, x);
      }
    }
  }

  /** The actions that change something. */
  function Solid(actions: seq<Action>): seq<Action> {
    if actions == [] then [] else (if actions[0].phantom then [] else [actions[0]]) + Solid(actions[1..])
  }

  lemma {:induction false} SolidElsewhere(actions: seq<Action>, tree: Bit, slot: nat)
    requires ActionOn(actions, tree, slot).None?
    ensures ActionOn(Solid(actions), tree, slot).None?
  {
    if actions != [] {
      SolidElsewhere(actions[1..], tree, slot);
      var rest := Solid(actions[1..]);
      if actions[0].phantom { assert [] + rest == rest; } else { assert ([actions[0]] + rest)[1..] == rest; }
    }
  }

  predicate OneActionEach(actions: seq<Action>) {
    forall i, j :: 0 <= i < j < |actions| ==> actions[i].tree != actions[j].tree || actions[i].slot != actions[j].slot
  }

  lemma {:induction false} SolidOn(actions: seq<Action>, tree: Bit, slot: nat)
    requires OneActionEach(actions)
    ensures ActionOn(Solid(actions), tree, slot)
         == var a := ActionOn(actions, tree, slot); if a.Some? && a.value.phantom then None else a
  {
    if actions != [] {
      var first, rest := actions[0], actions[1..];
      assert actions == [first] + rest;
      assert forall i :: 0 <= i < |rest| ==> rest[i] == actions[i + 1];
      SolidOn(rest, tree, slot);
      if first.phantom {
        assert [] + Solid(rest) == Solid(rest);
        if first.tree == tree && first.slot == slot {
          RestIsElsewhere(first, rest);
          SolidElsewhere(rest, tree, slot);
        }
      } else {
        assert ([first] + Solid(rest))[1..] == Solid(rest);
      }
    }
  }

  /** Without its phantoms a plan shows what it showed and the orders with phantoms on them. */
  lemma SolidShows(books: Two<seq<Entry>>, actions: seq<Action>, terms: Terms, q: Quote)
    requires OneActionEach(actions)
    ensures Visible(books, Solid(actions), terms, q)
       <==> Visible(books, actions, terms, q) || PhantomOn(books, actions, terms, q)
  {
    var a := ActionOn(actions, q.tree, q.slot);
    SolidOn(actions, q.tree, q.slot);
    if a.Some? && a.value.phantom {
      if Visible(books, Solid(actions), terms, q) {
        var e :| SeenAs(books, Solid(actions), terms, q, e);
        NothingPlanned(q.tree, e, terms);
      }
      if PhantomOn(books, actions, terms, q) {
        var e :| e in books.At(q.tree) && QuoteOf(q.tree, e, terms) == Some(q);
        NothingPlanned(q.tree, e, terms);
        assert SeenAs(books, Solid(actions), terms, q, e);
      }
    } else {
      if Visible(books, Solid(actions), terms, q) {
        var e :| SeenAs(books, Solid(actions), terms, q, e);
        assert SeenAs(books, actions, terms, q, e);
      }
      if Visible(books, actions, terms, q) {
        var e :| SeenAs(books, actions, terms, q, e);
        assert SeenAs(books, Solid(actions), terms, q, e);
      }
    }
  }

  lemma {:induction false} SameQuantity(es: seq<Entry>, e: Entry)
    requires OneSlotEach(es) && forall x :: x in es && x.slot == e.slot ==> x == e
    ensures WithQuantity(es, e.slot, e.order.quantity) == es
  {
    if es != [] {
      assert es[0] in es && forall x :: x in es[1..] ==> x in es;
      SameQuantity(es[1..], e);
    }
  }

  lemma RestIsElsewhere(a: Action, rest: seq<Action>)
    requires forall i, j :: 0 <= i < j < |[a] + rest| ==>
               ([a] + rest)[i].tree != ([a] + rest)[j].tree || ([a] + rest)[i].slot != ([a] + rest)[j].slot
    ensures ActionOn(rest, a.tree, a.slot).None?
  {
    ActionIsListed(rest, a.tree, a.slot);
    var all := [a] + rest;
    forall i | 0 <= i < |rest|
      ensures rest[i].tree != a.tree || rest[i].slot != a.slot
    {
      assert all[0] == a && all[i + 1] == rest[i];
    }
  }

  lemma SeenThere(books: Two<seq<Entry>>, a: Action, rest: seq<Action>, terms: Terms, e: Entry, q: Quote)
    requires Tidy(books) && Names(books, a, e) && !a.phantom && ActionOn(rest, a.tree, a.slot).None?
    requires q.tree == a.tree && q.slot == a.slot
    ensures Visible(books.With(a.tree, Acted(books.At(a.tree), a)), rest, terms, q)
       <==> Visible(books, [a] + rest, terms, q)
  {
    var actions, books' := [a] + rest, books.With(a.tree, Acted(books.At(a.tree), a));
    assert ActionOn(actions, a.tree, a.slot) == Some(a);
    var e' := Entry(a.slot, Requoted(e.order, a.newQuantity));
    ActedThereHas(books.At(a.tree), a, e, e');
    NothingPlanned(a.tree, e', terms);
    if Visible(books', rest, terms, q) {
      var x :| SeenAs(books', rest, terms, q, x);
      ActedThereHas(books.At(a.tree), a, e, x);
      assert SeenAs(books, actions, terms, q, e);
    }
    if Visible(books, actions, terms, q) {
      var x :| SeenAs(books, actions, terms, q, x);
      assert x == e;
      assert SeenAs(books', rest, terms, q, e');
    }
  }

  /** What stands after an action stood before it, up to its quantity. */
  lemma ActedOrigin(es: seq<Entry>, a: Action, x: Entry)
    requires Ascending(es) && x in Acted(es, a)
    ensures exists y :: y in es && x == Entry(y.slot, Requoted(y.order, x.order.quantity))
  {
    if a.remove {
      WithoutHas(es, a.key, x);
      assert x == Entry(x.slot, Requoted(x.order, x.order.quantity));
    } else {
      WithQuantityHas(es, a.slot, a.newQuantity, x);
      var y :| y in es && x == if y.slot == a.slot then Entry(a.slot, Requoted(y.order, a.newQuantity)) else y;
      assert x == Entry(y.slot, Requoted(y.order, x.order.quantity));
    }
  }

  /** The order, up to its quantity, was there. */
  predicate WasThere(es: seq<Entry>, x: Entry) {
    exists y :: y in es && x == Entry(y.slot, Requoted(y.order, x.order.quantity))
  }

  /** Every order was there before. */
  ghost predicate Stems(books: Two<seq<Entry>>, books': Two<seq<Entry>>) {
    forall b: Bit, x {:trigger WasThere(books.At(b), x)} :: x in books'.At(b) ==> WasThere(books.At(b), x)
  }

  lemma StemsFurther(start: Two<seq<Entry>>, books: Two<seq<Entry>>, a: Action)
    requires Tidy(books) && Stems(start, books)
    ensures Stems(start, books.With(a.tree, Acted(books.At(a.tree), a)))
  {
    forall b: Bit, x | x in books.With(a.tree, Acted(books.At(a.tree), a)).At(b)
      ensures WasThere(start.At(b), x)
    {
      if b == a.tree {
        ActedOrigin(books.At(b), a, x);
        var y :| y in books.At(b) && x == Entry(y.slot, Requoted(y.order, x.order.quantity));
        assert WasThere(start.At(b), y);
      }
    }
  }

  lemma StemsFromItself(books: Two<seq<Entry>>)
    ensures Stems(books, books)
  {
    forall b: Bit, x | x in books.At(b)
      ensures WasThere(books.At(b), x)
    {
      assert x == Entry(x.slot, Requoted(x.order, x.order.quantity));
    }
  }

  lemma ActedFiled(es: seq<Entry>, a: Action, tree: Bit, side: Side)
    requires Ascending(es) && AllFiled(es, tree, side)
    ensures AllFiled(Acted(es, a), tree, side)
  {
    var es' := Acted(es, a);
    forall i | 0 <= i < |es'|
      ensures Filed(tree, es'[i].order, side)
    {
      ActedOrigin(es, a, es'[i]);
      var y :| y in es && es'[i] == Entry(y.slot, Requoted(y.order, es'[i].order.quantity));
      var k :| 0 <= k < |es| && es[k] == y;
      assert Filed(tree, es[k].order, side);
    }
  }

  lemma ActedUnrepeated(books: Two<seq<Entry>>, a: Action)
    requires Tidy(books) && Unrepeated(books)
    ensures Unrepeated(books.With(a.tree, Acted(books.At(a.tree), a)))
  {
    var books' := books.With(a.tree, Acted(books.At(a.tree), a));
    forall d, e | d in books'.fixed && e in books'.pegged
      ensures d.order.sequence != e.order.sequence
    {
      ActedOrigin(books.At(a.tree), a, if a.tree == 0 then d else e);
    }
  }

  lemma ActedGrounded(books: Two<seq<Entry>>, a: Action, rest: seq<Action>, e: Entry)
    requires Tidy(books) && Grounded(books, [a] + rest) && Names(books, a, e)
    ensures Grounded(books.With(a.tree, Acted(books.At(a.tree), a)), rest)
  {
    var all, books' := [a] + rest, books.With(a.tree, Acted(books.At(a.tree), a));
    forall i | 0 <= i < |rest|
      ensures Rests(books', rest[i])
    {
      assert all[0] == a && all[i + 1] == rest[i] && Rests(books, all[i + 1]);
      var x :| Names(books, rest[i], x);
      if rest[i].tree == a.tree { ActedElsewhereHas(books.At(a.tree), a, e, x); }
      assert Names(books', rest[i], x);
    }
    forall i, j | 0 <= i < j < |rest|
      ensures rest[i].tree != rest[j].tree || rest[i].slot != rest[j].slot
    {
      assert all[i + 1] == rest[i] && all[j + 1] == rest[j];
    }
  }

  // ----- the whole plan -----

  method ApplyOne(arena: Arena, a: Action)
    requires arena.Valid() && Rests(arena.Books(), a)
    modifies arena, arena.nodes
    ensures arena.Valid() && arena.Books() == old(arena.Books()).With(a.tree, Acted(old(arena.Book(a.tree)), a))
  {
    ghost var e :| Names(arena.Books(), a, e);
    EntryIsLeaf(arena.Value(), arena.trees, arena.free, a.tree, e);
    var handle := arena.Find(a.tree, a.key);
    assert handle == Ok(a.slot);
    if a.remove {
      var removed := arena.Remove(a.tree, a.key);
    } else {
      arena.SetQuantity(a.tree, a.slot, a.newQuantity, e);
    }
  }

  /** What is still to be applied. */
  ghost predicate Applying(books: Two<seq<Entry>>, rest: seq<Action>, terms: Terms) {
    Grounded(books, rest) && BooksFiled(books, terms.side) && Unrepeated(books) && Covers(books, rest, terms)
  }

  lemma CoversOn(books: Two<seq<Entry>>, a: Action, rest: seq<Action>, terms: Terms, e: Entry)
    requires Tidy(books) && Names(books, a, e) && ActionOn(rest, a.tree, a.slot).None?
             && Covers(books, [a] + rest, terms)
    ensures Covers(books.With(a.tree, Acted(books.At(a.tree), a)), rest, terms)
  {
    var books' := books.With(a.tree, Acted(books.At(a.tree), a));
    assert ([a] + rest)[1..] == rest;
    forall b: Bit, x | x in books'.At(b)
      ensures CoversAt(rest, terms, b, x)
    {
      if b == a.tree && x.slot == a.slot {
        ActedThereHas(books.At(a.tree), a, e, x);
        assert CoversAt([a] + rest, terms, b, e);
      } else {
        if b == a.tree { ActedElsewhereHas(books.At(a.tree), a, e, x); }
        assert CoversAt([a] + rest, terms, b, x);
      }
    }
  }

  lemma ApplyingOn(books: Two<seq<Entry>>, a: Action, rest: seq<Action>, terms: Terms)
    requires Tidy(books) && Applying(books, [a] + rest, terms)
    ensures Rests(books, a) && Applying(books.With(a.tree, Acted(books.At(a.tree), a)), rest, terms)
  {
    var all := [a] + rest;
    assert all[0] == a && Rests(books, all[0]);
    var e :| Names(books, a, e);
    ActedGrounded(books, a, rest, e);
    ActedFiled(books.At(a.tree), a, a.tree, terms.side);
    ActedUnrepeated(books, a);
    RestIsElsewhere(a, rest);
    CoversOn(books, a, rest, terms, e);
  }

  /** A phantom changes nothing. */
  lemma PhantomIsIdle(books: Two<seq<Entry>>, a: Action, rest: seq<Action>, e: Entry)
    requires Tidy(books) && Names(books, a, e) && a.phantom
    ensures books.With(a.tree, Acted(books.At(a.tree), a)) == books && Solid([a] + rest) == Solid(rest)
  {
    SameQuantity(books.At(a.tree), e);
    assert ([a] + rest)[1..] == rest && [] + Solid(rest) == Solid(rest);
  }

  /** Through the solid actions that are left, the same is seen after each. */
  lemma SeenOn(books: Two<seq<Entry>>, a: Action, rest: seq<Action>, terms: Terms, q: Quote)
    requires Tidy(books) && Grounded(books, [a] + rest)
    ensures Visible(books.With(a.tree, Acted(books.At(a.tree), a)), Solid(rest), terms, q)
       <==> Visible(books, Solid([a] + rest), terms, q)
  {
    var all := [a] + rest;
    assert all[0] == a && all[1..] == rest && Rests(books, all[0]);
    var e :| Names(books, a, e);
    if a.phantom {
      PhantomIsIdle(books, a, rest, e);
    } else {
      RestIsElsewhere(a, rest);
      SolidElsewhere(rest, a.tree, a.slot);
      AppliedShows(books, a, Solid(rest), terms, e, q);
    }
  }

  lemma UnplannedShows(books: Two<seq<Entry>>, none: seq<Action>, terms: Terms, q: Quote)
    requires none == []
    ensures q in Queue(books, terms) <==> Visible(books, none, terms, q)
  {
    QueueHas(books, terms, q);
    if q in Queue(books, terms) {
      var e :| e in books.At(q.tree) && QuoteOf(q.tree, e, terms) == Some(q);
      NothingPlanned(q.tree, e, terms);
      assert SeenAs(books, none, terms, q, e);
    }
    if Visible(books, none, terms, q) {
      var e :| SeenAs(books, none, terms, q, e);
      NothingPlanned(q.tree, e, terms);
    }
  }

  /** The books after a list of actions. */
  function ActedAll(books: Two<seq<Entry>>, actions: seq<Action>): Two<seq<Entry>>
    decreases |actions|
  {
    if actions == [] then books
    else ActedAll(books.With(actions[0].tree, Acted(books.At(actions[0].tree), actions[0])), actions[1..])
  }

  /** No order rests that cannot trade, now or later. */
  ghost predicate NoDead(books: Two<seq<Entry>>, terms: Terms) {
    forall b: Bit, e :: e in books.At(b) ==> !Dead(b, e.order, terms)
  }

  lemma CoveredIsAlive(books: Two<seq<Entry>>, none: seq<Action>, terms: Terms)
    requires none == [] && Covers(books, none, terms)
    ensures NoDead(books, terms)
  {
    forall b: Bit, e | e in books.At(b)
      ensures !Dead(b, e.order, terms)
    {
      assert CoversAt(none, terms, b, e);
    }
  }

  /** With `rest` still to come, the books are on the way to what the plan makes of them, and show the same. */
  ghost predicate OnTheWay(start: Two<seq<Entry>>, actions: seq<Action>, now: Two<seq<Entry>>, rest: seq<Action>,
                           terms: Terms) {
    && ActedAll(now, rest) == ActedAll(start, actions) && Stems(start, now)
    && forall q :: Visible(now, Solid(rest), terms, q) <==> Visible(start, Solid(actions), terms, q)
  }

  lemma OneFurther(start: Two<seq<Entry>>, actions: seq<Action>, now: Two<seq<Entry>>, a: Action, rest: seq<Action>,
                   terms: Terms)
    requires Tidy(now) && Grounded(now, [a] + rest) && OnTheWay(start, actions, now, [a] + rest, terms)
    ensures OnTheWay(start, actions, now.With(a.tree, Acted(now.At(a.tree), a)), rest, terms)
  {
    assert ([a] + rest)[1..] == rest;
    StemsFurther(start, now, a);
    forall q
      ensures Visible(now.With(a.tree, Acted(now.At(a.tree), a)), Solid(rest), terms, q)
         <==> Visible(start, Solid(actions), terms, q)
    {
      SeenOn(now, a, rest, terms, q);
    }
  }

  lemma AtTheEnd(start: Two<seq<Entry>>, actions: seq<Action>, now: Two<seq<Entry>>, none: seq<Action>, terms: Terms)
    requires none == [] && OnTheWay(start, actions, now, none, terms) && Covers(now, none, terms)
    ensures now == ActedAll(start, actions) && NoDead(now, terms) && Stems(start, now)
    ensures forall q :: q in Queue(now, terms) <==> Visible(start, Solid(actions), terms, q)
  {
    CoveredIsAlive(now, none, terms);
    forall q
      ensures q in Queue(now, terms) <==> Visible(start, Solid(actions), terms, q)
    {
      UnplannedShows(now, Solid(none), terms, q);
    }
  }

  /** One action, with `rest` to come. */
  method ApplyNext(arena: Arena, a: Action, ghost rest: seq<Action>, ghost terms: Terms, ghost start: Two<seq<Entry>>,
                   ghost actions: seq<Action>)
    requires arena.Valid() && Applying(arena.Books(), [a] + rest, terms)
    requires OnTheWay(start, actions, arena.Books(), [a] + rest, terms)
    modifies arena, arena.nodes
    ensures arena.Valid() && Applying(arena.Books(), rest, terms)
            && OnTheWay(start, actions, arena.Books(), rest, terms)
  {
    TidyArena(arena);
    ApplyingOn(arena.Books(), a, rest, terms);
    OneFurther(start, actions, arena.Books(), a, rest, terms);
    ApplyOne(arena, a);
  }

  /** Applies a plan: each of its actions is done and no other, no dead order is left, and the arena's queue becomes
      what was seen through the actions that are not phantoms. */
  method ApplySettlement(arena: Arena, actions: seq<Action>, ghost terms: Terms)
    requires arena.Valid() && Applying(arena.Books(), actions, terms)
    modifies arena, arena.nodes
    ensures arena.Valid() && BooksFiled(arena.Books(), terms.side) && Unrepeated(arena.Books())
    ensures arena.Books() == ActedAll(old(arena.Books()), actions) && Stems(old(arena.Books()), arena.Books())
    ensures NoDead(arena.Books(), terms)
    ensures forall q :: q in Queue(arena.Books(), terms) <==> Visible(old(arena.Books()), Solid(actions), terms, q)
  {
    ghost var books := arena.Books();
    StemsFromItself(books);
    for i := 0 to |actions|
      invariant arena.Valid() && Applying(arena.Books(), actions[i..], terms)
      invariant OnTheWay(books, actions, arena.Books(), actions[i..], terms)
    {
      assert actions[i..] == [actions[i]] + actions[i + 1..];
      ApplyNext(arena, actions[i], actions[i + 1..], terms, books, actions);
    }
    AtTheEnd(books, actions, arena.Books(), actions[|actions|..], terms);
  }

  // ----- planning and applying -----

  lemma {:induction false} PassedOverIn(queue: seq<Quote>, taker: Taker, n: nat, q: Quote) returns (i: nat)
    requires n <= |queue| && q in PassedOver(queue, taker, n)
    ensures i < n && queue[i] == q && q.order.owner == taker.owner
  {
    if q == queue[0] && q.order.owner == taker.owner {
      i := 0;
    } else {
      i := PassedOverIn(queue[1..], taker, n - 1, q);
      i := i + 1;
    }
  }

  lemma {:induction false} PassedOverSorted(side: Side, queue: seq<Quote>, taker: Taker, n: nat)
    requires n <= |queue| && Sorted(side, queue)
    ensures Sorted(side, PassedOver(queue, taker, n))
  {
    if n > 0 && taker.selfTrade == DecrementTake {
      PassedOverSorted(side, queue[1..], taker, n - 1);
      var rest := PassedOver(queue[1..], taker, n - 1);
      forall r | r in rest
        ensures Ahead(side, queue[0], r)
      {
        var i := PassedOverIn(queue[1..], taker, n - 1, r);
        assert queue[1..][i] == queue[i + 1];
      }
      SortedCons(side, queue[0], rest);
      assert [] + rest == rest;
    }
  }

  lemma SortedConcat(side: Side, a: seq<Quote>, b: seq<Quote>)
    requires Sorted(side, a) && Sorted(side, b) && forall x, y :: x in a && y in b ==> Ahead(side, x, y)
    ensures Sorted(side, a + b)
  {
    var ab := a + b;
    forall i, j | 0 <= i < j < |ab|
      ensures Ahead(side, ab[i], ab[j])
    {
      if i < |a| <= j { assert ab[i] in a && ab[j] in b; }
    }
  }

  lemma StaysAhead(side: Side, before: seq<Quote>, end: Trading, taker: Taker, n: nat, x: Quote, y: Quote)
    requires Sorted(side, before) && FrontMet(before, end, taker, n)
    requires x in PassedOver(before, taker, n) && y in end.queue
    ensures Ahead(side, x, y)
  {
    var i := PassedOverIn(before, taker, n, x);
    var j :| 0 <= j < |end.queue| && end.queue[j] == y;
    if end.queue == before[n..] {
      assert y == before[n + j];
    } else {
      assert y == if j == 0 then Reduced(before[n - 1], y.order.quantity) else before[n + j - 1];
    }
  }

  /** What is passed over keeps its place before the rest. */
  lemma StaysSorted(side: Side, before: seq<Quote>, end: Trading, taker: Taker, n: nat)
    requires Sorted(side, before) && Sorted(side, end.queue) && FrontMet(before, end, taker, n)
    ensures Sorted(side, PassedOver(before, taker, n) + end.queue)
  {
    PassedOverSorted(side, before, taker, n);
    forall x, y | x in PassedOver(before, taker, n) && y in end.queue
      ensures Ahead(side, x, y)
    {
      StaysAhead(side, before, end, taker, n, x, y);
    }
    SortedConcat(side, PassedOver(before, taker, n), end.queue);
  }

  /** The queue that an order leaves: own orders passed over, then what the outcome leaves. */
  function QueueAfter(books: Two<seq<Entry>>, terms: Terms, taker: Taker, end: Trading): seq<Quote>
    requires Met(end) <= |Queue(books, terms)|
  {
    PassedOver(Queue(books, terms), taker, Met(end)) + end.queue
  }

  lemma SettledQueue(books: Two<seq<Entry>>, books': Two<seq<Entry>>, terms: Terms, taker: Taker, plan: Plan,
                     end: Trading)
    requires PlansTo(books, terms, taker, plan, end) && FrontMet(Queue(books, terms), end, taker, Met(end))
    requires Tidy(books') && BooksFiled(books', terms.side) && Unrepeated(books')
    requires forall q :: q in Queue(books', terms) <==> Visible(books, Solid(plan.actions), terms, q)
    ensures Queue(books', terms) == QueueAfter(books, terms, taker, end)
  {
    var passed := PassedOver(Queue(books, terms), taker, Met(end));
    QueueSorted(books', terms);
    StaysSorted(terms.side, Queue(books, terms), end, taker, Met(end));
    forall q
      ensures q in Queue(books', terms) <==> q in passed + end.queue
    {
      SolidShows(books, plan.actions, terms, q);
    }
    SortedIsUnique(terms.side, Queue(books', terms), passed + end.queue);
  }

  lemma OutcomeTakesFront(books: Two<seq<Entry>>, order: OrderInput, oracle: Option<i64>, now: u64, limits: Limits)
    requires TakerPrice(order, oracle).Some?
    ensures var terms, end := TermsOf(order, oracle, now), Outcome(books, order, oracle, now, limits);
            FrontMet(Queue(books, terms), end, TakerOf(order, TakerPrice(order, oracle).value, order.selfTrade),
                     Met(end))
  {
    var terms, taker := TermsOf(order, oracle, now), TakerOf(order, TakerPrice(order, oracle).value, order.selfTrade);
    TradeTakesFront(Arriving(books, terms, order.quantity), taker, limits.maxFills, MAX_PLAN_ACTIONS);
  }

  /** The plan is the queue's outcome. The books stay if the taker gives up; else no dead order is left and the queue is
      the outcome's, behind own orders passed over. */
  ghost predicate Settled(books: Two<seq<Entry>>, books': Two<seq<Entry>>, order: OrderInput, oracle: Option<i64>,
                          now: u64, limits: Limits, plan: Plan)
    requires TakerPrice(order, oracle).Some?
  {
    var terms, end := TermsOf(order, oracle, now), Outcome(books, order, oracle, now, limits);
    && Planned(books, order, oracle, now, limits, plan)
    && if end.rejected || end.aborted then books' == books
       else
         && NoDead(books', terms) && Stems(books, books')
         && Queue(books', terms)
         == QueueAfter(books, terms, TakerOf(order, TakerPrice(order, oracle).value, order.selfTrade), end)
  }

  /** Applies a plan, unless the taker gives up. */
  method ApplyPlanned(arena: Arena, order: OrderInput, oracle: Option<i64>, now: u64, limits: Limits, plan: Plan)
    requires arena.Valid() && BooksFiled(arena.Books(), Opposite(order.side)) && Unrepeated(arena.Books())
    requires TakerPrice(order, oracle).Some? && Planned(arena.Books(), order, oracle, now, limits, plan)
    modifies arena, arena.nodes
    ensures arena.Valid() && BooksFiled(arena.Books(), Opposite(order.side)) && Unrepeated(arena.Books())
    ensures Settled(old(arena.Books()), arena.Books(), order, oracle, now, limits, plan)
  {
    if !plan.postOnlyRejected && !plan.selfTradeAborted {
      ghost var books, terms, end := arena.Books(), TermsOf(order, oracle, now),
          Outcome(arena.Books(), order, oracle, now, limits);
      ApplySettlement(arena, plan.actions, terms);
      TidyArena(arena);
      OutcomeTakesFront(books, order, oracle, now, limits);
      SettledQueue(books, arena.Books(), terms, TakerOf(order, TakerPrice(order, oracle).value, order.selfTrade),
                   plan, end);
    }
  }

  /** Plans, and applies the plan unless the taker gives up. */
  method Settle(arena: Arena, order: OrderInput, oracle: Option<i64>, now: u64,
                limits: Limits) returns (r: Result<Plan>)
    requires arena.Valid() && BooksFiled(arena.Books(), Opposite(order.side)) && Unrepeated(arena.Books())
    modifies arena, arena.nodes
    ensures arena.Valid() && BooksFiled(arena.Books(), Opposite(order.side)) && Unrepeated(arena.Books())
    ensures r.Err? <==> PlanError(old(arena.Books()), order, oracle, now, limits).Some?
    ensures r.Err? ==>
              && Some(r.error) == PlanError(old(arena.Books()), order, oracle, now, limits)
              && arena.Books() == old(arena.Books())
    ensures r.Ok? ==> Settled(old(arena.Books()), arena.Books(), order, oracle, now, limits, r.value)
  {
    r := PlanLimit(arena, order, oracle, now, limits);
    if r.Ok? {
      ApplyPlanned(arena, order, oracle, now, limits, r.value);
    }
  }

  // ----- against matching in place -----

  /** A taker with fewer makers met than steps taken has come to its end. */
  lemma {:induction false} FewMetIsOver(t: Trading, taker: Taker, maxFills: nat, steps: nat)
    requires Met(Trade(t, taker, maxFills, steps)) < Met(t) + steps
    ensures !Goes(Trade(t, taker, maxFills, steps), taker, maxFills)
    decreases steps
  {
    if steps > 0 && Goes(t, taker, maxFills) {
      var next := Meet(t, taker);
      if Abstains(taker, t.queue[0]) {
        assert Trade(next, taker, maxFills, steps - 1) == next;
      } else {
        FewMetIsOver(next, taker, maxFills, steps - 1);
      }
    }
  }

  /** More steps than makers to meet change nothing. */
  lemma {:induction false} EnoughSteps(t: Trading, taker: Taker, maxFills: nat, steps: nat, others: nat)
    requires var end := Trade(t, taker, maxFills, steps);
             !Goes(end, taker, maxFills) && Met(end) + (if end.rejected || end.aborted then 1 else 0) <= Met(t) + others
    ensures Trade(t, taker, maxFills, others) == Trade(t, taker, maxFills, steps)
    decreases steps
  {
    if Goes(t, taker, maxFills) {
      var next := Meet(t, taker);
      MetGrows(t, taker, maxFills, steps);
      if Abstains(taker, t.queue[0]) {
        assert Trade(next, taker, maxFills, steps - 1) == next == Trade(next, taker, maxFills, others - 1);
      } else {
        MetGrows(next, taker, maxFills, steps - 1);
        EnoughSteps(next, taker, maxFills, steps - 1, others - 1);
      }
    }
  }

  lemma {:induction false} MetWithin(t: Trading, taker: Taker, maxFills: nat, steps: nat)
    ensures Met(Trade(t, taker, maxFills, steps)) <= Met(t) + steps
    decreases steps
  {
    if steps > 0 && Goes(t, taker, maxFills) { MetWithin(Meet(t, taker), taker, maxFills, steps - 1); }
  }

  /** Only a post-only taker is refused, and it meets nobody. */
  lemma {:induction false} RefusedMeetsNobody(t: Trading, taker: Taker, maxFills: nat, steps: nat)
    requires taker.selfTrade == CancelProvide && !t.aborted && (t.rejected ==> taker.postOnly)
    ensures var end := Trade(t, taker, maxFills, steps); !end.aborted && (end.rejected ==> taker.postOnly)
    ensures taker.postOnly ==> Met(Trade(t, taker, maxFills, steps)) == Met(t)
    decreases steps
  {
    if steps > 0 && Goes(t, taker, maxFills) { RefusedMeetsNobody(Meet(t, taker), taker, maxFills, steps - 1); }
  }

  /** Sixteen steps and a smaller number of turns end alike exactly when no more makers are met than there are turns. */
  lemma SameEndIff(start: Trading, taker: Taker, maxFills: nat, turns: nat)
    requires start.fills == [] && start.selfCancelled == 0 && !start.rejected && !start.aborted
    requires taker.selfTrade == CancelProvide && turns <= MAX_PLAN_ACTIONS && (start.queue != [] ==> turns > 0)
    ensures var end, other := Trade(start, taker, maxFills, MAX_PLAN_ACTIONS), Trade(start, taker, maxFills, turns);
            && (Met(end) <= turns ==> other == end)
            && (Met(end) > turns ==> Met(other) < Met(end))
  {
    var all := MAX_PLAN_ACTIONS;
    var end := Trade(start, taker, maxFills, all);
    RefusedMeetsNobody(start, taker, maxFills, all);
    MetWithin(start, taker, maxFills, turns);
    if start.queue != [] && Met(end) <= turns && turns < all {
      FewMetIsOver(start, taker, maxFills, all);
      EnoughSteps(start, taker, maxFills, all, turns);
    }
  }

  /** Matching in place has turns for the makers that the outcome meets and for the dead heads in their way. */
  predicate TurnsSuffice(books: Two<seq<Entry>>, order: OrderInput, oracle: Option<i64>, now: u64, limits: Limits)
    requires TakerPrice(order, oracle).Some?
  {
    var terms, n := TermsOf(order, oracle, now), Met(Outcome(books, order, oracle, now, limits));
    n + InTheWay(AfterSweep(books, terms, limits), terms, limits.maxInvalid, n) <= Bound(limits)
  }

  /** The makers that matching in place comes to in its turns: one at least if there is any, and as many as the outcome
      meets exactly if the turns suffice. */
  lemma TurnsCompared(books: Two<seq<Entry>>, order: OrderInput, oracle: Option<i64>, now: u64, limits: Limits)
    requires TakerPrice(order, oracle).Some?
    requires var terms := TermsOf(order, oracle, now);
             Reach(AfterSweep(books, terms, limits), terms, limits.maxInvalid) == Queue(books, terms)
    ensures var terms, end := TermsOf(order, oracle, now), Outcome(books, order, oracle, now, limits);
            var turns := MakersIn(AfterSweep(books, terms, limits), terms, limits.maxInvalid, Bound(limits));
            && turns <= Bound(limits) && (Queue(books, terms) != [] ==> turns > 0)
            && (Met(end) <= turns <==> TurnsSuffice(books, order, oracle, now, limits))
  {
    var terms, end := TermsOf(order, oracle, now), Outcome(books, order, oracle, now, limits);
    var swept := AfterSweep(books, terms, limits);
    OutcomeTakesFront(books, order, oracle, now, limits);
    TurnsSufficeIff(swept, terms, limits.maxInvalid, Bound(limits), Met(end));
    MakersWithin(swept, terms, limits.maxInvalid, Bound(limits));
    InTheWayWithin(swept, terms, limits.maxInvalid, 1);
    if Queue(books, terms) != [] { TurnsSufficeIff(swept, terms, limits.maxInvalid, Bound(limits), 1); }
  }

  /** The same fills and counters, and unless a post-only order is refused the same queue. */
  predicate Agree(plan: Plan, planned: Two<seq<Entry>>, r: MatchResult, matched: Two<seq<Entry>>, terms: Terms) {
    && plan.fills == r.fills && plan.remaining == r.remaining && plan.selfCancelled == r.selfCancelled
    && plan.postOnlyRejected == r.postOnlyRejected
    && (!plan.postOnlyRejected ==> Queue(planned, terms) == Queue(matched, terms))
  }

  lemma EnginesAgree(books: Two<seq<Entry>>, planned: Two<seq<Entry>>, matched: Two<seq<Entry>>, order: OrderInput,
                     oracle: Option<i64>, now: u64, limits: Limits, plan: Plan, r: MatchResult)
    requires !BadLimits(order, limits) && !BadTakerPrice(order, oracle) && order.selfTrade == CancelProvide
    requires ClearingFits(books, TermsOf(order, oracle, now), limits)
    requires Settled(books, planned, order, oracle, now, limits, plan)
    requires IsMatched(books, matched, order, oracle, now, limits, r)
    ensures Agree(plan, planned, r, matched, TermsOf(order, oracle, now))
       <==> TurnsSuffice(books, order, oracle, now, limits)
  {
    var terms, taker := TermsOf(order, oracle, now), TakerOf(order, TakerPrice(order, oracle).value, CancelProvide);
    var start := Arriving(books, terms, order.quantity);
    TurnsCompared(books, order, oracle, now, limits);
    SameEndIff(start, taker, limits.maxFills,
               MakersIn(AfterSweep(books, terms, limits), terms, limits.maxInvalid, Bound(limits)));
    RefusedMeetsNobody(start, taker, limits.maxFills, MAX_PLAN_ACTIONS);
    var end := Outcome(books, order, oracle, now, limits);
    assert QueueAfter(books, terms, taker, end) == end.queue;
  }

  /** Two arenas with the same orders, one settled by a plan and one matched in place. When the plan succeeds so does
      the match, and the two agree if and only if the turns suffice; they always do when no more than `maxExpired + 2`
      of the taker's own orders cross. */
  method CompareEngines(planned: Arena, matched: Arena, order: OrderInput, oracle: Option<i64>, now: u64,
                        limits: Limits)
    returns (plan: Result<Plan>, result: Result<MatchResult>)
    requires planned.Valid() && matched.Valid() && planned != matched && planned.nodes != matched.nodes
    requires planned.Books() == matched.Books() && BooksFiled(planned.Books(), Opposite(order.side))
    requires Unrepeated(planned.Books())
    requires order.selfTrade == CancelProvide
    modifies planned, planned.nodes, matched, matched.nodes
    ensures planned.Valid() && matched.Valid()
    ensures plan.Err? <==> PlanError(old(planned.Books()), order, oracle, now, limits).Some?
    ensures plan.Ok? ==>
              && result.Ok?
              && (Agree(plan.value, planned.Books(), result.value, matched.Books(), TermsOf(order, oracle, now))
                  <==> TurnsSuffice(old(planned.Books()), order, oracle, now, limits))
              && (OwnInTheWay(old(planned.Books()), order, oracle, now) <= limits.maxExpired + 2 ==>
                    Agree(plan.value, planned.Books(), result.value, matched.Books(), TermsOf(order, oracle, now)))
  {
    ghost var books := planned.Books();
    plan := Settle(planned, order, oracle, now, limits);
    ghost var settled := planned.Books();
    result := MatchOpposing(matched, order, oracle, now, limits);
    if plan.Ok? {
      EnginesAgree(books, settled, matched.Books(), order, oracle, now, limits, plan.value, result.value);
      FewOwnSuffice(books, order, oracle, now, limits);
    }
  }

  /** How many of the taker's own orders cross. */
  function OwnInTheWay(books: Two<seq<Entry>>, order: OrderInput, oracle: Option<i64>, now: u64): nat
    requires TakerPrice(order, oracle).Some?
  {
    OwnCrossing(Queue(books, TermsOf(order, oracle, now)),
                TakerOf(order, TakerPrice(order, oracle).value, order.selfTrade))
  }

  lemma FewOwnSuffice(books: Two<seq<Entry>>, order: OrderInput, oracle: Option<i64>, now: u64, limits: Limits)
    requires TakerPrice(order, oracle).Some?
    ensures OwnInTheWay(books, order, oracle, now) <= limits.maxExpired + 2 ==>
              TurnsSuffice(books, order, oracle, now, limits)
  {
    var terms, taker := TermsOf(order, oracle, now), TakerOf(order, TakerPrice(order, oracle).value, order.selfTrade);
    var start := Arriving(books, terms, order.quantity);
    FewFills(start, taker, limits.maxFills, MAX_PLAN_ACTIONS);
    CancelsAreOwn(start, taker, limits.maxFills, MAX_PLAN_ACTIONS);
    InTheWayWithin(AfterSweep(books, terms, limits), terms, limits.maxInvalid,
                   Met(Outcome(books, order, oracle, now, limits)));
  }

  lemma {:induction false} FewFills(t: Trading, taker: Taker, maxFills: nat, steps: nat)
    requires |t.fills| <= maxFills
    ensures |Trade(t, taker, maxFills, steps).fills| <= maxFills
    decreases steps
  {
    if steps > 0 && Goes(t, taker, maxFills) { FewFills(Meet(t, taker), taker, maxFills, steps - 1); }
  }
}
