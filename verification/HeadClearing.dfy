/**
 The order in which `match_limit_arenas` of `programs/equinox/src/book.rs` comes to
 the makers, on values: it looks at the heads of two trees, clears a dead head
 while it may, and otherwise takes the better head. A dead head that it may no
 longer clear hides its whole tree.
 */
module HeadClearing {
  import opened Wrappers
  import opened OrderKeys
  import opened Patricia
  import opened ArenaLayout
  import opened Matching

  /** The tree whose dead head is cleared next, the fixed one first. */
  function NextDead(books: Two<seq<Entry>>, terms: Terms): (tree: Option<Bit>)
    ensures tree.Some? ==> DeadHead(books.At(tree.value), tree.value, terms)
  {
    if DeadHead(books.fixed, 0, terms) then Some(0) else if DeadHead(books.pegged, 1, terms) then Some(1) else None
  }

  function Beheaded(books: Two<seq<Entry>>, tree: Bit): Two<seq<Entry>>
    requires books.At(tree) != []
  {
    books.With(tree, books.At(tree)[1..])
  }

  function OrdersIn(books: Two<seq<Entry>>): nat {
    |books.fixed| + |books.pegged|
  }

  /** The makers in the order matching comes to them when it may clear `budget` dead heads. */
  function Reach(books: Two<seq<Entry>>, terms: Terms, budget: nat): seq<Quote>
    decreases OrdersIn(books)
  {
    var dead, q := NextDead(books, terms), Candidate(books, terms);
    if dead.Some? && budget > 0 then Reach(Beheaded(books, dead.value), terms, budget - 1)
    else if q.None? then []
    else [q.value] + Reach(Beheaded(books, q.value.tree), terms, budget)
  }

  /** How many makers it comes to in so many turns, a turn for each head cleared or taken. */
  function MakersIn(books: Two<seq<Entry>>, terms: Terms, budget: nat, turns: nat): nat
    decreases turns
  {
    var dead, q := NextDead(books, terms), Candidate(books, terms);
    if turns == 0 then 0
    else if dead.Some? && budget > 0 then MakersIn(Beheaded(books, dead.value), terms, budget - 1, turns - 1)
    else if q.None? then 0
    else 1 + MakersIn(Beheaded(books, q.value.tree), terms, budget, turns - 1)
  }

  /** How many dead heads it clears on the way to the `n`-th maker. */
  function InTheWay(books: Two<seq<Entry>>, terms: Terms, budget: nat, n: nat): nat
    decreases OrdersIn(books)
  {
    var dead, q := NextDead(books, terms), Candidate(books, terms);
    if n == 0 then 0
    else if dead.Some? && budget > 0 then 1 + InTheWay(Beheaded(books, dead.value), terms, budget - 1, n)
    else if q.None? then 0
    else InTheWay(Beheaded(books, q.value.tree), terms, budget, n - 1)
  }

  /** The turns suffice for `n` makers exactly if they are as many as the makers and the dead heads in the way. */
  lemma {:induction false} TurnsSufficeIff(books: Two<seq<Entry>>, terms: Terms, budget: nat, turns: nat, n: nat)
    requires n <= |Reach(books, terms, budget)|
    ensures n <= MakersIn(books, terms, budget, turns) <==> n + InTheWay(books, terms, budget, n) <= turns
    decreases OrdersIn(books)
  {
    var dead, q := NextDead(books, terms), Candidate(books, terms);
    if dead.Some? && budget > 0 {
      if turns > 0 { TurnsSufficeIff(Beheaded(books, dead.value), terms, budget - 1, turns - 1, n); }
    } else if q.Some? && n > 0 && turns > 0 {
      TurnsSufficeIff(Beheaded(books, q.value.tree), terms, budget, turns - 1, n - 1);
    }
  }

  lemma {:induction false} MakersWithin(books: Two<seq<Entry>>, terms: Terms, budget: nat, turns: nat)
    ensures MakersIn(books, terms, budget, turns) <= turns
    decreases turns
  {
    var dead, q := NextDead(books, terms), Candidate(books, terms);
    if turns > 0 {
      if dead.Some? && budget > 0 {
        MakersWithin(Beheaded(books, dead.value), terms, budget - 1, turns - 1);
      } else if q.Some? {
        MakersWithin(Beheaded(books, q.value.tree), terms, budget, turns - 1);
      }
    }
  }

  lemma {:induction false} InTheWayWithin(books: Two<seq<Entry>>, terms: Terms, budget: nat, n: nat)
    ensures InTheWay(books, terms, budget, n) <= budget
    decreases OrdersIn(books)
  {
    var dead, q := NextDead(books, terms), Candidate(books, terms);
    if dead.Some? && budget > 0 {
      InTheWayWithin(Beheaded(books, dead.value), terms, budget - 1, n);
    } else if q.Some? && n > 0 {
      InTheWayWithin(Beheaded(books, q.value.tree), terms, budget, n - 1);
    }
  }

  // ----- against the queue of all makers -----

  function DeadIn(books: Two<seq<Entry>>, terms: Terms): nat {
    CountDead(books.fixed, 0, terms) + CountDead(books.pegged, 1, terms)
  }

  lemma ClearedQueue(books: Two<seq<Entry>>, terms: Terms, tree: Bit)
    requires DeadHead(books.At(tree), tree, terms)
    ensures var books' := Beheaded(books, tree);
            Queue(books', terms) == Queue(books, terms) && DeadIn(books', terms) + 1 == DeadIn(books, terms)
  {
    DropDead(books.At(tree), tree, terms);
  }

  /** The better head is the queue's front exactly if no dead head hides the front's tree. */
  lemma CandidateIsFrontIff(books: Two<seq<Entry>>, terms: Terms)
    requires Queue(books, terms) != []
    ensures var q, queue := Candidate(books, terms), Queue(books, terms);
            && (q == Some(queue[0]) <==> !DeadHead(books.At(queue[0].tree), queue[0].tree, terms))
            && (q == Some(queue[0]) ==> Queue(Beheaded(books, q.value.tree), terms) == queue[1..])
  {
    FirstsCompared(books, terms);
    var front := Queue(books, terms)[0];
    if !DeadHead(books.At(front.tree), front.tree, terms) {
      HeadIsFirst(books.At(front.tree), front.tree, terms);
      if !DeadHead(books.At(1 - front.tree), 1 - front.tree, terms) {
        HeadIsFirst(books.At(1 - front.tree), 1 - front.tree, terms);
      }
      var a, b := Quotes(books.fixed, 0, terms), Quotes(books.pegged, 1, terms);
      if front.tree == 0 {
        assert a[1..] == Quotes(books.fixed[1..], 0, terms);
      } else {
        assert b[1..] == Quotes(books.pegged[1..], 1, terms);
      }
    }
  }

  lemma {:induction false} QuotesOfTree(es: seq<Entry>, tree: Bit, terms: Terms)
    ensures forall q :: q in Quotes(es, tree, terms) ==> q.tree == tree
  {
    if es != [] { QuotesOfTree(es[1..], tree, terms); }
  }

  /** The queue's front is the better of the two trees' first quotes. */
  lemma FirstsCompared(books: Two<seq<Entry>>, terms: Terms)
    requires Queue(books, terms) != []
    ensures var a, b, front := Quotes(books.fixed, 0, terms), Quotes(books.pegged, 1, terms), Queue(books, terms)[0];
            && (front.tree == 0 ==> a != [] && front == a[0] && (b == [] || !Ahead(terms.side, b[0], a[0])))
            && (front.tree == 1 ==> b != [] && front == b[0] && (a == [] || Ahead(terms.side, b[0], a[0])))
  {
    QuotesOfTree(books.fixed, 0, terms);
    QuotesOfTree(books.pegged, 1, terms);
  }

  /** With room to clear every dead order, it is the whole queue. */
  lemma {:induction false} ReachIsQueue(books: Two<seq<Entry>>, terms: Terms, budget: nat)
    requires DeadIn(books, terms) <= budget
    ensures Reach(books, terms, budget) == Queue(books, terms)
    decreases OrdersIn(books)
  {
    var dead, q := NextDead(books, terms), Candidate(books, terms);
    if dead.Some? {
      ClearedQueue(books, terms, dead.value);
      ReachIsQueue(Beheaded(books, dead.value), terms, budget - 1);
    } else {
      CandidateIsFront(books, terms);
      if q.Some? {
        BeheadedDead(books, terms, q.value.tree);
        ReachIsQueue(Beheaded(books, q.value.tree), terms, budget);
      }
    }
  }

  lemma BeheadedDead(books: Two<seq<Entry>>, terms: Terms, tree: Bit)
    requires books.At(tree) != []
    ensures DeadIn(Beheaded(books, tree), terms) <= DeadIn(books, terms)
  {}

  /** Among the first `n` of the queue is one of this tree. */
  predicate Wanted(books: Two<seq<Entry>>, terms: Terms, tree: Bit, n: nat) {
    exists i :: 0 <= i < n && i < |Queue(books, terms)| && Queue(books, terms)[i].tree == tree
  }

  /** How many dead heads must be cleared, the others before them included, so that none hides one of the first `n`. */
  function Needed(books: Two<seq<Entry>>, terms: Terms, n: nat): nat
    decreases OrdersIn(books)
  {
    var dead, q := NextDead(books, terms), Candidate(books, terms);
    if dead.Some? then
      var later := Needed(Beheaded(books, dead.value), terms, n);
      if later > 0 || Wanted(books, terms, dead.value, n) then later + 1 else 0
    else if n == 0 || q.None? then 0
    else Needed(Beheaded(books, q.value.tree), terms, n - 1)
  }

  /** The first `n` makers come in their order. */
  predicate InOrderTo(books: Two<seq<Entry>>, terms: Terms, budget: nat, n: nat)
    requires n <= |Queue(books, terms)|
  {
    var reach := Reach(books, terms, budget);
    n <= |reach| && reach[..n] == Queue(books, terms)[..n]
  }

  lemma PrefixCons(q: Quote, a: seq<Quote>, b: seq<Quote>, n: nat)
    requires 0 < n <= |b| + 1
    ensures n <= |a| + 1 && ([q] + a)[..n] == ([q] + b)[..n] <==> n - 1 <= |a| && a[..n - 1] == b[..n - 1]
  {
    if n <= |a| + 1 {
      assert ([q] + a)[..n] == [q] + a[..n - 1];
      assert ([q] + b)[..n] == [q] + b[..n - 1];
      assert ([q] + a[..n - 1])[1..] == a[..n - 1];
      assert ([q] + b[..n - 1])[1..] == b[..n - 1];
    }
  }

  /** The first in order: the rest is that of the books without it. */
  lemma InOrderOn(books: Two<seq<Entry>>, terms: Terms, n: nat)
    requires 0 < n <= |Queue(books, terms)|
    ensures var front := Queue(books, terms)[0];
            if DeadHead(books.At(front.tree), front.tree, terms) then !InOrderTo(books, terms, 0, n)
            else
              && books.At(front.tree) != [] && Queue(Beheaded(books, front.tree), terms) == Queue(books, terms)[1..]
              && (InOrderTo(books, terms, 0, n) <==> InOrderTo(Beheaded(books, front.tree), terms, 0, n - 1))
  {
    CandidateIsFrontIff(books, terms);
    var queue, q, reach := Queue(books, terms), Candidate(books, terms), Reach(books, terms, 0);
    var front := queue[0];
    if DeadHead(books.At(front.tree), front.tree, terms) {
      assert q.Some? ==> reach[0] == q.value;
      assert queue[..n][0] == front && (n <= |reach| ==> reach[..n][0] == reach[0]);
    } else {
      assert queue == [front] + queue[1..];
      PrefixCons(front, Reach(Beheaded(books, front.tree), terms, 0), queue[1..], n);
    }
  }

  lemma WantedOn(books: Two<seq<Entry>>, terms: Terms, tree: Bit, other: Bit, n: nat)
    requires 0 < n <= |Queue(books, terms)| && Queue(books, terms)[0].tree == other && other != tree
    requires books.At(other) != [] && Queue(Beheaded(books, other), terms) == Queue(books, terms)[1..]
    ensures Wanted(books, terms, tree, n) <==> Wanted(Beheaded(books, other), terms, tree, n - 1)
  {
    var queue, rest := Queue(books, terms), Queue(Beheaded(books, other), terms);
    assert forall i :: 0 <= i < |rest| ==> rest[i] == queue[i + 1];
    if Wanted(books, terms, tree, n) {
      var i :| 0 <= i < n && i < |queue| && queue[i].tree == tree;
      assert rest[i - 1].tree == tree;
    }
    if Wanted(Beheaded(books, other), terms, tree, n - 1) {
      var i :| 0 <= i < n - 1 && i < |rest| && rest[i].tree == tree;
      assert queue[i + 1].tree == tree;
    }
  }

  /** With nothing to be cleared any more, a dead head matters exactly if its tree is wanted. */
  lemma {:induction false} DeadHeadHides(books: Two<seq<Entry>>, terms: Terms, tree: Bit, n: nat)
    requires DeadHead(books.At(tree), tree, terms) && n <= |Queue(books, terms)|
    ensures Queue(Beheaded(books, tree), terms) == Queue(books, terms)
    ensures InOrderTo(books, terms, 0, n)
       <==> InOrderTo(Beheaded(books, tree), terms, 0, n) && !Wanted(books, terms, tree, n)
    decreases n
  {
    ClearedQueue(books, terms, tree);
    var books', queue := Beheaded(books, tree), Queue(books, terms);
    if n > 0 {
      InOrderOn(books, terms, n);
      InOrderOn(books', terms, n);
      if queue[0].tree == tree {
        assert Wanted(books, terms, tree, n);
      } else if !DeadHead(books.At(1 - tree), 1 - tree, terms) {
        DeadHeadHides(Beheaded(books, 1 - tree), terms, tree, n - 1);
        WantedOn(books, terms, tree, 1 - tree, n);
        assert Beheaded(Beheaded(books, 1 - tree), tree) == Beheaded(books', 1 - tree);
      }
    }
  }

  lemma {:induction false} NothingToClear(books: Two<seq<Entry>>, terms: Terms, n: nat)
    requires n <= |Queue(books, terms)|
    ensures InOrderTo(books, terms, 0, n) <==> Needed(books, terms, n) == 0
    decreases OrdersIn(books)
  {
    var dead := NextDead(books, terms);
    if dead.Some? {
      DeadHeadHides(books, terms, dead.value, n);
      NothingToClear(Beheaded(books, dead.value), terms, n);
    } else if n > 0 {
      CandidateIsFront(books, terms);
      InOrderOn(books, terms, n);
      NothingToClear(Beheaded(books, Queue(books, terms)[0].tree), terms, n - 1);
    }
  }

  /** Matching in place comes to the first `n` makers in price-time order if and only if it may clear as many dead
      heads as are needed. */
  lemma {:induction false} PriorityKeptIff(books: Two<seq<Entry>>, terms: Terms, budget: nat, n: nat)
    requires n <= |Queue(books, terms)|
    ensures InOrderTo(books, terms, budget, n) <==> Needed(books, terms, n) <= budget
    decreases OrdersIn(books)
  {
    var dead := NextDead(books, terms);
    if budget == 0 {
      NothingToClear(books, terms, n);
    } else if dead.Some? {
      ClearedQueue(books, terms, dead.value);
      PriorityKeptIff(Beheaded(books, dead.value), terms, budget - 1, n);
    } else {
      CandidateIsFront(books, terms);
      if n > 0 {
        var queue := Queue(books, terms);
        var rest := Beheaded(books, queue[0].tree);
        PriorityKeptIff(rest, terms, budget, n - 1);
        assert queue == [queue[0]] + queue[1..];
        PrefixCons(queue[0], Reach(rest, terms, budget), queue[1..], n);
      }
    }
  }

  lemma {:induction false} MergeLength(side: Side, a: seq<Quote>, b: seq<Quote>)
    ensures |Merge(side, a, b)| == |a| + |b|
  {
    if a != [] && b != [] {
      if Ahead(side, b[0], a[0]) { MergeLength(side, a, b[1..]); } else { MergeLength(side, a[1..], b); }
    }
  }

  lemma BeheadedLength(books: Two<seq<Entry>>, terms: Terms, tree: Bit)
    requires books.At(tree) != []
    ensures |Queue(Beheaded(books, tree), terms)|
         == |Queue(books, terms)| - if QuoteOf(tree, books.At(tree)[0], terms).Some? then 1 else 0
  {
    var books' := Beheaded(books, tree);
    MergeLength(terms.side, Quotes(books.fixed, 0, terms), Quotes(books.pegged, 1, terms));
    MergeLength(terms.side, Quotes(books'.fixed, 0, terms), Quotes(books'.pegged, 1, terms));
  }

  lemma {:induction false} ReachWithin(books: Two<seq<Entry>>, terms: Terms, budget: nat)
    ensures |Reach(books, terms, budget)| <= |Queue(books, terms)|
    decreases OrdersIn(books)
  {
    var dead, q := NextDead(books, terms), Candidate(books, terms);
    if dead.Some? && budget > 0 {
      ClearedQueue(books, terms, dead.value);
      ReachWithin(Beheaded(books, dead.value), terms, budget - 1);
    } else if q.Some? {
      BeheadedLength(books, terms, q.value.tree);
      ReachWithin(Beheaded(books, q.value.tree), terms, budget);
    }
  }
}
