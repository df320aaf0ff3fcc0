/** The matching engine: the books by stock, the slab of order nodes, and the
    notifications handed to trader sessions. Each instruction handler is
    shown to do on the heap what the value-level step of module Matching
    does to the market, and to keep the engine's invariant. */
module Matcher {
  import opened Ints
  import opened Fmath
  import opened ServerProto
  import opened Matching
  import opened Pqueue

  /** One more fill at the end adds that trade's notifications at the end. */
  lemma FillNotesSnoc(sessions: set<u32>, fills: seq<Fill>, f: Fill)
    ensures FillNotes(sessions, fills + [f]) == FillNotes(sessions, fills) + TradeNotes(sessions, PARTIAL, FULL, f)
  {
    assert (fills + [f])[..|fills|] == fills;
  }

  /** `s.ReduceQuantity(amount)` on the best resting sell of a book: the
      book stays valid and only the head of its sell side changes. */
  method ReduceBestSell(q: MatchQueues, s: OrderNode, amount: u64)
    requires q.Valid() && q.sells != [] && q.sells[0] == s && amount <= s.quantity
    modifies s`quantity
    ensures q.Valid() && s.Rec() == old(s.Rec()).(quantity := old(s.quantity) - amount)
    ensures q.Contents().buys == old(q.Contents().buys) && q.Contents().sells == [s.Rec()] + old(q.Contents().sells[1..])
  {
    label Before:
    s.ReduceQuantity(amount);
    q.BestSellUpdated@Before(s);
  }

  /** `b.ReduceQuantity(amount)` on the best resting buy of a book. */
  method ReduceBestBuy(q: MatchQueues, b: OrderNode, amount: u64)
    requires q.Valid() && q.buys != [] && q.buys[0] == b && amount <= b.quantity
    modifies b`quantity
    ensures q.Valid() && b.Rec() == old(b.Rec()).(quantity := old(b.quantity) - amount)
    ensures q.Contents().sells == old(q.Contents().sells) && q.Contents().buys == [b.Rec()] + old(q.Contents().buys[1..])
  {
    label Before:
    b.ReduceQuantity(amount);
    q.BestBuyUpdated@Before(b);
  }

  /** Setting a key twice keeps the second value. */
  lemma UpdateTwice(m: Market, k: u64, a: Book, b: Book)
    ensures m[k := a][k := b] == m[k := b]
  {
  }

  /** A side is what was used up of it and what is left. */
  lemma SplitAt(s: seq<OrderNode>, k: nat)
    requires k <= |s|
    ensures s[..k] + s[k..] == s
  {
  }

  /** One more node used up from the front of what is left of `side`, and
      freed after the others: the used-up prefix grows by it, and it lies
      in front of them on the free list. */
  lemma UsedOneMore(side: seq<OrderNode>, k: nat, used: seq<OrderNode>, free0: seq<OrderNode>)
    requires k < |side| && |used| == 1 && used[0] == side[k]
    ensures side[..k + 1] == side[..k] + used
    ensures PushAll(side[..k + 1], free0) == used + PushAll(side[..k], free0)
  {
    assert used == [side[k]];
    assert side[..k + 1] == side[..k] + used;
    PushAllSnoc(side[..k], side[k], free0);
  }

  /** The nodes of a free list and of the two sides of a book: a trade moves
      nodes from the book to the free list and loses none. */
  ghost function Pooled(free: seq<OrderNode>, buys: seq<OrderNode>, sells: seq<OrderNode>): set<OrderNode>
  {
    Elems(free) + Elems(buys) + Elems(sells)
  }

  /** Resting a node on one side adds just that node. */
  lemma PooledRest(free: seq<OrderNode>, side: seq<OrderNode>, side': seq<OrderNode>, other: seq<OrderNode>, o: OrderNode)
    requires Elems(side') == Elems(side) + {o}
    ensures Pooled(free, side', other) == Pooled(free, side, other) + {o}
    ensures Pooled(free, other, side') == Pooled(free, other, side) + {o}
  {
  }

  /** When the nodes `used` leave the front of one side of a book and are
      pushed onto the free list, followed by the incoming node `o` when it
      was used up, the nodes of the book and the free list are those there
      were, and `o` when it was used up. */
  lemma FreedKeepsNodes(side0: seq<OrderNode>, used: seq<OrderNode>, side: seq<OrderNode>, other: seq<OrderNode>,
                        filled: bool, o: OrderNode, free0: seq<OrderNode>, free: seq<OrderNode>)
    requires side0 == used + side && free == (if filled then [o] else []) + PushAll(used, free0)
    ensures Pooled(free, other, side) == Pooled(free0, other, side0) + (if filled then {o} else {})
    ensures Pooled(free, side, other) == Pooled(free0, side0, other) + (if filled then {o} else {})
  {
    var incoming := if filled then [o] else [];
    PushAllElems(used, free0);
    ElemsConcat(incoming, PushAll(used, free0));
    ElemsConcat(used, side);
    assert Elems(incoming) == if filled then {o} else {};
  }

  /** Taking a node that is not in `rest` from one part of a union takes it
      from the union. */
  lemma LeaveOne(pool: set<OrderNode>, rest: set<OrderNode>, o: OrderNode)
    requires o !in rest
    ensures (pool - {o}) + rest == (pool + rest) - {o}
  {
  }

  /** A node taken out and then put back: the set gains it. */
  lemma BackOne(s0: set<OrderNode>, s1: set<OrderNode>, s2: set<OrderNode>, o: OrderNode)
    requires s1 == s0 - {o} && s2 == s1 + {o}
    ensures s2 == s0 + {o}
  {
  }

  /** Adding one node to one part of a union adds it to the union. */
  lemma JoinOne(beside: set<OrderNode>, pool0: set<OrderNode>, pool: set<OrderNode>, o: OrderNode)
    requires pool == pool0 + {o}
    ensures beside + pool == beside + pool0 + {o}
  {
  }

  /** cancel gives back the request node `o` and the node it removed from
      the book, if any: the nodes of the book and the free list gain `o`. */
  lemma PooledCancel(free0: seq<OrderNode>, buys0: seq<OrderNode>, sells0: seq<OrderNode>,
                     free: seq<OrderNode>, buys: seq<OrderNode>, sells: seq<OrderNode>, o: OrderNode, removed: seq<OrderNode>)
    requires |removed| <= 1 && (removed != [] ==> removed[0] in buys0 || removed[0] in sells0)
    requires Elems(buys) + Elems(sells) == Elems(buys0) + Elems(sells0) - Elems(removed)
    requires free == [o] + removed + free0
    ensures Pooled(free, buys, sells) == Pooled(free0, buys0, sells0) + {o}
  {
    ElemsConcat([o] + removed, free0);
    ElemsConcat([o], removed);
    assert Elems([o]) == {o};
    if removed != [] {
      assert Elems(removed) == {removed[0]};
      assert removed[0] in Elems(buys0) + Elems(sells0);
    }
    forall n ensures n in Pooled(free, buys, sells) <==> n in Pooled(free0, buys0, sells0) + {o} {
      assert n in Pooled(free, buys, sells) <==> n in Elems(free) || n in Elems(buys) + Elems(sells);
    }
  }

  /** The free list after one more pass: what the pass freed in front of
      what the passes before it freed. */
  lemma FreedMore(free: seq<OrderNode>, step: seq<OrderNode>, incoming: seq<OrderNode>, used: seq<OrderNode>,
                  freed: seq<OrderNode>, freed': seq<OrderNode>)
    requires free == step + freed && step == incoming + used && freed' == used + freed
    ensures free == incoming + freed'
  {
  }

  class TradeMatcher {
    /** The trader ids that have a session; notifications to any other id
        are dropped. */
    var sessions: set<u32>
    var matchQueues: map<u64, MatchQueues>
    var slab: Slab

    /** NewMatcher, given the sessions that are connected: no books and a
        slab of 20 nodes. */
    constructor (sessions: set<u32>)
      ensures Inv() && Market() == map[] && this.sessions == sessions
    {
      this.sessions := sessions;
      matchQueues := map[];
      slab := new Slab(20);
    }

    /** The nodes resting in some book. */
    ghost function Resting(): set<OrderNode>
      reads this, matchQueues.Values
    {
      set k, n | k in matchQueues && n in matchQueues[k].Nodes() :: n
    }

    /** The resting nodes of every book but the one of stock `k`. */
    ghost function RestingBeside(k: u64): set<OrderNode>
      reads this, matchQueues.Values
    {
      set k', n | k' in matchQueues && k' != k && n in matchQueues[k'].Nodes() :: n
    }

    /** The nodes the engine holds: those on the free list and those resting
        in a book. Every node process takes ends up in one of the two. */
    ghost function Live(): set<OrderNode>
      reads this, slab, matchQueues.Values
    {
      Elems(slab.free) + Resting()
    }

    /** The nodes the engine holds, split into the resting nodes of the
        other books and the nodes of the book of stock `k` and the free list. */
    lemma LiveSplit(k: u64)
      requires k in matchQueues
      ensures Live() == RestingBeside(k) + Pooled(slab.free, matchQueues[k].buys, matchQueues[k].sells)
    {
      assert Resting() == RestingBeside(k) + matchQueues[k].Nodes();
    }

    /** No node is both free and resting. */
    lemma FreeApartFromResting()
      requires Inv()
      ensures Elems(slab.free) !! Resting()
    {
    }

    /** Each stock has its own book, every book is valid, and the free list
        holds distinct unlinked nodes (so no node is both free and resting,
        and no node rests in two books). */
    ghost predicate Inv()
      reads this, slab, slab.free, matchQueues.Values, Resting()
    {
      slab.Valid()
      && (forall k1, k2 :: k1 in matchQueues && k2 in matchQueues && k1 != k2 ==> matchQueues[k1] != matchQueues[k2])
      && (forall k :: k in matchQueues ==> matchQueues[k].Valid())
    }

    /** The contents of every book, by stock. */
    ghost function Market(): Market
      reads this, matchQueues.Values, Resting()
    {
      map k | k in matchQueues :: matchQueues[k].Contents()
    }

    /** When only the book of `k`, its nodes, nodes linked nowhere and the
        slab changed, every other book keeps its contents and stays valid. */
    twostate lemma OtherBooksKept(k: u64)
      requires old(Inv()) && k in old(matchQueues) && matchQueues == old(matchQueues)
      requires slab == old(slab) && slab.Valid() && matchQueues[k].Valid()
      requires forall k' :: k' in matchQueues && k' != k ==> unchanged(matchQueues[k'])
      requires forall n: OrderNode :: old(allocated(n)) && old(n.owner) != null && old(n.owner) != matchQueues[k] ==> unchanged(n)
      ensures Inv() && Market() == old(Market())[k := matchQueues[k].Contents()]
      ensures RestingBeside(k) == old(RestingBeside(k))
    {
      var q := matchQueues[k];
      forall k' | k' in matchQueues && k' != k
        ensures matchQueues[k'].Valid() && matchQueues[k'].Contents() == old(matchQueues[k'].Contents())
        ensures matchQueues[k'].Nodes() == old(matchQueues[k'].Nodes())
      {
        var q' := matchQueues[k'];
        assert old(q'.Valid()) && q' != q;
        assert forall n :: n in old(q'.Nodes()) ==> old(n.owner) == q' && unchanged(n);
        q'.Kept();
      }
    }

    /** process: takes a node from the slab, fills it from the order and
        dispatches on the order's kind; an unknown kind panics. */
    method Process(order: Order) returns (panicked: bool, notes: seq<Note>, ghost taken: OrderNode)
      requires Inv()
      modifies this`matchQueues, slab, slab.free, matchQueues.Values, Resting()
      ensures var r := Step(old(Market()), sessions, order);
              panicked == r.Crash?
              && (!panicked ==> Inv() && Market() == r.market && notes == r.notes)
      ensures fresh(taken) || taken in old(slab.free)
      ensures !panicked ==> Live() == old(Live()) + {taken}
    {
      ghost var live0 := Live();
      var on := Take(order);
      taken := on;
      ghost var live1 := Live();
      if order.kind == BUY {
        notes := AddBuy(on);
      } else if order.kind == SELL {
        notes := AddSell(on);
      } else if order.kind == CANCEL {
        notes := Cancel(on);
      } else {
        return true, [], on;
      }
      BackOne(live0, live1, Live(), on);
      panicked := false;
    }

    /** The head of process: a node from the slab filled from the order.
        No book changes. */
    method Take(order: Order) returns (on: OrderNode)
      requires Inv()
      modifies slab, slab.free
      ensures Inv() && Market() == old(Market())
      ensures matchQueues == old(matchQueues) && Resting() == old(Resting())
      ensures fresh(on) || on in old(slab.free)
      ensures on.Rec() == RecOf(order) && on.owner == null && on !in slab.free
      ensures Live() == old(Live()) - {on}
    {
      ghost var free0 := Elems(slab.free);
      on := slab.Malloc();
      assert forall k, n :: k in matchQueues && n in matchQueues[k].Nodes() ==> n != on;
      on.CopyFrom(order);
      BooksKept();
      LeaveOne(free0, Resting(), on);
    }

    /** When no book and no resting node changed, the invariant holds again
        as soon as the slab is valid, and the market is the same. */
    twostate lemma BooksKept()
      requires old(Inv()) && matchQueues == old(matchQueues) && slab == old(slab) && slab.Valid()
      requires forall k :: k in old(matchQueues) ==> unchanged(old(matchQueues[k]))
      requires forall k, n :: k in old(matchQueues) && n in old(matchQueues[k].Nodes()) ==> unchanged(n)
      ensures Inv() && Market() == old(Market()) && Resting() == old(Resting())
    {
      forall k | k in matchQueues
        ensures matchQueues[k].Valid() && matchQueues[k].Contents() == old(matchQueues[k].Contents())
        ensures matchQueues[k].Nodes() == old(matchQueues[k].Nodes())
      {
        matchQueues[k].Kept();
      }
    }

    /** getMatchQueues: the stock's book, made empty and registered the first
        time the stock is seen; no book is ever dropped. */
    method GetMatchQueues(stockId: u64) returns (q: MatchQueues)
      requires Inv()
      modifies this`matchQueues
      ensures Inv() && matchQueues == old(matchQueues)[stockId := q]
      ensures stockId in old(matchQueues) ==> q == old(matchQueues[stockId])
      ensures stockId !in old(matchQueues) ==> fresh(q) && q.buys == [] && q.sells == []
      ensures q.Valid() && q.Contents() == BookAt(old(Market()), stockId) && q.Nodes() <= old(Resting())
      ensures Market() == old(Market())[stockId := BookAt(old(Market()), stockId)]
      ensures Resting() == old(Resting())
    {
      if stockId in matchQueues {
        q := matchQueues[stockId];
        assert matchQueues == matchQueues[stockId := q];
      } else {
        q := NewBook(stockId);
      }
    }

    /** The first time a stock is seen: an empty book is made and registered
        under its id. */
    method NewBook(stockId: u64) returns (q: MatchQueues)
      requires Inv() && stockId !in matchQueues
      modifies this`matchQueues
      ensures Inv() && matchQueues == old(matchQueues)[stockId := q]
      ensures fresh(q) && q.buys == [] && q.sells == []
      ensures Market() == old(Market())[stockId := Book([], [])] && Resting() == old(Resting())
    {
      q := new MatchQueues();
      matchQueues := matchQueues[stockId := q];
      BookAdded(stockId, q);
    }

    /** Registering a new empty book under a stock not seen before keeps the
        invariant and adds an empty book to the market. */
    twostate lemma BookAdded(stockId: u64, new q: MatchQueues)
      requires old(Inv()) && stockId !in old(matchQueues)
      requires fresh(q) && q.buys == [] && q.sells == []
      requires matchQueues == old(matchQueues)[stockId := q] && slab == old(slab) && unchanged(slab)
      requires forall k :: k in old(matchQueues) ==> unchanged(old(matchQueues[k]))
      requires forall k, n :: k in old(matchQueues) && n in old(matchQueues[k].Nodes()) ==> unchanged(n)
      requires forall n :: n in old(slab.free) ==> unchanged(n)
      ensures Inv() && Market() == old(Market())[stockId := Book([], [])] && Resting() == old(Resting())
    {
      BooksKeptBesideNew(stockId, q);
      assert q.Contents() == Book([], []);
    }

    /** The books there were before a new one is registered stay valid and
        keep their contents. */
    twostate lemma BooksKeptBesideNew(stockId: u64, new q: MatchQueues)
      requires old(Inv()) && stockId !in old(matchQueues)
      requires fresh(q) && q.buys == [] && q.sells == []
      requires matchQueues == old(matchQueues)[stockId := q] && slab == old(slab) && unchanged(slab)
      requires forall k :: k in old(matchQueues) ==> unchanged(old(matchQueues[k]))
      requires forall k, n :: k in old(matchQueues) && n in old(matchQueues[k].Nodes()) ==> unchanged(n)
      requires forall n :: n in old(slab.free) ==> unchanged(n)
      ensures Inv() && Resting() == old(Resting())
      ensures forall k :: k in old(matchQueues) ==> matchQueues[k].Contents() == old(matchQueues[k].Contents())
    {
      assert q.Nodes() == {};
      forall k | k in old(matchQueues)
        ensures matchQueues[k].Valid() && matchQueues[k].Contents() == old(matchQueues[k].Contents())
        ensures matchQueues[k].Nodes() == old(matchQueues[k].Nodes())
      {
        assert matchQueues[k] == old(matchQueues[k]);
        matchQueues[k].Kept();
      }
    }

    /** addBuy: a buy crosses the sell side; what is left of it rests. */
    method AddBuy(b: OrderNode) returns (notes: seq<Note>)
      requires Inv() && b.owner == null && b !in slab.free
      modifies this`matchQueues, slab, matchQueues.Values, Resting(), b
      ensures Inv() && Live() == old(Live()) + {b}
      ensures var r := BuyStep(old(Market()), sessions, old(b.Rec()));
              Market() == r.market && notes == r.notes
    {
      ghost var n, m0 := b.Rec(), Market();
      ghost var r := BuyStep(m0, sessions, n);
      var q := GetMatchQueues(b.StockId());
      ghost var m1 := Market();
      assert BuyStep(m1, sessions, n) == Done(m1[n.stockId := r.market[n.stockId]], r.notes);
      notes := AddBuyAt(b, q);
      UpdateTwice(m0, n.stockId, BookAt(m0, n.stockId), r.market[n.stockId]);
    }

    /** addBuy in the book of the order's stock, which exists: only that book
        changes. */
    method AddBuyAt(b: OrderNode, q: MatchQueues) returns (notes: seq<Note>)
      requires Inv() && b.stockId in matchQueues && q == matchQueues[b.stockId]
      requires b.owner == null && b !in slab.free
      modifies slab, q, q.sells, b
      ensures Inv() && Live() == old(Live()) + {b}
      ensures var r := BuyStep(old(Market()), sessions, old(b.Rec()));
              Market() == r.market && notes == r.notes
    {
      ghost var k, pool := b.stockId, Pooled(slab.free, q.buys, q.sells);
      LiveSplit(k);
      notes := AddBuyBook(b, q);
      JoinOne(RestingBeside(k), pool, Pooled(slab.free, q.buys, q.sells), b);
    }

    /** addBuy in the book of the order's stock, seen book by book: the
        other books are kept, and this book and the free list gain `b`. */
    method AddBuyBook(b: OrderNode, q: MatchQueues) returns (notes: seq<Note>)
      requires Inv() && b.stockId in matchQueues && q == matchQueues[b.stockId]
      requires b.owner == null && b !in slab.free
      modifies slab, q, q.sells, b
      ensures Inv() && RestingBeside(old(b.stockId)) == old(RestingBeside(b.stockId))
      ensures Pooled(slab.free, q.buys, q.sells) == Pooled(old(slab.free), old(q.buys), old(q.sells)) + {b}
      ensures Live() == RestingBeside(old(b.stockId)) + Pooled(slab.free, q.buys, q.sells)
      ensures var r := BuyStep(old(Market()), sessions, old(b.Rec()));
              Market() == r.market && notes == r.notes
    {
      ghost var k := b.stockId;
      notes := AddBuyTo(b, q);
      OtherBooksKept(k);
      LiveSplit(k);
    }

    /** The body of addBuy once the book is found: the book changes as the
        value-level step says. */
    method AddBuyTo(b: OrderNode, q: MatchQueues) returns (notes: seq<Note>)
      requires q.Valid() && slab.Valid() && b.owner == null && b !in slab.free
      modifies slab, q, q.sells, b
      ensures q.Valid() && slab.Valid()
      ensures Pooled(slab.free, q.buys, q.sells) == Pooled(old(slab.free), old(q.buys), old(q.sells)) + {b}
      ensures var c := CrossBuy(old(b.Rec()), old(q.Contents().sells));
              q.Contents() == Book(if c.consumed then old(q.Contents().buys) else InsertBuy(old(q.Contents().buys), c.incoming), c.book)
              && notes == FillNotes(sessions, c.fills)
    {
      ghost var book0 := q.Contents();
      ghost var c := CrossBuy(b.Rec(), book0.sells);
      var filled;
      ghost var used;
      filled, notes, used := FillableBuy(b, q);
      if !filled {
        assert q.Contents() == Book(book0.buys, c.book) && b.Rec() == c.incoming && b !in slab.free;
        RestBuy(b, q);
      }
    }

    /** addSell: a sell crosses the buy side; what is left of it rests. */
    method AddSell(s: OrderNode) returns (notes: seq<Note>)
      requires Inv() && s.owner == null && s !in slab.free
      modifies this`matchQueues, slab, matchQueues.Values, Resting(), s
      ensures Inv() && Live() == old(Live()) + {s}
      ensures var r := SellStep(old(Market()), sessions, old(s.Rec()));
              Market() == r.market && notes == r.notes
    {
      ghost var n, m0 := s.Rec(), Market();
      ghost var r := SellStep(m0, sessions, n);
      var q := GetMatchQueues(s.StockId());
      ghost var m1 := Market();
      assert SellStep(m1, sessions, n) == Done(m1[n.stockId := r.market[n.stockId]], r.notes);
      notes := AddSellAt(s, q);
      UpdateTwice(m0, n.stockId, BookAt(m0, n.stockId), r.market[n.stockId]);
    }

    /** addSell in the book of the order's stock, which exists: only that book
        changes. */
    method AddSellAt(s: OrderNode, q: MatchQueues) returns (notes: seq<Note>)
      requires Inv() && s.stockId in matchQueues && q == matchQueues[s.stockId]
      requires s.owner == null && s !in slab.free
      modifies slab, q, q.buys, s
      ensures Inv() && Live() == old(Live()) + {s}
      ensures var r := SellStep(old(Market()), sessions, old(s.Rec()));
              Market() == r.market && notes == r.notes
    {
      ghost var k, pool := s.stockId, Pooled(slab.free, q.buys, q.sells);
      LiveSplit(k);
      notes := AddSellBook(s, q);
      JoinOne(RestingBeside(k), pool, Pooled(slab.free, q.buys, q.sells), s);
    }

    /** addSell in the book of the order's stock, seen book by book: the
        other books are kept, and this book and the free list gain `s`. */
    method AddSellBook(s: OrderNode, q: MatchQueues) returns (notes: seq<Note>)
      requires Inv() && s.stockId in matchQueues && q == matchQueues[s.stockId]
      requires s.owner == null && s !in slab.free
      modifies slab, q, q.buys, s
      ensures Inv() && RestingBeside(old(s.stockId)) == old(RestingBeside(s.stockId))
      ensures Pooled(slab.free, q.buys, q.sells) == Pooled(old(slab.free), old(q.buys), old(q.sells)) + {s}
      ensures Live() == RestingBeside(old(s.stockId)) + Pooled(slab.free, q.buys, q.sells)
      ensures var r := SellStep(old(Market()), sessions, old(s.Rec()));
              Market() == r.market && notes == r.notes
    {
      ghost var k := s.stockId;
      notes := AddSellTo(s, q);
      OtherBooksKept(k);
      LiveSplit(k);
    }

    /** The body of addSell once the book is found: the book changes as the
        value-level step says. */
    method AddSellTo(s: OrderNode, q: MatchQueues) returns (notes: seq<Note>)
      requires q.Valid() && slab.Valid() && s.owner == null && s !in slab.free
      modifies slab, q, q.buys, s
      ensures q.Valid() && slab.Valid()
      ensures Pooled(slab.free, q.buys, q.sells) == Pooled(old(slab.free), old(q.buys), old(q.sells)) + {s}
      ensures var c := CrossSell(old(s.Rec()), old(q.Contents().buys));
              q.Contents() == Book(c.book, if c.consumed then old(q.Contents().sells) else InsertSell(old(q.Contents().sells), c.incoming))
              && notes == FillNotes(sessions, c.fills)
    {
      ghost var book0 := q.Contents();
      ghost var c := CrossSell(s.Rec(), book0.buys);
      var filled;
      ghost var used;
      filled, notes, used := FillableSell(s, q);
      if !filled {
        assert q.Contents() == Book(c.book, book0.sells) && s.Rec() == c.incoming && s !in slab.free;
        RestSell(s, q);
      }
    }

    /** The end of addBuy when the incoming buy was not used up: it rests in
        its book, which gains just that node. */
    method RestBuy(b: OrderNode, q: MatchQueues)
      requires q.Valid() && slab.Valid() && b.owner == null && b !in slab.free
      modifies q, b`owner
      ensures q.Valid() && slab.Valid() && slab.free == old(slab.free) && b.Rec() == old(b.Rec())
      ensures Pooled(slab.free, q.buys, q.sells) == Pooled(old(slab.free), old(q.buys), old(q.sells)) + {b}
      ensures q.Contents() == Book(InsertBuy(old(q.Contents().buys), b.Rec()), old(q.Contents().sells))
    {
      q.PushBuy(b);
      assert slab.Valid();
      PooledRest(slab.free, old(q.buys), q.buys, q.sells, b);
    }

    /** fillableBuy: trades the incoming buy `b` against the best sells while
        it is priced at or above them, freeing every node used up; true when
        the buy itself was used up (and freed). The third test of the loop
        body, equal quantities, always holds once the first two fail. The
        sells used up leave the front of the sell side and go onto the free
        list, each in front of the one before, and the buy after them. */
    method FillableBuy(b: OrderNode, q: MatchQueues) returns (filled: bool, notes: seq<Note>, ghost used: seq<OrderNode>)
      requires q.Valid() && slab.Valid() && b.owner == null && b !in slab.free
      modifies slab, q, q.sells, b
      ensures q.Valid() && slab.Valid() && b.owner == null && (filled <==> b in slab.free)
      ensures q.buys == old(q.buys) && old(q.sells) == used + q.sells
      ensures slab.free == (if filled then [b] else []) + PushAll(used, old(slab.free))
      ensures Pooled(slab.free, q.buys, q.sells) == Pooled(old(slab.free), old(q.buys), old(q.sells)) + (if filled then {b} else {})
      ensures var c := CrossBuy(old(b.Rec()), old(q.Contents().sells));
              filled == c.consumed && q.Contents() == Book(old(q.Contents().buys), c.book)
              && notes == FillNotes(sessions, c.fills)
              && (!filled ==> b.Rec() == c.incoming)
    {
      ghost var b0, book0 := b.Rec(), q.Contents();
      ghost var fills: seq<Fill> := [];
      ghost var k: nat := 0;
      BuyProgressStart(b0, book0.sells);
      notes, filled := [], false;
      var done := false;
      while !done
        invariant q.Valid() && slab.Valid() && b.owner == null && (filled <==> b in slab.free)
        invariant k <= |old(q.sells)| && q.sells == old(q.sells)[k..] && q.buys == old(q.buys)
        invariant slab.free == (if filled then [b] else []) + PushAll(old(q.sells)[..k], old(slab.free))
        invariant q.Contents().buys == book0.buys
        invariant !done ==> !filled && BuyProgress(b0, book0.sells, fills, b.Rec(), q.Contents().sells)
        invariant done ==> CrossBuy(b0, book0.sells) == Cross(filled, b.Rec(), q.Contents().sells, fills)
        invariant notes == FillNotes(sessions, fills)
        decreases |old(q.sells)| - k + (if done then 0 else 1)
      {
        var more;
        done, filled, more, fills, k := FillBuyOnce(b, q, b0, book0.sells, fills, old(q.sells), old(slab.free), k);
        notes := notes + more;
      }
      used := old(q.sells)[..k];
      SplitAt(old(q.sells), k);
      FreedKeepsNodes(old(q.sells), used, q.sells, q.buys, filled, b, old(slab.free), slab.free);
    }

    /** One pass of fillableBuy's loop: looks at the best sell and, when the
        buy is priced at or above it, trades; `done` when the pass returns
        from the loop, `filled` when it returns true. Of the sell side
        `side0` the loop started with, the first `k` nodes were used up and
        freed before this pass, and the first `k'` after it. */
    method FillBuyOnce(b: OrderNode, q: MatchQueues, ghost b0: NodeRec, ghost sells0: seq<NodeRec>, ghost fills: seq<Fill>,
                       ghost side0: seq<OrderNode>, ghost free0: seq<OrderNode>, ghost k: nat)
      returns (done: bool, filled: bool, more: seq<Note>, ghost fills': seq<Fill>, ghost k': nat)
      requires q.Valid() && slab.Valid() && b.owner == null && b !in slab.free
      requires BuyProgress(b0, sells0, fills, b.Rec(), q.Contents().sells)
      requires k <= |side0| && q.sells == side0[k..] && slab.free == PushAll(side0[..k], free0)
      modifies slab, q, q.sells, b
      ensures q.Valid() && slab.Valid() && b.owner == null && (filled <==> b in slab.free)
      ensures q.buys == old(q.buys) && q.Contents().buys == old(q.Contents().buys)
      ensures k <= k' <= k + 1 && k' <= |side0| && q.sells == side0[k'..]
      ensures slab.free == (if filled then [b] else []) + PushAll(side0[..k'], free0)
      ensures !done ==> !filled && k' == k + 1 && BuyProgress(b0, sells0, fills', b.Rec(), q.Contents().sells)
      ensures done ==> CrossBuy(b0, sells0) == Cross(filled, b.Rec(), q.Contents().sells, fills')
      ensures FillNotes(sessions, fills') == FillNotes(sessions, fills) + more
    {
      ghost var bv, sv := b.Rec(), q.Contents().sells;
      var s := q.PeekSell();
      if s == null || b.Price() < s.Price() {
        BuyProgressStops(b0, sells0, fills, bv, sv);
        done, filled, more, fills', k' := true, false, [], fills, k;
        assert fills + [] == fills;
      } else {
        ghost var used, freed;
        done, filled, more, fills', used, freed := CrossBestSell(b, q, s, b0, sells0, fills);
        k' := k;
        if used != [] {
          UsedOneMore(side0, k, used, free0);
          k' := k + 1;
        }
        FreedMore(slab.free, freed, if filled then [b] else [], used, PushAll(side0[..k], free0), PushAll(side0[..k'], free0));
      }
    }

    /** The trading half of one pass of fillableBuy's loop, when the buy is
        priced at or above the best sell `s`: the three cases by quantity. */
    method CrossBestSell(b: OrderNode, q: MatchQueues, s: OrderNode, ghost b0: NodeRec, ghost sells0: seq<NodeRec>, ghost fills: seq<Fill>)
      returns (done: bool, filled: bool, more: seq<Note>, ghost fills': seq<Fill>, ghost used: seq<OrderNode>, ghost freed: seq<OrderNode>)
      requires q.Valid() && slab.Valid() && b.owner == null && b !in slab.free
      requires q.sells != [] && q.sells[0] == s && b.price >= s.price
      requires BuyProgress(b0, sells0, fills, b.Rec(), q.Contents().sells)
      modifies slab, q, s, b
      ensures q.Valid() && slab.Valid() && b.owner == null && (filled <==> b in slab.free)
      ensures q.buys == old(q.buys) && q.Contents().buys == old(q.Contents().buys)
      ensures |used| <= 1 && old(q.sells) == used + q.sells
      ensures slab.free == freed + old(slab.free) && freed == (if filled then [b] else []) + used
      ensures !done ==> !filled && used != [] && BuyProgress(b0, sells0, fills', b.Rec(), q.Contents().sells)
      ensures done ==> CrossBuy(b0, sells0) == Cross(filled, b.Rec(), q.Contents().sells, fills')
      ensures FillNotes(sessions, fills') == FillNotes(sessions, fills) + more
    {
      ghost var bv, sv := b.Rec(), q.Contents().sells;
      assert sv[0] == s.Rec();
      ghost var p := TradePrice(bv.price, sv[0].price);
      if b.Quantity() > s.Quantity() {
        BuyProgressOutlasts(b0, sells0, fills, bv, sv);
        ghost var b' := bv.(quantity := bv.quantity - sv[0].quantity);
        ghost var f := Fill(b', sv[0], p, sv[0].quantity);
        more := IncomingBuyOutlasts(b, q, s);
        assert b.Rec() == b' && q.Contents().sells == sv[1..];
        FillNotesSnoc(sessions, fills, f);
        done, filled, fills', used, freed := false, false, fills + [f], [s], [s];
      } else if s.Quantity() > b.Quantity() {
        BuyProgressUsedUp(b0, sells0, fills, bv, sv);
        ghost var s' := sv[0].(quantity := sv[0].quantity - bv.quantity);
        ghost var f := Fill(bv, s', p, bv.quantity);
        more := IncomingBuyUsedUp(b, q, s);
        assert s.Rec() == s';
        FillNotesSnoc(sessions, fills, f);
        done, filled, fills', used, freed := true, true, fills + [f], [], [b];
      } else {
        BuyProgressMatched(b0, sells0, fills, bv, sv);
        ghost var f := Fill(bv, sv[0], p, bv.quantity);
        more := IncomingBuyMatched(b, q, s);
        FillNotesSnoc(sessions, fills, f);
        done, filled, fills', used, freed := true, true, fills + [f], [s], [b, s];
      }
    }

    /** fillableBuy, first case: the best sell is used up, unlinked and
        freed, and the buy goes on with what is left of it. */
    method IncomingBuyOutlasts(b: OrderNode, q: MatchQueues, s: OrderNode)
      returns (notes: seq<Note>)
      requires q.Valid() && slab.Valid() && b.owner == null && b !in slab.free
      requires q.sells != [] && q.sells[0] == s && b.quantity > s.quantity
      modifies slab, q, s`owner, b`quantity
      ensures q.Valid() && slab.Valid() && b.owner == null && slab.free == [s] + old(slab.free)
      ensures q.buys == old(q.buys) && q.sells == old(q.sells[1..]) && old(q.sells) == [s] + q.sells
      ensures q.Contents().buys == old(q.Contents().buys) && q.Contents().sells == old(q.Contents().sells[1..])
      ensures b.Rec() == old(b.Rec().(quantity := b.quantity - s.quantity))
      ensures notes == TradeNotes(sessions, PARTIAL, FULL,
                Fill(b.Rec(), old(s.Rec()), TradePrice(old(b.price), old(s.price)), old(s.quantity)))
    {
      var quantity := s.Quantity();
      var price := TradePrice(b.Price(), s.Price());
      assert b != s;
      RetireBestSell(q, s);
      assert b !in q.buys && b !in q.sells;
      b.ReduceQuantity(quantity);
      notes := CompleteTrade(PARTIAL, FULL, b, s, price, quantity);
    }

    /** fillableBuy, second case: the best sell keeps what is left of it and
        the buy, used up, is freed. */
    method IncomingBuyUsedUp(b: OrderNode, q: MatchQueues, s: OrderNode)
      returns (notes: seq<Note>)
      requires q.Valid() && slab.Valid() && b.owner == null && b !in slab.free
      requires q.sells != [] && q.sells[0] == s && s.quantity > b.quantity
      modifies slab, s`quantity
      ensures q.Valid() && slab.Valid() && b.owner == null && slab.free == [b] + old(slab.free)
      ensures q.buys == old(q.buys) && q.sells == old(q.sells)
      ensures q.Contents().buys == old(q.Contents().buys) && q.Contents().sells == [s.Rec()] + old(q.Contents().sells[1..])
      ensures s.Rec() == old(s.Rec()).(quantity := old(s.quantity) - old(b.quantity))
      ensures notes == TradeNotes(sessions, PARTIAL, FULL,
                Fill(old(b.Rec()), s.Rec(), TradePrice(old(b.price), old(s.price)), old(b.quantity)))
    {
      var quantity := b.Quantity();
      var price := TradePrice(b.Price(), s.Price());
      ReduceBestSell(q, s, quantity);
      notes := CompleteTrade(PARTIAL, FULL, b, s, price, quantity);
      slab.Free(b);
    }

    /** fillableBuy, third case: equal quantities; the best sell is unlinked
        and freed, then the buy is freed. */
    method IncomingBuyMatched(b: OrderNode, q: MatchQueues, s: OrderNode)
      returns (notes: seq<Note>)
      requires q.Valid() && slab.Valid() && b.owner == null && b !in slab.free
      requires q.sells != [] && q.sells[0] == s && s.quantity == b.quantity
      modifies slab, q, s`owner
      ensures q.Valid() && slab.Valid() && b.owner == null && slab.free == [b, s] + old(slab.free)
      ensures q.buys == old(q.buys) && q.sells == old(q.sells[1..]) && old(q.sells) == [s] + q.sells
      ensures q.Contents().buys == old(q.Contents().buys) && q.Contents().sells == old(q.Contents().sells[1..])
      ensures notes == TradeNotes(sessions, PARTIAL, FULL,
                Fill(old(b.Rec()), old(s.Rec()), TradePrice(old(b.price), old(s.price)), old(b.quantity)))
    {
      var quantity := b.Quantity();
      var price := TradePrice(b.Price(), s.Price());
      notes := CompleteTrade(PARTIAL, FULL, b, s, price, quantity);
      assert b != s;
      RetireBestSell(q, s);
      slab.Free(b);
    }

    /** `s.Remove(); m.slab.Free(s)` on the best resting sell: unlinks it
        from its book and gives it back to the slab. */
    method RetireBestSell(q: MatchQueues, s: OrderNode)
      requires q.Valid() && slab.Valid() && q.sells != [] && q.sells[0] == s
      modifies slab, q, s`owner
      ensures q.Valid() && slab.Valid() && s.owner == null && slab.free == [s] + old(slab.free)
      ensures q.buys == old(q.buys) && q.sells == old(q.sells[1..]) && old(q.sells) == [s] + q.sells && s.Rec() == old(s.Rec())
      ensures q.Contents().buys == old(q.Contents().buys) && q.Contents().sells == old(q.Contents().sells[1..])
    {
      assert s !in slab.free;
      ghost var v := q.Contents().sells;
      q.TakeSell(s, 0);
      assert Delete(v, 0) == v[1..];
      assert q.Valid() && slab.Valid();
      label Taken:
      slab.Free(s);
      assert q.Contents() == old@Taken(q.Contents()) && q.Valid();
    }

    /** `b.Remove(); m.slab.Free(b)` on the best resting buy. */
    method RetireBestBuy(q: MatchQueues, b: OrderNode)
      requires q.Valid() && slab.Valid() && q.buys != [] && q.buys[0] == b
      modifies slab, q, b`owner
      ensures q.Valid() && slab.Valid() && b.owner == null && slab.free == [b] + old(slab.free)
      ensures q.sells == old(q.sells) && q.buys == old(q.buys[1..]) && old(q.buys) == [b] + q.buys && b.Rec() == old(b.Rec())
      ensures q.Contents().sells == old(q.Contents().sells) && q.Contents().buys == old(q.Contents().buys[1..])
    {
      assert b !in slab.free;
      ghost var v := q.Contents().buys;
      q.TakeBuy(b, 0);
      assert Delete(v, 0) == v[1..];
      assert q.Valid() && slab.Valid();
      label Taken:
      slab.Free(b);
      assert q.Contents() == old@Taken(q.Contents()) && q.Valid();
    }

    /** The end of addSell when the incoming sell was not used up: it rests in
        its book, which gains just that node. */
    method RestSell(s: OrderNode, q: MatchQueues)
      requires q.Valid() && slab.Valid() && s.owner == null && s !in slab.free
      modifies q, s`owner
      ensures q.Valid() && slab.Valid() && slab.free == old(slab.free) && s.Rec() == old(s.Rec())
      ensures Pooled(slab.free, q.buys, q.sells) == Pooled(old(slab.free), old(q.buys), old(q.sells)) + {s}
      ensures q.Contents() == Book(old(q.Contents().buys), InsertSell(old(q.Contents().sells), s.Rec()))
    {
      q.PushSell(s);
      assert slab.Valid();
      PooledRest(slab.free, old(q.sells), q.sells, q.buys, s);
    }

    /** fillableSell: trades the incoming sell `s` against the best buys
        while they are priced at or above it, freeing every node used up;
        true when the sell itself was used up (and freed). The buys used up
        leave the front of the buy side and go onto the free list, each in
        front of the one before, and the sell after them. */
    method FillableSell(s: OrderNode, q: MatchQueues) returns (filled: bool, notes: seq<Note>, ghost used: seq<OrderNode>)
      requires q.Valid() && slab.Valid() && s.owner == null && s !in slab.free
      modifies slab, q, q.buys, s
      ensures q.Valid() && slab.Valid() && s.owner == null && (filled <==> s in slab.free)
      ensures q.sells == old(q.sells) && old(q.buys) == used + q.buys
      ensures slab.free == (if filled then [s] else []) + PushAll(used, old(slab.free))
      ensures Pooled(slab.free, q.buys, q.sells) == Pooled(old(slab.free), old(q.buys), old(q.sells)) + (if filled then {s} else {})
      ensures var c := CrossSell(old(s.Rec()), old(q.Contents().buys));
              filled == c.consumed && q.Contents() == Book(c.book, old(q.Contents().sells))
              && notes == FillNotes(sessions, c.fills)
              && (!filled ==> s.Rec() == c.incoming)
    {
      ghost var s0, book0 := s.Rec(), q.Contents();
      ghost var fills: seq<Fill> := [];
      ghost var k: nat := 0;
      SellProgressStart(s0, book0.buys);
      notes, filled := [], false;
      var done := false;
      while !done
        invariant q.Valid() && slab.Valid() && s.owner == null && (filled <==> s in slab.free)
        invariant k <= |old(q.buys)| && q.buys == old(q.buys)[k..] && q.sells == old(q.sells)
        invariant slab.free == (if filled then [s] else []) + PushAll(old(q.buys)[..k], old(slab.free))
        invariant q.Contents().sells == book0.sells
        invariant !done ==> !filled && SellProgress(s0, book0.buys, fills, s.Rec(), q.Contents().buys)
        invariant done ==> CrossSell(s0, book0.buys) == Cross(filled, s.Rec(), q.Contents().buys, fills)
        invariant notes == FillNotes(sessions, fills)
        decreases |old(q.buys)| - k + (if done then 0 else 1)
      {
        var more;
        done, filled, more, fills, k := FillSellOnce(s, q, s0, book0.buys, fills, old(q.buys), old(slab.free), k);
        notes := notes + more;
      }
      used := old(q.buys)[..k];
      SplitAt(old(q.buys), k);
      FreedKeepsNodes(old(q.buys), used, q.buys, q.sells, filled, s, old(slab.free), slab.free);
    }

    /** One pass of fillableSell's loop: looks at the best buy and, when it
        is priced at or above the sell, trades. Of the buy side `side0` the
        loop started with, the first `k` nodes were used up and freed before
        this pass, and the first `k'` after it. */
    method FillSellOnce(s: OrderNode, q: MatchQueues, ghost s0: NodeRec, ghost buys0: seq<NodeRec>, ghost fills: seq<Fill>,
                        ghost side0: seq<OrderNode>, ghost free0: seq<OrderNode>, ghost k: nat)
      returns (done: bool, filled: bool, more: seq<Note>, ghost fills': seq<Fill>, ghost k': nat)
      requires q.Valid() && slab.Valid() && s.owner == null && s !in slab.free
      requires SellProgress(s0, buys0, fills, s.Rec(), q.Contents().buys)
      requires k <= |side0| && q.buys == side0[k..] && slab.free == PushAll(side0[..k], free0)
      modifies slab, q, q.buys, s
      ensures q.Valid() && slab.Valid() && s.owner == null && (filled <==> s in slab.free)
      ensures q.sells == old(q.sells) && q.Contents().sells == old(q.Contents().sells)
      ensures k <= k' <= k + 1 && k' <= |side0| && q.buys == side0[k'..]
      ensures slab.free == (if filled then [s] else []) + PushAll(side0[..k'], free0)
      ensures !done ==> !filled && k' == k + 1 && SellProgress(s0, buys0, fills', s.Rec(), q.Contents().buys)
      ensures done ==> CrossSell(s0, buys0) == Cross(filled, s.Rec(), q.Contents().buys, fills')
      ensures FillNotes(sessions, fills') == FillNotes(sessions, fills) + more
    {
      ghost var sv, bv := s.Rec(), q.Contents().buys;
      var b := q.PeekBuy();
      if b == null {
        SellProgressStops(s0, buys0, fills, sv, bv);
        done, filled, more, fills', k' := true, false, [], fills, k;
        assert fills + [] == fills;
      } else if b.Price() >= s.Price() {
        ghost var used, freed;
        done, filled, more, fills', used, freed := CrossBestBuy(s, q, b, s0, buys0, fills);
        k' := k;
        if used != [] {
          UsedOneMore(side0, k, used, free0);
          k' := k + 1;
        }
        FreedMore(slab.free, freed, if filled then [s] else [], used, PushAll(side0[..k], free0), PushAll(side0[..k'], free0));
      } else {
        SellProgressStops(s0, buys0, fills, sv, bv);
        done, filled, more, fills', k' := true, false, [], fills, k;
        assert fills + [] == fills;
      }
    }

    /** The trading half of one pass of fillableSell's loop, when the best
        buy `b` is priced at or above the sell: the three cases by quantity. */
    method CrossBestBuy(s: OrderNode, q: MatchQueues, b: OrderNode, ghost s0: NodeRec, ghost buys0: seq<NodeRec>, ghost fills: seq<Fill>)
      returns (done: bool, filled: bool, more: seq<Note>, ghost fills': seq<Fill>, ghost used: seq<OrderNode>, ghost freed: seq<OrderNode>)
      requires q.Valid() && slab.Valid() && s.owner == null && s !in slab.free
      requires q.buys != [] && q.buys[0] == b && b.price >= s.price
      requires SellProgress(s0, buys0, fills, s.Rec(), q.Contents().buys)
      modifies slab, q, b, s
      ensures q.Valid() && slab.Valid() && s.owner == null && (filled <==> s in slab.free)
      ensures q.sells == old(q.sells) && q.Contents().sells == old(q.Contents().sells)
      ensures |used| <= 1 && old(q.buys) == used + q.buys
      ensures slab.free == freed + old(slab.free) && freed == (if filled then [s] else []) + used
      ensures !done ==> !filled && used != [] && SellProgress(s0, buys0, fills', s.Rec(), q.Contents().buys)
      ensures done ==> CrossSell(s0, buys0) == Cross(filled, s.Rec(), q.Contents().buys, fills')
      ensures FillNotes(sessions, fills') == FillNotes(sessions, fills) + more
    {
      ghost var sv, bv := s.Rec(), q.Contents().buys;
      assert bv[0] == b.Rec();
      ghost var p := TradePrice(bv[0].price, sv.price);
      if b.Quantity() > s.Quantity() {
        SellProgressUsedUp(s0, buys0, fills, sv, bv);
        ghost var b' := bv[0].(quantity := bv[0].quantity - sv.quantity);
        ghost var f := Fill(b', sv, p, sv.quantity);
        more := IncomingSellUsedUp(s, q, b);
        assert b.Rec() == b';
        FillNotesSnoc(sessions, fills, f);
        done, filled, fills', used, freed := true, true, fills + [f], [], [s];
      } else if s.Quantity() > b.Quantity() {
        SellProgressOutlasts(s0, buys0, fills, sv, bv);
        ghost var s' := sv.(quantity := sv.quantity - bv[0].quantity);
        ghost var f := Fill(bv[0], s', p, bv[0].quantity);
        more := IncomingSellOutlasts(s, q, b);
        assert s.Rec() == s' && q.Contents().buys == bv[1..];
        FillNotesSnoc(sessions, fills, f);
        done, filled, fills', used, freed := false, false, fills + [f], [b], [b];
      } else {
        SellProgressMatched(s0, buys0, fills, sv, bv);
        ghost var f := Fill(bv[0], sv, p, sv.quantity);
        more := IncomingSellMatched(s, q, b);
        FillNotesSnoc(sessions, fills, f);
        done, filled, fills', used, freed := true, true, fills + [f], [b], [s, b];
      }
    }

    /** fillableSell, first case: the best buy keeps what is left of it and
        the sell, used up, is freed (its Remove finds it linked nowhere). */
    method IncomingSellUsedUp(s: OrderNode, q: MatchQueues, b: OrderNode)
      returns (notes: seq<Note>)
      requires q.Valid() && slab.Valid() && s.owner == null && s !in slab.free
      requires q.buys != [] && q.buys[0] == b && b.quantity > s.quantity
      modifies slab, b`quantity, s`owner
      ensures q.Valid() && slab.Valid() && s.owner == null && slab.free == [s] + old(slab.free)
      ensures q.buys == old(q.buys) && q.sells == old(q.sells)
      ensures q.Contents().sells == old(q.Contents().sells) && q.Contents().buys == [b.Rec()] + old(q.Contents().buys[1..])
      ensures b.Rec() == old(b.Rec()).(quantity := old(b.quantity) - old(s.quantity))
      ensures notes == TradeNotes(sessions, PARTIAL, FULL,
                Fill(b.Rec(), old(s.Rec()), TradePrice(old(b.price), old(s.price)), old(s.quantity)))
    {
      var amount := s.Quantity();
      var price := TradePrice(b.Price(), s.Price());
      ReduceBestBuy(q, b, amount);
      notes := CompleteTrade(PARTIAL, FULL, b, s, price, amount);
      assert s !in q.Nodes();
      label Traded:
      ReleaseUnlinked(s);
      q.Kept@Traded();
    }

    /** `s.Remove(); m.slab.Free(s)` on an order linked into no book: the
        Remove changes nothing and the node goes back to the slab. */
    method ReleaseUnlinked(s: OrderNode)
      requires slab.Valid() && s.owner == null && s !in slab.free
      modifies slab, s`owner
      ensures slab.Valid() && s.owner == null && slab.free == [s] + old(slab.free)
    {
      s.Remove();
      slab.Free(s);
    }

    /** fillableSell, second case: the best buy is used up, unlinked and
        freed, and the sell goes on with what is left of it. */
    method IncomingSellOutlasts(s: OrderNode, q: MatchQueues, b: OrderNode)
      returns (notes: seq<Note>)
      requires q.Valid() && slab.Valid() && s.owner == null && s !in slab.free
      requires q.buys != [] && q.buys[0] == b && s.quantity > b.quantity
      modifies slab, q, b`owner, s`quantity
      ensures q.Valid() && slab.Valid() && s.owner == null && slab.free == [b] + old(slab.free)
      ensures q.sells == old(q.sells) && q.buys == old(q.buys[1..]) && old(q.buys) == [b] + q.buys
      ensures q.Contents().sells == old(q.Contents().sells) && q.Contents().buys == old(q.Contents().buys[1..])
      ensures s.Rec() == old(s.Rec().(quantity := s.quantity - b.quantity))
      ensures notes == TradeNotes(sessions, PARTIAL, FULL,
                Fill(old(b.Rec()), s.Rec(), TradePrice(old(b.price), old(s.price)), old(b.quantity)))
    {
      var amount := b.Quantity();
      var price := TradePrice(b.Price(), s.Price());
      assert s !in q.buys && s !in q.sells && b != s;
      s.ReduceQuantity(amount);
      notes := CompleteTrade(PARTIAL, FULL, b, s, price, amount);
      RetireBestBuy(q, b);
    }

    /** fillableSell, third case: equal quantities; the best buy is unlinked
        and freed, then the sell is freed. */
    method IncomingSellMatched(s: OrderNode, q: MatchQueues, b: OrderNode)
      returns (notes: seq<Note>)
      requires q.Valid() && slab.Valid() && s.owner == null && s !in slab.free
      requires q.buys != [] && q.buys[0] == b && s.quantity == b.quantity
      modifies slab, q, b`owner
      ensures q.Valid() && slab.Valid() && s.owner == null && slab.free == [s, b] + old(slab.free)
      ensures q.sells == old(q.sells) && q.buys == old(q.buys[1..]) && old(q.buys) == [b] + q.buys
      ensures q.Contents().sells == old(q.Contents().sells) && q.Contents().buys == old(q.Contents().buys[1..])
      ensures notes == TradeNotes(sessions, PARTIAL, FULL,
                Fill(old(b.Rec()), old(s.Rec()), TradePrice(old(b.price), old(s.price)), old(b.quantity)))
    {
      var amount := b.Quantity();
      var price := TradePrice(b.Price(), s.Price());
      notes := CompleteTrade(PARTIAL, FULL, b, s, price, amount);
      assert b != s;
      RetireBestBuy(q, b);
      slab.Free(s);
    }

    /** cancel: takes the order with the request's guid out of its book and
        tells its owner, or tells the requester nothing was cancelled; both
        the request node and the removed node go back to the slab. */
    method Cancel(o: OrderNode) returns (notes: seq<Note>)
      requires Inv() && o.owner == null && o !in slab.free
      modifies this`matchQueues, slab, matchQueues.Values, Resting()
      ensures Inv() && Live() == old(Live()) + {o}
      ensures var r := CancelStep(old(Market()), sessions, old(o.Rec()));
              Market() == r.market && notes == r.notes
    {
      ghost var n := o.Rec();
      var q := GetMatchQueues(o.StockId());
      notes := CancelAt(o, q, n.stockId);
      UpdateTwice(old(Market()), n.stockId, BookAt(old(Market()), n.stockId), CancelIn(BookAt(old(Market()), n.stockId), n.guid).0);
    }

    /** cancel in the book of stock `k`: only that book changes. */
    method CancelAt(o: OrderNode, q: MatchQueues, ghost k: u64) returns (notes: seq<Note>)
      requires Inv() && k in matchQueues && q == matchQueues[k] && o.owner == null && o !in slab.free
      modifies slab, q, q.buys, q.sells
      ensures Inv() && Live() == old(Live()) + {o}
      ensures var r := CancelIn(old(Market())[k], old(o.guid));
              Market() == old(Market())[k := r.0] && notes == CancelNotes(sessions, old(o.Rec()), r.1)
    {
      ghost var pool := Pooled(slab.free, q.buys, q.sells);
      LiveSplit(k);
      notes := CancelBook(o, q, k);
      JoinOne(RestingBeside(k), pool, Pooled(slab.free, q.buys, q.sells), o);
    }

    /** cancel in the book of stock `k`, seen book by book: the other books
        are kept, and this book and the free list gain `o`. */
    method CancelBook(o: OrderNode, q: MatchQueues, ghost k: u64) returns (notes: seq<Note>)
      requires Inv() && k in matchQueues && q == matchQueues[k] && o.owner == null && o !in slab.free
      modifies slab, q, q.buys, q.sells
      ensures Inv() && RestingBeside(k) == old(RestingBeside(k))
      ensures Pooled(slab.free, q.buys, q.sells) == Pooled(old(slab.free), old(q.buys), old(q.sells)) + {o}
      ensures Live() == RestingBeside(k) + Pooled(slab.free, q.buys, q.sells)
      ensures var r := CancelIn(old(Market())[k], old(o.guid));
              Market() == old(Market())[k := r.0] && notes == CancelNotes(sessions, old(o.Rec()), r.1)
    {
      notes := CancelFrom(o, q);
      OtherBooksKept(k);
      LiveSplit(k);
    }

    /** The body of cancel once the book is found. */
    method CancelFrom(o: OrderNode, q: MatchQueues) returns (notes: seq<Note>)
      requires q.Valid() && slab.Valid() && o.owner == null && o !in slab.free
      modifies slab, q, q.buys, q.sells
      ensures q.Valid() && slab.Valid()
      ensures Pooled(slab.free, q.buys, q.sells) == Pooled(old(slab.free), old(q.buys), old(q.sells)) + {o}
      ensures q.Contents() == CancelIn(old(q.Contents()), old(o.guid)).0
      ensures notes == CancelNotes(sessions, old(o.Rec()), CancelIn(old(q.Contents()), old(o.guid)).1)
    {
      var ro := RemoveFromBook(o, q);
      label Asked:
      notes := Answer(o, ro);
      q.Kept@Asked();
      PooledCancel(old(slab.free), old(q.buys), old(q.sells), slab.free, q.buys, q.sells, o, if ro != null then [ro] else []);
    }

    /** The removal half of cancel: the node with the request's guid leaves
        the book, unlinked, and neither it nor the request is free. */
    method RemoveFromBook(o: OrderNode, q: MatchQueues) returns (ro: OrderNode?)
      requires q.Valid() && slab.Valid() && o.owner == null && o !in slab.free
      modifies q, q.buys, q.sells
      ensures q.Valid() && slab.Valid() && o.owner == null && o.Rec() == old(o.Rec())
      ensures Elems(q.buys) + Elems(q.sells) == Elems(old(q.buys)) + Elems(old(q.sells)) - (if ro == null then {} else {ro})
      ensures ro != null ==> ro in old(q.buys) || ro in old(q.sells)
      ensures var r := CancelIn(old(q.Contents()), old(o.guid));
              q.Contents() == r.0
              && (ro == null <==> r.1.None?)
              && (ro != null ==> ro != o && ro.owner == null && ro !in slab.free && r.1 == Some(ro.Rec()))
    {
      OutsideBook(o, q);
      ro := q.Cancel(o);
    }

    /** A node linked into no book, and every node on the free list, lies
        outside the sides of `q`. */
    lemma OutsideBook(o: OrderNode, q: MatchQueues)
      requires q.Valid() && slab.Valid() && o.owner == null
      ensures o !in q.buys && o !in q.sells
      ensures forall m :: m in slab.free ==> m !in q.buys && m !in q.sells
    {
    }

    /** The end of cancel: completeCancelled and the removed node back to
        the slab, or completeNotCancelled; then the request node goes back
        to the slab. */
    method Answer(o: OrderNode, ro: OrderNode?) returns (notes: seq<Note>)
      requires slab.Valid() && o.owner == null && o !in slab.free
      requires ro != null ==> ro.owner == null && ro !in slab.free && ro != o
      modifies slab
      ensures slab.Valid() && slab.free == [o] + (if ro != null then [ro] else []) + old(slab.free)
      ensures notes == CancelNotes(sessions, o.Rec(), if ro == null then None else Some(ro.Rec()))
    {
      if ro != null {
        notes := CompleteCancelled(ro);
        slab.Free(ro);
      } else {
        notes := CompleteNotCancelled(o);
      }
      slab.Free(o);
    }

    /** completeTrade: tells the buyer (kind `partial`) and then the seller
        (kind `full`) the trade's price and quantity, each only if it has a
        session. */
    method CompleteTrade(partial: i32, full: i32, b: OrderNode, s: OrderNode, price: u64, quantity: u64)
      returns (notes: seq<Note>)
      ensures notes == TradeNotes(sessions, partial, full, Fill(b.Rec(), s.Rec(), price, quantity))
    {
      notes := [];
      if b.Uuid() in sessions {
        var order := Order(b.Uuid(), b.TradeId(), b.StockId(), partial, quantity, price);
        notes := notes + [Note(b.Uuid(), order, Tag1001)];
      }
      if s.Uuid() in sessions {
        var order := Order(s.Uuid(), s.TradeId(), s.StockId(), full, quantity, price);
        notes := notes + [Note(s.Uuid(), order, Tag1001)];
      }
    }

    /** completeCancelled: the owner gets the cancelled order back with kind
        CANCEL. */
    method CompleteCancelled(o: OrderNode) returns (notes: seq<Note>)
      ensures notes == CancelNotes(sessions, o.Rec(), Some(o.Rec()))
    {
      notes := [];
      var cm := o.CopyTo();
      cm := cm.(kind := CANCEL);
      if o.Uuid() in sessions {
        notes := notes + [Note(o.Uuid(), cm, Tag1002)];
      }
    }

    /** completeNotCancelled: the requester gets its request back with kind
        NOT_CANCELLED. */
    method CompleteNotCancelled(nc: OrderNode) returns (notes: seq<Note>)
      ensures notes == CancelNotes(sessions, nc.Rec(), None)
    {
      notes := [];
      var ncm := nc.CopyTo();
      ncm := ncm.(kind := NOT_CANCELLED);
      if nc.Uuid() in sessions {
        notes := notes + [Note(nc.Uuid(), ncm, Tag1003)];
      }
    }
  }
}
