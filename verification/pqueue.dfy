/** The order node the engine mutates in place, and the two collaborators it
    lives in: the per-stock book (MatchQueues) and the slab that hands out and
    takes back nodes. The book and the slab are not part of this model's
    source; they are given here as the smallest classes with the behaviour
    the engine relies on: each side of a book is a sequence of nodes, best
    first, in price-time priority; the identity index is a lookup by guid over
    the two sides; the slab recycles nodes through a free list. */
module Pqueue {
  import opened Ints
  import opened Fmath
  import opened ServerProto
  import opened Matching

  /** Each element occurs once: none occurs again after its index. */
  ghost predicate Distinct<T>(s: seq<T>)
  {
    forall i :: 0 <= i < |s| ==> s[i] !in s[i + 1..]
  }

  /** The tail of a sequence without repeats has none either, and does not
      hold the head. */
  lemma DistinctTail<T>(s: seq<T>)
    requires Distinct(s) && s != []
    ensures s[0] !in s[1..] && Distinct(s[1..])
  {
    forall i | 0 <= i < |s| - 1 ensures s[1..][i] !in s[1..][i + 1..] {
      assert s[1..][i] == s[i + 1] && s[1..][i + 1..] == s[i + 2..];
    }
  }

  /** The nodes of a sequence, as a set. */
  ghost function Elems(s: seq<OrderNode>): set<OrderNode>
  {
    set n | n in s
  }

  /** Splicing a node into a sequence adds it to the sequence's nodes. */
  lemma ElemsInsert(s: seq<OrderNode>, k: nat, o: OrderNode)
    requires k <= |s|
    ensures Elems(s[..k] + [o] + s[k..]) == Elems(s) + {o}
    ensures forall n :: n in s[..k] + [o] + s[k..] ==> n in s || n == o
  {
    assert s == s[..k] + s[k..];
  }

  /** Pushing nodes onto a list gives a list of those nodes and the ones
      already on it. */
  lemma {:induction false} PushAllElems(ns: seq<OrderNode>, onto: seq<OrderNode>)
    ensures Elems(PushAll(ns, onto)) == Elems(ns) + Elems(onto)
    decreases |ns|
  {
    if ns != [] {
      PushAllElems(ns[1..], [ns[0]] + onto);
      assert Elems(ns) == {ns[0]} + Elems(ns[1..]) by {
        assert forall n :: n in ns <==> n == ns[0] || n in ns[1..];
      }
    }
  }

  /** The nodes of two sequences laid end to end. */
  lemma ElemsConcat(a: seq<OrderNode>, b: seq<OrderNode>)
    ensures Elems(a + b) == Elems(a) + Elems(b)
  {
  }

  /** The list `onto` after pushing each node of `ns` onto its front in
      turn, as one Slab.Free after another does. */
  function PushAll(ns: seq<OrderNode>, onto: seq<OrderNode>): (r: seq<OrderNode>)
    ensures |r| == |ns| + |onto|
    decreases |ns|
  {
    if ns == [] then onto else PushAll(ns[1..], [ns[0]] + onto)
  }

  /** Pushing one more node after the others puts it in front. */
  lemma {:induction false} PushAllSnoc(ns: seq<OrderNode>, x: OrderNode, onto: seq<OrderNode>)
    ensures PushAll(ns + [x], onto) == [x] + PushAll(ns, onto)
    decreases |ns|
  {
    if ns != [] {
      assert (ns + [x])[1..] == ns[1..] + [x];
      PushAllSnoc(ns[1..], x, [ns[0]] + onto);
    }
  }

  class OrderNode {
    /** The value of the node's entry in the price index. */
    var price: u64
    /** The value of the node's entry in the identity index. */
    var guid: u64
    var quantity: u64
    var stockId: u64
    var kind: i32
    /** The book whose price and identity indexes this node is linked into,
        or null while it is linked into neither. */
    var owner: MatchQueues?

    /** A zeroed node, as the slab makes them. */
    constructor ()
      ensures Rec() == NodeRec(0, 0, 0, 0, 0) && owner == null
    {
      price, guid, quantity, stockId, kind := 0, 0, 0, 0, 0;
      owner := null;
    }

    /** The node's contents: everything but its link. */
    function Rec(): NodeRec
      reads this
    {
      NodeRec(price, guid, quantity, stockId, kind)
    }

    /** Fills the node from an order message; trader id and trade id are
        packed into the guid, and the node ends up linked nowhere. */
    method CopyFrom(from: Order)
      modifies this
      ensures Rec() == RecOf(from) && owner == null
      ensures Uuid() == from.uuid && TradeId() == from.tradeId
      ensures Price() == from.price && Quantity() == from.quantity
      ensures StockId() == from.stockId && Kind() == from.kind
    {
      quantity := from.quantity;
      stockId := from.stockId;
      kind := from.kind;
      Setup(from.price, CombineInt32(from.uuid, from.tradeId));
    }

    /** Sets the values of the price and identity entries, both unlinked. */
    method Setup(price: u64, guid: u64)
      modifies this
      ensures this.price == price && this.guid == guid && owner == null
      ensures quantity == old(quantity) && stockId == old(stockId) && kind == old(kind)
    {
      this.price := price;
      this.guid := guid;
      owner := null;
    }

    /** The order message the node's fields fill in; filling a node from it
        gives back this node's contents. */
    function CopyTo(): (to: Order)
      reads this
      ensures RecOf(to) == Rec()
      ensures to.uuid == Uuid() && to.tradeId == TradeId()
    {
      CombineOfHalves(guid);
      Order(Uuid(), TradeId(), StockId(), Kind(), Quantity(), Price())
    }

    function Price(): u64
      reads this
    {
      price
    }

    function Guid(): u64
      reads this
    {
      guid
    }

    /** The trader id: the high half of the guid. */
    function Uuid(): u32
      reads this
    {
      HighInt32(guid)
    }

    /** The trade id: the low half of the guid. */
    function TradeId(): u32
      reads this
    {
      LowInt32(guid)
    }

    function Quantity(): u64
      reads this
    {
      quantity
    }

    function StockId(): u64
      reads this
    {
      stockId
    }

    function Kind(): i32
      reads this
    {
      kind
    }

    /** Unsigned 64-bit subtraction in place: exact when `s` is at most the
        quantity, wrapping otherwise; nothing else of the node changes. */
    method ReduceQuantity(s: u64)
      modifies this`quantity
      ensures quantity == U64Sub(old(quantity), s)
      ensures s <= old(quantity) ==> quantity == old(quantity) - s
    {
      quantity := U64Sub(quantity, s);
    }

    /** Pops the node out of the price index and the identity index of its
        book together; on a node linked nowhere it does nothing. */
    method Remove()
      requires owner != null ==> owner.Valid()
      modifies this`owner, owner
      ensures owner == null
      ensures old(owner) != null ==>
                old(owner).Valid()
                && old(owner).buys == Without(old(owner.buys), this)
                && old(owner).sells == Without(old(owner.sells), this)
    {
      if owner != null {
        owner.Unlink(this);
        owner := null;
      }
    }
  }

  /** The sequence with every occurrence of `x` taken out. */
  function Without(s: seq<OrderNode>, x: OrderNode): (r: seq<OrderNode>)
    ensures x !in r && |r| <= |s|
    ensures forall y :: y in r ==> y in s
    ensures x !in s ==> r == s
  {
    if s == [] then []
    else (if s[0] == x then [] else [s[0]]) + Without(s[1..], x)
  }

  /** On a side holding each node once, taking a node out is deleting it at
      its index. */
  lemma WithoutAt(s: seq<OrderNode>, i: nat)
    requires Distinct(s) && i < |s|
    ensures Without(s, s[i]) == s[..i] + s[i + 1..]
  {
    forall j | 0 <= j < i
      ensures s[j] != s[i]
    {
      assert s[j + 1..][i - j - 1] == s[i];
    }
    WithoutOnce(s, i);
  }

  /** Taking out a node that occurs only at index `i` deletes index `i`. */
  lemma {:induction false} WithoutOnce(s: seq<OrderNode>, i: nat)
    requires i < |s| && s[i] !in s[..i] && s[i] !in s[i + 1..]
    ensures Without(s, s[i]) == s[..i] + s[i + 1..]
    decreases i
  {
    var t := s[1..];
    if i == 0 {
      assert s[..0] + s[1..] == t;
    } else {
      assert s[0] != s[i] by { assert s[..i][0] == s[0]; }
      assert t[i - 1] == s[i] && t[..i - 1] == s[1..i] && t[i..] == s[i + 1..];
      assert s[..i] == [s[0]] + s[1..i];
      WithoutOnce(t, i - 1);
    }
  }

  /** Taking a node out of a side keeps each node on it once. */
  lemma WithoutKeepsDistinct(s: seq<OrderNode>, x: OrderNode)
    requires Distinct(s)
    ensures Distinct(Without(s, x))
  {
    if x in s {
      var i :| 0 <= i < |s| && s[i] == x;
      WithoutAt(s, i);
      DeleteNode(s, i);
    }
  }

  /** The contents of the nodes of a sequence, in order. */
  function View(s: seq<OrderNode>): (v: seq<NodeRec>)
    reads s
    ensures |v| == |s| && forall i :: 0 <= i < |s| ==> v[i] == s[i].Rec()
  {
    seq(|s|, i requires 0 <= i < |s| reads s => s[i].Rec())
  }

  class MatchQueues {
    /** The buy side, best first: highest price, then earliest arrival. */
    var buys: seq<OrderNode>
    /** The sell side, best first: lowest price, then earliest arrival. */
    var sells: seq<OrderNode>

    /** `&MatchQueues{}`: an empty book. */
    constructor ()
      ensures buys == [] && sells == []
    {
      buys, sells := [], [];
    }

    /** The nodes resting in this book. */
    ghost function Nodes(): set<OrderNode>
      reads this
    {
      Elems(buys) + Elems(sells)
    }

    /** Every resting node is linked into this book and rests once, on one
        side. (Price-time order is a property of the contents, proved about
        the value-level step the engine's methods are shown to perform.) */
    ghost predicate Valid()
      reads this, Nodes()
    {
      (forall n :: n in buys ==> n.owner == this)
      && (forall n :: n in sells ==> n.owner == this)
      && (forall n :: n in buys ==> n !in sells)
      && Distinct(buys) && Distinct(sells)
    }

    function Contents(): Book
      reads this, Nodes()
    {
      Book(View(buys), View(sells))
    }

    /** The best resting buy, or null. */
    function PeekBuy(): OrderNode?
      reads this
    {
      if buys == [] then null else buys[0]
    }

    /** The best resting sell, or null. */
    function PeekSell(): OrderNode?
      reads this
    {
      if sells == [] then null else sells[0]
    }

    /** Rests a buy behind every buy priced at or above it and links it in. */
    method PushBuy(o: OrderNode)
      requires Valid() && o.owner == null
      modifies this, o`owner
      ensures Valid() && o.owner == this && Nodes() == old(Nodes()) + {o}
      ensures sells == old(sells) && Elems(buys) == Elems(old(buys)) + {o}
      ensures Contents() == Book(InsertBuy(old(View(buys)), o.Rec()), old(View(sells)))
      ensures var k := BuyPos(old(View(buys)), o.price);
              buys == old(buys)[..k] + [o] + old(buys)[k..]
    {
      var k := BuyPos(View(buys), o.price);
      Link(o);
      SpliceBuy(o, k);
    }

    /** Rests a sell behind every sell priced at or below it and links it in. */
    method PushSell(o: OrderNode)
      requires Valid() && o.owner == null
      modifies this, o`owner
      ensures Valid() && o.owner == this && Nodes() == old(Nodes()) + {o}
      ensures buys == old(buys) && Elems(sells) == Elems(old(sells)) + {o}
      ensures Contents() == Book(old(View(buys)), InsertSell(old(View(sells)), o.Rec()))
      ensures var k := SellPos(old(View(sells)), o.price);
              sells == old(sells)[..k] + [o] + old(sells)[k..]
    {
      var k := SellPos(View(sells), o.price);
      Link(o);
      SpliceSell(o, k);
    }

    /** Points an unlinked node at this book, before it is spliced in. */
    method Link(o: OrderNode)
      requires Valid() && o.owner == null
      modifies o`owner
      ensures Valid() && o.owner == this && o !in buys && o !in sells
      ensures View(buys) == old(View(buys)) && View(sells) == old(View(sells))
    {
      assert o !in buys && o !in sells;
      o.owner := this;
    }

    method SpliceBuy(o: OrderNode, k: nat)
      requires Valid() && o.owner == this && o !in buys && o !in sells
      requires k == BuyPos(View(buys), o.price)
      modifies this
      ensures Valid() && sells == old(sells) && Nodes() == old(Nodes()) + {o} && Elems(buys) == Elems(old(buys)) + {o}
      ensures buys == old(buys)[..k] + [o] + old(buys)[k..]
      ensures View(buys) == InsertBuy(old(View(buys)), o.Rec())
    {
      var r := buys[..k] + [o] + buys[k..];
      InsertNode(buys, k, o);
      ElemsInsert(buys, k, o);
      buys := r;
    }

    method SpliceSell(o: OrderNode, k: nat)
      requires Valid() && o.owner == this && o !in buys && o !in sells
      requires k == SellPos(View(sells), o.price)
      modifies this
      ensures Valid() && buys == old(buys) && Nodes() == old(Nodes()) + {o} && Elems(sells) == Elems(old(sells)) + {o}
      ensures sells == old(sells)[..k] + [o] + old(sells)[k..]
      ensures View(sells) == InsertSell(old(View(sells)), o.Rec())
    {
      var r := sells[..k] + [o] + sells[k..];
      InsertNode(sells, k, o);
      ElemsInsert(sells, k, o);
      sells := r;
    }

    /** Takes `n` out of both sides: the two pops of OrderNode.Remove. */
    method Unlink(n: OrderNode)
      requires Valid()
      modifies this
      ensures Valid()
      ensures buys == Without(old(buys), n) && sells == Without(old(sells), n)
    {
      WithoutKeepsDistinct(buys, n);
      WithoutKeepsDistinct(sells, n);
      buys, sells := Without(buys, n), Without(sells, n);
    }

    /** Finds the resting order with `o`'s guid (first on the buy side, then
        on the sell side), unlinks it and returns it; null if none rests. */
    method Cancel(o: OrderNode) returns (ro: OrderNode?)
      requires Valid()
      modifies this, buys, sells
      ensures Valid()
      ensures var (book, removed) := CancelIn(old(Contents()), old(o.guid));
              Contents() == book
              && (ro == null <==> removed.None?)
              && (ro != null ==> ro.Rec() == removed.value && ro.owner == null)
      ensures ro != null ==> ro in old(buys) || ro in old(sells)
      ensures Nodes() == old(Nodes()) - (if ro == null then {} else {ro})
    {
      ghost var book := Contents();
      var guid := o.guid;
      var i := FindGuid(View(buys), guid);
      if 0 <= i {
        ro := buys[i];
        TakeBuy(ro, i);
        assert CancelIn(book, guid) == (Contents(), Some(book.buys[i]));
      } else {
        var j := FindGuid(View(sells), guid);
        if 0 <= j {
          ro := sells[j];
          TakeSell(ro, j);
          assert CancelIn(book, guid) == (Contents(), Some(book.sells[j]));
        } else {
          ro := null;
        }
      }
    }

    /** A book none of whose nodes changed keeps its validity and its
        contents. */
    twostate lemma Kept()
      requires old(Valid()) && unchanged(this)
      requires forall m :: m in old(Nodes()) ==> unchanged(m)
      ensures Valid() && Contents() == old(Contents())
    {
      forall m | m in buys || m in sells
        ensures m.owner == this && m.Rec() == old(m.Rec())
      {
        assert m in old(Nodes());
      }
      assert View(buys) == old(View(buys));
      assert View(sells) == old(View(sells));
    }

    /** When the best buy's contents change in place and nothing else in
        the book does, the book stays valid and only the head of its buy
        side's contents changes. */
    twostate lemma BestBuyUpdated(n: OrderNode)
      requires old(Valid()) && unchanged(this) && old(buys) != [] && old(buys[0]) == n
      requires n.owner == old(n.owner)
      requires forall m :: m in old(Nodes()) && m != n ==> unchanged(m)
      ensures Valid()
      ensures Contents() == old(Contents()).(buys := [n.Rec()] + old(Contents().buys[1..]))
    {
      forall m | m in buys || m in sells
        ensures m.owner == this && (m != n ==> m.Rec() == old(m.Rec()))
      {
        assert m in old(Nodes());
      }
      assert forall i :: 1 <= i < |buys| ==> buys[i] != n;
      assert n !in sells;
      assert View(buys) == [n.Rec()] + old(View(buys))[1..];
    }

    /** The same for the best sell. */
    twostate lemma BestSellUpdated(n: OrderNode)
      requires old(Valid()) && unchanged(this) && old(sells) != [] && old(sells[0]) == n
      requires n.owner == old(n.owner)
      requires forall m :: m in old(Nodes()) && m != n ==> unchanged(m)
      ensures Valid()
      ensures Contents() == old(Contents()).(sells := [n.Rec()] + old(Contents().sells[1..]))
    {
      forall m | m in buys || m in sells
        ensures m.owner == this && (m != n ==> m.Rec() == old(m.Rec()))
      {
        assert m in old(Nodes());
      }
      assert forall i :: 1 <= i < |sells| ==> sells[i] != n;
      assert n !in buys;
      assert View(sells) == [n.Rec()] + old(View(sells))[1..];
    }

    /** Removes the resting buy at index `i` and states what that does to
        the book's contents. */
    method TakeBuy(n: OrderNode, i: nat)
      requires Valid() && i < |buys| && buys[i] == n
      modifies this, n`owner
      ensures Valid() && n.owner == null && n !in buys && n !in sells && n.Rec() == old(n.Rec())
      ensures sells == old(sells) && buys == old(buys[..i] + buys[i + 1..])
      ensures Nodes() == old(Nodes()) - {n}
      ensures Contents() == Book(Delete(old(View(buys)), i), old(View(sells)))
    {
      ghost var rest := buys[..i] + buys[i + 1..];
      WithoutAt(buys, i);
      DeleteNode(buys, i);
      assert n !in sells;
      ghost var after := Book(View(rest), View(sells));
      n.Remove();
      assert View(rest) == after.buys && View(sells) == after.sells;
    }

    /** Removes the resting sell at index `i`, as TakeBuy does on the buy
        side. */
    method TakeSell(n: OrderNode, i: nat)
      requires Valid() && i < |sells| && sells[i] == n
      modifies this, n`owner
      ensures Valid() && n.owner == null && n !in buys && n !in sells && n.Rec() == old(n.Rec())
      ensures buys == old(buys) && sells == old(sells[..i] + sells[i + 1..])
      ensures Nodes() == old(Nodes()) - {n}
      ensures Contents() == Book(old(View(buys)), Delete(old(View(sells)), i))
    {
      ghost var rest := sells[..i] + sells[i + 1..];
      WithoutAt(sells, i);
      DeleteNode(sells, i);
      assert n !in buys;
      ghost var after := Book(View(buys), View(rest));
      n.Remove();
      assert View(buys) == after.buys && View(rest) == after.sells;
    }
  }

  /** Splicing a node not yet in a distinct side into it keeps it distinct,
      and its view is the old view with the node's contents spliced in. */
  lemma InsertNode(s: seq<OrderNode>, k: nat, o: OrderNode)
    requires Distinct(s) && o !in s && k <= |s|
    ensures var r := s[..k] + [o] + s[k..];
            Distinct(r) && View(r) == View(s)[..k] + [o.Rec()] + View(s)[k..]
  {
    var r := s[..k] + [o] + s[k..];
    forall i, j | 0 <= i < j < |r| ensures r[i] != r[j] {
      if j < k {
        assert r[i] == s[i] && r[j] == s[j];
      } else if j == k {
        assert r[i] == s[i];
      } else if i == k {
        assert r[j] == s[j - 1];
      } else if i < k {
        assert r[i] == s[i] && r[j] == s[j - 1];
      } else {
        assert r[i] == s[i - 1] && r[j] == s[j - 1];
      }
    }
    var v := View(s);
    var u := v[..k] + [o.Rec()] + v[k..];
    forall i | 0 <= i < |r| ensures View(r)[i] == u[i] {
      if i < k {
        assert r[i] == s[i] && u[i] == v[i];
      } else if i > k {
        assert r[i] == s[i - 1] && u[i] == v[i - 1];
      }
    }
  }

  /** Taking the i-th node out of a distinct side keeps it distinct, leaves
      that node out, and deletes its contents from the view. */
  lemma DeleteNode(s: seq<OrderNode>, i: nat)
    requires Distinct(s) && i < |s|
    ensures var r := s[..i] + s[i + 1..];
            Distinct(r) && s[i] !in r && (forall n :: n in r ==> n in s)
            && (forall n :: n in s ==> n in r || n == s[i])
            && View(r) == Delete(View(s), i)
  {
    var r := s[..i] + s[i + 1..];
    assert forall j :: 0 <= j < |r| ==> r[j] == if j < i then s[j] else s[j + 1];
    forall n | n in s ensures n in r || n == s[i] {
      var j :| 0 <= j < |s| && s[j] == n;
      if j < i { assert r[j] == n; } else if j > i { assert r[j - 1] == n; }
    }
    var u := Delete(View(s), i);
    assert |View(r)| == |u|;
    forall j | 0 <= j < |r| ensures View(r)[j] == u[j] {
    }
  }

  /** The pool of order nodes: Malloc hands out the head of the free list,
      or a new node when the list is empty, and Free pushes a node back. A
      node on the free list is on it once and linked into no book. */
  class Slab {
    var free: seq<OrderNode>

    ghost predicate Valid()
      reads this, free
    {
      Distinct(free) && forall n :: n in free ==> n.owner == null
    }

    /** NewSlab(size): `size` new nodes on the free list. */
    constructor (size: nat)
      ensures Valid() && |free| == size
      ensures forall n :: n in free ==> fresh(n)
    {
      var nodes: seq<OrderNode> := [];
      var i := 0;
      while i < size
        invariant i <= size && |nodes| == i && Distinct(nodes)
        invariant forall n :: n in nodes ==> fresh(n) && n.owner == null
      {
        var n := new OrderNode();
        nodes := nodes + [n];
        i := i + 1;
      }
      free := nodes;
    }

    method Malloc() returns (o: OrderNode)
      requires Valid()
      modifies this
      ensures Valid() && o.owner == null && o !in free
      ensures if old(free) == [] then fresh(o) && free == []
              else o == old(free[0]) && free == old(free[1..])
      ensures Elems(free) == Elems(old(free)) - {o}
    {
      if free == [] {
        o := new OrderNode();
      } else {
        o := free[0];
        ElemsConcat([o], free[1..]);
        assert free == [o] + free[1..];
        free := free[1..];
      }
    }

    /** Gives back an unlinked node that is not free already; freeing a node
        twice, or one still resting in a book, is outside the slab's
        contract. */
    method Free(o: OrderNode)
      requires Valid() && o.owner == null && o !in free
      modifies this
      ensures Valid() && free == [o] + old(free)
    {
      free := [o] + free;
    }
  }
}
