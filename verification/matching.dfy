/** The matching rules of the engine, stated on values: an order node's
    contents, the crossing of an incoming buy or sell against the best resting
    orders of the other side, the insertion of what remains, cancel by
    identity, the notifications each step sends, and one whole instruction as
    a step over all the books. The heap model in Pqueue and Matcher is proved
    to follow these functions. */
module Matching {
  import opened Ints
  import opened Fmath
  import opened ServerProto

  datatype Option<T> = None | Some(value: T)

  /** The contents of an order node: its key in the price index, its key in
      the identity index (trader id and trade id packed into one guid), the
      remaining quantity, the stock and the kind it was created with. */
  datatype NodeRec = NodeRec(price: u64, guid: u64, quantity: u64, stockId: u64, kind: i32)

  /** The node CopyFrom makes of an order message. */
  function RecOf(o: Order): (n: NodeRec)
    ensures HighInt32(n.guid) == o.uuid && LowInt32(n.guid) == o.tradeId
    ensures n.price == o.price && n.quantity == o.quantity && n.stockId == o.stockId && n.kind == o.kind
  {
    HalvesOfCombine(o.uuid, o.tradeId);
    NodeRec(o.price, CombineInt32(o.uuid, o.tradeId), o.quantity, o.stockId, o.kind)
  }

  /** The order message CopyTo makes of a node. */
  function OrderOf(n: NodeRec): (o: Order)
    ensures CombineInt32(o.uuid, o.tradeId) == n.guid
    ensures o.price == n.price && o.quantity == n.quantity && o.stockId == n.stockId && o.kind == n.kind
  {
    CombineOfHalves(n.guid);
    Order(HighInt32(n.guid), LowInt32(n.guid), n.stockId, n.kind, n.quantity, n.price)
  }

  /** CopyTo after CopyFrom gives back all six fields of the order. */
  lemma CopyToAfterCopyFrom(o: Order)
    ensures OrderOf(RecOf(o)) == o
  {
  }

  /** Two orders get the same guid exactly when they have the same trader id
      and the same trade id. */
  lemma GuidIdentifiesTrade(a: Order, b: Order)
    ensures RecOf(a).guid == RecOf(b).guid <==> a.uuid == b.uuid && a.tradeId == b.tradeId
  {
    CombineInjective(a.uuid, a.tradeId, b.uuid, b.tradeId);
  }

  /** The price of a trade between a buy and a sell priced at or below it:
      half the spread, truncated, above the sell price, so it lies between the
      two prices and any odd unit of the spread goes to the buyer. */
  function TradePrice(buy: u64, sell: u64): (p: u64)
    ensures sell <= buy ==> sell <= p <= buy
    ensures sell <= buy ==> 2 * (p - sell) <= buy - sell <= 2 * (p - sell) + 1
  {
    U64Add(sell, U64Sub(buy, sell) / 2)
  }

  /** One completeTrade call: the buy and the sell node as they are at the
      call, the trade price and the quantity traded. */
  datatype Fill = Fill(buy: NodeRec, sell: NodeRec, price: u64, quantity: u64)

  /** The outcome of a crossing loop: whether the incoming order was used up,
      the incoming order as it stands when the loop ends, the opposite side
      of the book afterwards and the fills in the order they happened. */
  datatype Cross = Cross(consumed: bool, incoming: NodeRec, book: seq<NodeRec>, fills: seq<Fill>)

  /** fillableBuy: an incoming buy against the sell side, best first. */
  function CrossBuy(b: NodeRec, sells: seq<NodeRec>): (c: Cross)
    decreases |sells|
  {
    if sells == [] then Cross(false, b, sells, [])
    else
      var s := sells[0];
      if b.price >= s.price then
        var p := TradePrice(b.price, s.price);
        if b.quantity > s.quantity then
          var b' := b.(quantity := b.quantity - s.quantity);
          var c := CrossBuy(b', sells[1..]);
          c.(fills := [Fill(b', s, p, s.quantity)] + c.fills)
        else if s.quantity > b.quantity then
          var s' := s.(quantity := s.quantity - b.quantity);
          Cross(true, b, [s'] + sells[1..], [Fill(b, s', p, b.quantity)])
        else
          Cross(true, b, sells[1..], [Fill(b, s, p, b.quantity)])
      else Cross(false, b, sells, [])
  }

  /** fillableSell: an incoming sell against the buy side, best first. */
  function CrossSell(s: NodeRec, buys: seq<NodeRec>): (c: Cross)
    decreases |buys|
  {
    if buys == [] then Cross(false, s, buys, [])
    else
      var b := buys[0];
      if b.price >= s.price then
        var p := TradePrice(b.price, s.price);
        if b.quantity > s.quantity then
          var b' := b.(quantity := b.quantity - s.quantity);
          Cross(true, s, [b'] + buys[1..], [Fill(b', s, p, s.quantity)])
        else if s.quantity > b.quantity then
          var s' := s.(quantity := s.quantity - b.quantity);
          var c := CrossSell(s', buys[1..]);
          c.(fills := [Fill(b, s', p, b.quantity)] + c.fills)
        else
          Cross(true, s, buys[1..], [Fill(b, s, p, b.quantity)])
      else Cross(false, s, buys, [])
  }

  /** Partway through fillableBuy's loop: the fills made so far, followed by
      the crossing of what is left of the buy against what is left of the
      sell side, make up the crossing of the original buy. */
  ghost predicate BuyProgress(b0: NodeRec, sells0: seq<NodeRec>, fills: seq<Fill>, b: NodeRec, sells: seq<NodeRec>)
  {
    var c := CrossBuy(b, sells);
    CrossBuy(b0, sells0) == c.(fills := fills + c.fills)
  }

  lemma BuyProgressStart(b: NodeRec, sells: seq<NodeRec>)
    ensures BuyProgress(b, sells, [], b, sells)
  {
    assert [] + CrossBuy(b, sells).fills == CrossBuy(b, sells).fills;
  }

  /** The buy uses up the best sell and goes on. */
  lemma BuyProgressOutlasts(b0: NodeRec, sells0: seq<NodeRec>, fills: seq<Fill>, b: NodeRec, sells: seq<NodeRec>)
    requires BuyProgress(b0, sells0, fills, b, sells)
    requires sells != [] && b.price >= sells[0].price && b.quantity > sells[0].quantity
    ensures var b' := b.(quantity := b.quantity - sells[0].quantity);
            BuyProgress(b0, sells0, fills + [Fill(b', sells[0], TradePrice(b.price, sells[0].price), sells[0].quantity)], b', sells[1..])
  {
    var b' := b.(quantity := b.quantity - sells[0].quantity);
    var f := Fill(b', sells[0], TradePrice(b.price, sells[0].price), sells[0].quantity);
    assert fills + [f] + CrossBuy(b', sells[1..]).fills == fills + ([f] + CrossBuy(b', sells[1..]).fills);
  }

  /** The loop stops on an empty side or a sell priced above the buy. */
  lemma BuyProgressStops(b0: NodeRec, sells0: seq<NodeRec>, fills: seq<Fill>, b: NodeRec, sells: seq<NodeRec>)
    requires BuyProgress(b0, sells0, fills, b, sells)
    requires sells == [] || b.price < sells[0].price
    ensures CrossBuy(b0, sells0) == Cross(false, b, sells, fills)
  {
    assert fills + [] == fills;
  }

  /** The best sell outlasts the buy. */
  lemma BuyProgressUsedUp(b0: NodeRec, sells0: seq<NodeRec>, fills: seq<Fill>, b: NodeRec, sells: seq<NodeRec>)
    requires BuyProgress(b0, sells0, fills, b, sells)
    requires sells != [] && b.price >= sells[0].price && sells[0].quantity > b.quantity
    ensures var s' := sells[0].(quantity := sells[0].quantity - b.quantity);
            CrossBuy(b0, sells0) == Cross(true, b, [s'] + sells[1..], fills + [Fill(b, s', TradePrice(b.price, sells[0].price), b.quantity)])
  {
  }

  /** The buy and the best sell use each other up. */
  lemma BuyProgressMatched(b0: NodeRec, sells0: seq<NodeRec>, fills: seq<Fill>, b: NodeRec, sells: seq<NodeRec>)
    requires BuyProgress(b0, sells0, fills, b, sells)
    requires sells != [] && b.price >= sells[0].price && sells[0].quantity == b.quantity
    ensures CrossBuy(b0, sells0) == Cross(true, b, sells[1..], fills + [Fill(b, sells[0], TradePrice(b.price, sells[0].price), b.quantity)])
  {
  }

  /** Partway through fillableSell's loop, as BuyProgress for fillableBuy. */
  ghost predicate SellProgress(s0: NodeRec, buys0: seq<NodeRec>, fills: seq<Fill>, s: NodeRec, buys: seq<NodeRec>)
  {
    var c := CrossSell(s, buys);
    CrossSell(s0, buys0) == c.(fills := fills + c.fills)
  }

  lemma SellProgressStart(s: NodeRec, buys: seq<NodeRec>)
    ensures SellProgress(s, buys, [], s, buys)
  {
    assert [] + CrossSell(s, buys).fills == CrossSell(s, buys).fills;
  }

  /** The sell uses up the best buy and goes on. */
  lemma SellProgressOutlasts(s0: NodeRec, buys0: seq<NodeRec>, fills: seq<Fill>, s: NodeRec, buys: seq<NodeRec>)
    requires SellProgress(s0, buys0, fills, s, buys)
    requires buys != [] && buys[0].price >= s.price && s.quantity > buys[0].quantity
    ensures var s' := s.(quantity := s.quantity - buys[0].quantity);
            SellProgress(s0, buys0, fills + [Fill(buys[0], s', TradePrice(buys[0].price, s.price), buys[0].quantity)], s', buys[1..])
  {
    var s' := s.(quantity := s.quantity - buys[0].quantity);
    var f := Fill(buys[0], s', TradePrice(buys[0].price, s.price), buys[0].quantity);
    assert fills + [f] + CrossSell(s', buys[1..]).fills == fills + ([f] + CrossSell(s', buys[1..]).fills);
  }

  /** The loop stops on an empty side or a buy priced below the sell. */
  lemma SellProgressStops(s0: NodeRec, buys0: seq<NodeRec>, fills: seq<Fill>, s: NodeRec, buys: seq<NodeRec>)
    requires SellProgress(s0, buys0, fills, s, buys)
    requires buys == [] || buys[0].price < s.price
    ensures CrossSell(s0, buys0) == Cross(false, s, buys, fills)
  {
    assert fills + [] == fills;
  }

  /** The best buy outlasts the sell. */
  lemma SellProgressUsedUp(s0: NodeRec, buys0: seq<NodeRec>, fills: seq<Fill>, s: NodeRec, buys: seq<NodeRec>)
    requires SellProgress(s0, buys0, fills, s, buys)
    requires buys != [] && buys[0].price >= s.price && buys[0].quantity > s.quantity
    ensures var b' := buys[0].(quantity := buys[0].quantity - s.quantity);
            CrossSell(s0, buys0) == Cross(true, s, [b'] + buys[1..], fills + [Fill(b', s, TradePrice(buys[0].price, s.price), s.quantity)])
  {
  }

  /** The sell and the best buy use each other up. */
  lemma SellProgressMatched(s0: NodeRec, buys0: seq<NodeRec>, fills: seq<Fill>, s: NodeRec, buys: seq<NodeRec>)
    requires SellProgress(s0, buys0, fills, s, buys)
    requires buys != [] && buys[0].price >= s.price && buys[0].quantity == s.quantity
    ensures CrossSell(s0, buys0) == Cross(true, s, buys[1..], fills + [Fill(buys[0], s, TradePrice(buys[0].price, s.price), s.quantity)])
  {
  }

  /** Total quantity traded by a run of fills. */
  function Filled(fills: seq<Fill>): nat
  {
    if fills == [] then 0 else fills[0].quantity + Filled(fills[1..])
  }

  /** Total quantity resting on one side of a book. */
  function Total(side: seq<NodeRec>): nat
  {
    if side == [] then 0 else side[0].quantity + Total(side[1..])
  }

  lemma FilledSplit(fills: seq<Fill>, i: nat)
    requires i < |fills|
    ensures Filled(fills[..i + 1]) == Filled(fills[..i]) + fills[i].quantity
  {
    if i > 0 {
      assert fills[..i + 1][1..] == fills[1..][..i];
      assert fills[..i][1..] == fills[1..][..i - 1];
      FilledSplit(fills[1..], i - 1);
    }
  }

  lemma FilledCons(f: Fill, rest: seq<Fill>, i: nat)
    requires 1 <= i <= |rest| + 1
    ensures Filled(([f] + rest)[..i]) == f.quantity + Filled(rest[..i - 1])
  {
    assert ([f] + rest)[..i][1..] == rest[..i - 1];
  }

  /** The incoming buy walks the sell side from its best order: the k-th fill
      is against the k-th resting sell, every one of them priced at or below
      the buy. */
  lemma {:induction false} CrossBuyFillsInOrder(b: NodeRec, sells: seq<NodeRec>)
    ensures var c := CrossBuy(b, sells);
            |c.fills| <= |sells|
            && forall i :: 0 <= i < |c.fills| ==>
                 c.fills[i].sell.guid == sells[i].guid && c.fills[i].sell.price == sells[i].price
                 && c.fills[i].buy.guid == b.guid && c.fills[i].buy.price == b.price
                 && sells[i].price <= b.price
    decreases |sells|
  {
    if sells != [] && b.price >= sells[0].price && b.quantity > sells[0].quantity {
      var b' := b.(quantity := b.quantity - sells[0].quantity);
      CrossBuyFillsInOrder(b', sells[1..]);
      var c' := CrossBuy(b', sells[1..]);
      assert forall i :: 1 <= i <= |c'.fills| ==> sells[i] == sells[1..][i - 1];
    }
  }

  /** What a crossing leaves of the opposite side: with k the number of
      fills, the orders past the k-th, preceded, when the k-th was not used
      up by a crossing that consumed the incoming order, by that order
      reduced by what it traded. A crossing that does not consume the
      incoming order has traded away the k orders it reached. */
  ghost predicate LeftOf(side: seq<NodeRec>, c: Cross)
  {
    var k := |c.fills|;
    k <= |side|
    && (!c.consumed ==> c.book == side[k..])
    && (c.consumed ==>
          0 < k
          && (c.book == side[k..]
              || (0 < |c.book| && c.book[1..] == side[k..]
                  && c.book[0] == side[k - 1].(quantity := c.book[0].quantity)
                  && c.book[0].quantity + c.fills[k - 1].quantity == side[k - 1].quantity)))
  }

  /** One more fill in front, against the head of the side, leaves the
      same book. */
  lemma LeftOfCons(side: seq<NodeRec>, c': Cross, c: Cross)
    requires side != [] && LeftOf(side[1..], c')
    requires c.consumed == c'.consumed && c.book == c'.book && c.fills != [] && c.fills[1..] == c'.fills
    ensures LeftOf(side, c)
  {
    var k' := |c'.fills|;
    assert side[1..][k'..] == side[k' + 1..];
    if k' > 0 {
      assert side[1..][k' - 1] == side[k'] && c.fills[k'] == c'.fills[k' - 1];
    }
  }

  /** What the crossing of a buy leaves of the sell side (LeftOf); if the
      buy is not used up, the best sell left is priced above it. */
  lemma {:induction false} CrossBuyLeaves(b: NodeRec, sells: seq<NodeRec>)
    ensures var c := CrossBuy(b, sells);
            LeftOf(sells, c) && (!c.consumed ==> c.book == [] || b.price < c.book[0].price)
    decreases |sells|
  {
    var c := CrossBuy(b, sells);
    if sells == [] || b.price < sells[0].price {
      assert c == Cross(false, b, sells, []);
    } else {
      var s := sells[0];
      var p := TradePrice(b.price, s.price);
      if b.quantity > s.quantity {
        var b' := b.(quantity := b.quantity - s.quantity);
        CrossBuyLeaves(b', sells[1..]);
        var c' := CrossBuy(b', sells[1..]);
        assert c == c'.(fills := [Fill(b', s, p, s.quantity)] + c'.fills);
        assert !c.consumed ==> c.book == [] || b.price < c.book[0].price;
        LeftOfCons(sells, c', c);
      } else if s.quantity > b.quantity {
        var s' := s.(quantity := s.quantity - b.quantity);
        assert c == Cross(true, b, [s'] + sells[1..], [Fill(b, s', p, b.quantity)]);
        assert c.book[1..] == sells[1..];
      } else {
        assert c == Cross(true, b, sells[1..], [Fill(b, s, p, b.quantity)]);
      }
    }
  }

  /** The incoming sell walks the buy side from its best order, mirroring
      CrossBuyFillsInOrder. */
  lemma {:induction false} CrossSellFillsInOrder(s: NodeRec, buys: seq<NodeRec>)
    ensures var c := CrossSell(s, buys);
            |c.fills| <= |buys|
            && forall i :: 0 <= i < |c.fills| ==>
                 c.fills[i].buy.guid == buys[i].guid && c.fills[i].buy.price == buys[i].price
                 && c.fills[i].sell.guid == s.guid && c.fills[i].sell.price == s.price
                 && buys[i].price >= s.price
    decreases |buys|
  {
    if buys != [] && buys[0].price >= s.price && s.quantity > buys[0].quantity {
      var s' := s.(quantity := s.quantity - buys[0].quantity);
      CrossSellFillsInOrder(s', buys[1..]);
      var c' := CrossSell(s', buys[1..]);
      assert forall i :: 1 <= i <= |c'.fills| ==> buys[i] == buys[1..][i - 1];
    }
  }

  /** What the crossing of a sell leaves of the buy side, mirroring
      CrossBuyLeaves. */
  lemma {:induction false} CrossSellLeaves(s: NodeRec, buys: seq<NodeRec>)
    ensures var c := CrossSell(s, buys);
            LeftOf(buys, c) && (!c.consumed ==> c.book == [] || c.book[0].price < s.price)
    decreases |buys|
  {
    var c := CrossSell(s, buys);
    if buys == [] || buys[0].price < s.price {
      assert c == Cross(false, s, buys, []);
    } else {
      var b := buys[0];
      var p := TradePrice(b.price, s.price);
      if s.quantity > b.quantity {
        var s' := s.(quantity := s.quantity - b.quantity);
        CrossSellLeaves(s', buys[1..]);
        var c' := CrossSell(s', buys[1..]);
        assert c == c'.(fills := [Fill(b, s', p, b.quantity)] + c'.fills);
        LeftOfCons(buys, c', c);
      } else if b.quantity > s.quantity {
        var b' := b.(quantity := b.quantity - s.quantity);
        assert c == Cross(true, s, [b'] + buys[1..], [Fill(b', s, p, s.quantity)]);
        assert c.book[1..] == buys[1..];
      } else {
        assert c == Cross(true, s, buys[1..], [Fill(b, s, p, b.quantity)]);
      }
    }
  }

  /** Quantity is conserved by the crossing of a buy: what the fills trade
      leaves the sell side, and the buy ends up used up or resting with
      exactly what the fills did not take, otherwise unchanged. */
  lemma {:induction false} CrossBuyConserves(b: NodeRec, sells: seq<NodeRec>)
    ensures var c := CrossBuy(b, sells);
            Filled(c.fills) + Total(c.book) == Total(sells)
            && (c.consumed ==> Filled(c.fills) == b.quantity)
            && (!c.consumed ==> Filled(c.fills) + c.incoming.quantity == b.quantity
                                && c.incoming == b.(quantity := c.incoming.quantity))
    decreases |sells|
  {
    if sells != [] && b.price >= sells[0].price {
      var s := sells[0];
      if b.quantity > s.quantity {
        CrossBuyConserves(b.(quantity := b.quantity - s.quantity), sells[1..]);
      } else if s.quantity > b.quantity {
        assert ([s.(quantity := s.quantity - b.quantity)] + sells[1..])[1..] == sells[1..];
      }
    }
  }

  /** Quantity is conserved by the crossing of a sell, mirroring
      CrossBuyConserves. */
  lemma {:induction false} CrossSellConserves(s: NodeRec, buys: seq<NodeRec>)
    ensures var c := CrossSell(s, buys);
            Filled(c.fills) + Total(c.book) == Total(buys)
            && (c.consumed ==> Filled(c.fills) == s.quantity)
            && (!c.consumed ==> Filled(c.fills) + c.incoming.quantity == s.quantity
                                && c.incoming == s.(quantity := c.incoming.quantity))
    decreases |buys|
  {
    if buys != [] && buys[0].price >= s.price {
      var b := buys[0];
      if s.quantity > b.quantity {
        CrossSellConserves(s.(quantity := s.quantity - b.quantity), buys[1..]);
      } else if b.quantity > s.quantity {
        assert ([b.(quantity := b.quantity - s.quantity)] + buys[1..])[1..] == buys[1..];
      }
    }
  }

  /** The fills of an incoming order of quantity `q` meet the resting orders
      of `side` one each, in order, and each trades the smaller of what
      remains of the incoming order and the resting order it meets. */
  ghost predicate EachTakesMin(q: nat, fills: seq<Fill>, side: seq<NodeRec>)
  {
    |fills| <= |side|
    && forall i :: 0 <= i < |fills| ==>
         Filled(fills[..i]) <= q && fills[i].quantity == Min(q - Filled(fills[..i]), side[i].quantity)
  }

  /** Each fill of a buy's crossing trades the smaller of what remains of
      the buy and the quantity of the resting sell it meets. */
  lemma {:induction false} CrossBuyFillsAreMin(b: NodeRec, sells: seq<NodeRec>)
    ensures EachTakesMin(b.quantity, CrossBuy(b, sells).fills, sells)
    decreases |sells|
  {
    var c := CrossBuy(b, sells);
    if sells == [] || b.price < sells[0].price {
      assert c.fills == [];
    } else if b.quantity <= sells[0].quantity {
      assert |c.fills| == 1 && c.fills[0].quantity == b.quantity;
      assert c.fills[..0] == [] && Filled([]) == 0;
      assert Min(b.quantity, sells[0].quantity) == b.quantity;
    } else {
      var s := sells[0];
      var b' := b.(quantity := b.quantity - s.quantity);
      CrossBuyFillsAreMin(b', sells[1..]);
      var c' := CrossBuy(b', sells[1..]);
      var f := Fill(b', s, TradePrice(b.price, s.price), s.quantity);
      assert c.fills == [f] + c'.fills;
      FillsAreMinCons(b.quantity, f, c'.fills, sells);
    }
  }

  /** Each fill of a sell's crossing trades the smaller of what remains of
      the sell and the quantity of the resting buy it meets. */
  lemma {:induction false} CrossSellFillsAreMin(s: NodeRec, buys: seq<NodeRec>)
    ensures EachTakesMin(s.quantity, CrossSell(s, buys).fills, buys)
    decreases |buys|
  {
    var c := CrossSell(s, buys);
    if buys == [] || buys[0].price < s.price {
      assert c.fills == [];
    } else if s.quantity <= buys[0].quantity {
      assert |c.fills| == 1 && c.fills[0].quantity == s.quantity;
      assert c.fills[..0] == [] && Filled([]) == 0;
      assert Min(s.quantity, buys[0].quantity) == s.quantity;
    } else {
      var b := buys[0];
      var s' := s.(quantity := s.quantity - b.quantity);
      CrossSellFillsAreMin(s', buys[1..]);
      var c' := CrossSell(s', buys[1..]);
      var f := Fill(b, s', TradePrice(b.price, s.price), b.quantity);
      assert c.fills == [f] + c'.fills;
      FillsAreMinCons(s.quantity, f, c'.fills, buys);
    }
  }

  /** A first fill that takes all of the first resting order, ahead of
      fills that each take the smaller of what remains and the next resting
      order, gives fills that each take the smaller of what remains and the
      resting order they meet. */
  lemma FillsAreMinCons(q: nat, f: Fill, rest: seq<Fill>, side: seq<NodeRec>)
    requires side != [] && f.quantity == side[0].quantity < q
    requires EachTakesMin(q - f.quantity, rest, side[1..])
    ensures EachTakesMin(q, [f] + rest, side)
  {
    var fills := [f] + rest;
    assert fills[..0] == [];
    forall i | 1 <= i < |fills|
      ensures Filled(fills[..i]) <= q
      ensures fills[i].quantity == Min(q - Filled(fills[..i]), side[i].quantity)
    {
      FilledCons(f, rest, i);
      assert fills[i] == rest[i - 1] && side[i] == side[1..][i - 1];
    }
  }

  /** Every fill of a crossing is at a price between the sell's and the buy's. */
  lemma FillsCross(b: NodeRec, s: NodeRec, sells: seq<NodeRec>, buys: seq<NodeRec>)
    ensures forall f <- CrossBuy(b, sells).fills :: f.sell.price <= f.price <= f.buy.price
    ensures forall f <- CrossSell(s, buys).fills :: f.sell.price <= f.price <= f.buy.price
  {
    CrossBuyPrices(b, sells);
    CrossSellPrices(s, buys);
  }

  lemma {:induction false} CrossBuyPrices(b: NodeRec, sells: seq<NodeRec>)
    ensures forall f <- CrossBuy(b, sells).fills ::
              f.sell.price <= f.buy.price && f.price == TradePrice(f.buy.price, f.sell.price)
    decreases |sells|
  {
    if sells != [] && b.price >= sells[0].price && b.quantity > sells[0].quantity {
      CrossBuyPrices(b.(quantity := b.quantity - sells[0].quantity), sells[1..]);
    }
  }

  lemma {:induction false} CrossSellPrices(s: NodeRec, buys: seq<NodeRec>)
    ensures forall f <- CrossSell(s, buys).fills ::
              f.sell.price <= f.buy.price && f.price == TradePrice(f.buy.price, f.sell.price)
    decreases |buys|
  {
    if buys != [] && buys[0].price >= s.price && s.quantity > buys[0].quantity {
      CrossSellPrices(s.(quantity := s.quantity - buys[0].quantity), buys[1..]);
    }
  }

  /** Price priority on each side: the buy side best (highest) price first,
      the sell side best (lowest) price first. */
  ghost predicate BuysSorted(buys: seq<NodeRec>)
  {
    forall i, j :: 0 <= i < j < |buys| ==> buys[i].price >= buys[j].price
  }

  ghost predicate SellsSorted(sells: seq<NodeRec>)
  {
    forall i, j :: 0 <= i < j < |sells| ==> sells[i].price <= sells[j].price
  }

  /** Where PushBuy puts a new buy: after every resting buy priced at or
      above it, so equal prices keep their arrival order. */
  function BuyPos(buys: seq<NodeRec>, price: u64): (k: nat)
    ensures k <= |buys|
    ensures forall i :: 0 <= i < k ==> buys[i].price >= price
    ensures k < |buys| ==> buys[k].price < price
  {
    if buys == [] || buys[0].price < price then 0 else 1 + BuyPos(buys[1..], price)
  }

  /** Where PushSell puts a new sell: after every resting sell priced at or
      below it. */
  function SellPos(sells: seq<NodeRec>, price: u64): (k: nat)
    ensures k <= |sells|
    ensures forall i :: 0 <= i < k ==> sells[i].price <= price
    ensures k < |sells| ==> sells[k].price > price
  {
    if sells == [] || sells[0].price > price then 0 else 1 + SellPos(sells[1..], price)
  }

  function InsertBuy(buys: seq<NodeRec>, n: NodeRec): seq<NodeRec>
  {
    var k := BuyPos(buys, n.price);
    buys[..k] + [n] + buys[k..]
  }

  function InsertSell(sells: seq<NodeRec>, n: NodeRec): seq<NodeRec>
  {
    var k := SellPos(sells, n.price);
    sells[..k] + [n] + sells[k..]
  }

  /** Where each element of a sequence lands when `x` is put at index `k`. */
  lemma InsertShape<T>(s: seq<T>, k: nat, x: T)
    requires k <= |s|
    ensures var r := s[..k] + [x] + s[k..];
            |r| == |s| + 1 && r[k] == x && r[..k] == s[..k] && r[k + 1..] == s[k..]
            && (forall t :: 0 <= t < k ==> r[t] == s[t])
            && (forall t :: k < t < |r| ==> r[t] == s[t - 1])
  {
    var r := s[..k] + [x] + s[k..];
    assert r[k + 1..] == s[k..];
    forall t | k < t < |r| ensures r[t] == s[t - 1] {
      assert r[t] == r[k + 1..][t - k - 1];
    }
  }

  /** A push keeps a sorted buy side sorted. */
  lemma {:induction false} InsertBuySorted(buys: seq<NodeRec>, n: NodeRec)
    requires BuysSorted(buys)
    ensures BuysSorted(InsertBuy(buys, n))
  {
    var k := BuyPos(buys, n.price);
    InsertShape(buys, k, n);
    SortedAroundBuy(buys, InsertBuy(buys, n), k, n);
  }

  /** A sorted buy side with `n` put at index `k`, behind every buy priced
      at or above it and ahead of the cheaper ones, is sorted. */
  lemma SortedAroundBuy(buys: seq<NodeRec>, r: seq<NodeRec>, k: nat, n: NodeRec)
    requires BuysSorted(buys) && k <= |buys| && |r| == |buys| + 1 && r[k] == n
    requires forall t :: 0 <= t < k ==> r[t] == buys[t] && buys[t].price >= n.price
    requires forall t :: k < t < |r| ==> r[t] == buys[t - 1]
    requires k < |buys| ==> buys[k].price < n.price
    ensures BuysSorted(r)
  {
    forall i, j | 0 <= i < j < |r| ensures r[i].price >= r[j].price {
      if k < j {
        assert buys[k].price >= buys[j - 1].price;
      }
    }
  }


  /** A push keeps a sorted sell side sorted. */
  lemma {:induction false} InsertSellSorted(sells: seq<NodeRec>, n: NodeRec)
    requires SellsSorted(sells)
    ensures SellsSorted(InsertSell(sells, n))
  {
    var k := SellPos(sells, n.price);
    InsertShape(sells, k, n);
    SortedAroundSell(sells, InsertSell(sells, n), k, n);
  }

  /** The same on the sell side. */
  lemma SortedAroundSell(sells: seq<NodeRec>, r: seq<NodeRec>, k: nat, n: NodeRec)
    requires SellsSorted(sells) && k <= |sells| && |r| == |sells| + 1 && r[k] == n
    requires forall t :: 0 <= t < k ==> r[t] == sells[t] && sells[t].price <= n.price
    requires forall t :: k < t < |r| ==> r[t] == sells[t - 1]
    requires k < |sells| ==> sells[k].price > n.price
    ensures SellsSorted(r)
  {
    forall i, j | 0 <= i < j < |r| ensures r[i].price <= r[j].price {
      if k < j {
        assert sells[k].price <= sells[j - 1].price;
      }
    }
  }


  /** Price-time priority of a push: on a sorted buy side the new buy goes
      behind every buy priced at or above it and ahead of every cheaper one,
      and the side stays sorted. */
  lemma {:induction false} InsertBuyPriority(buys: seq<NodeRec>, n: NodeRec)
    requires BuysSorted(buys)
    ensures var k := BuyPos(buys, n.price);
            var r := InsertBuy(buys, n);
            r[k] == n && r[..k] == buys[..k] && r[k + 1..] == buys[k..]
            && (forall i :: 0 <= i < k ==> buys[i].price >= n.price)
            && (forall i :: k <= i < |buys| ==> buys[i].price < n.price)
            && BuysSorted(r)
  {
    var k := BuyPos(buys, n.price);
    InsertShape(buys, k, n);
    InsertBuySorted(buys, n);
  }

  /** Price-time priority of a push on the sell side, mirroring
      InsertBuyPriority. */
  lemma {:induction false} InsertSellPriority(sells: seq<NodeRec>, n: NodeRec)
    requires SellsSorted(sells)
    ensures var k := SellPos(sells, n.price);
            var r := InsertSell(sells, n);
            r[k] == n && r[..k] == sells[..k] && r[k + 1..] == sells[k..]
            && (forall i :: 0 <= i < k ==> sells[i].price <= n.price)
            && (forall i :: k <= i < |sells| ==> sells[i].price > n.price)
            && SellsSorted(r)
  {
    var k := SellPos(sells, n.price);
    InsertShape(sells, k, n);
    InsertSellSorted(sells, n);
  }

  /** The first resting order with the given guid, or -1. */
  function FindGuid(side: seq<NodeRec>, guid: u64): (i: int)
    ensures -1 <= i < |side|
    ensures 0 <= i ==> side[i].guid == guid && forall j :: 0 <= j < i ==> side[j].guid != guid
    ensures i == -1 <==> forall j :: 0 <= j < |side| ==> side[j].guid != guid
  {
    if side == [] then -1
    else if side[0].guid == guid then 0
    else
      var i := FindGuid(side[1..], guid);
      if i < 0 then -1 else i + 1
  }

  function Delete<T>(s: seq<T>, i: nat): (r: seq<T>)
    requires i < |s|
    ensures |r| == |s| - 1
  {
    s[..i] + s[i + 1..]
  }

  /** How many resting orders on a side carry the guid. */
  function Count(side: seq<NodeRec>, guid: u64): nat
  {
    if side == [] then 0 else (if side[0].guid == guid then 1 else 0) + Count(side[1..], guid)
  }

  datatype Book = Book(buys: seq<NodeRec>, sells: seq<NodeRec>)

  /** MatchQueues.Cancel: the first order with the guid on the buy side, else
      the first on the sell side, taken out of the book. */
  function CancelIn(book: Book, guid: u64): (r: (Book, Option<NodeRec>))
  {
    var i := FindGuid(book.buys, guid);
    if 0 <= i then (Book(Delete(book.buys, i), book.sells), Some(book.buys[i]))
    else
      var j := FindGuid(book.sells, guid);
      if 0 <= j then (Book(book.buys, Delete(book.sells, j)), Some(book.sells[j]))
      else (book, None)
  }

  lemma {:induction false} DeleteFoundCount(side: seq<NodeRec>, guid: u64)
    requires 0 <= FindGuid(side, guid)
    ensures Count(side, guid) > 0
    ensures Count(Delete(side, FindGuid(side, guid)), guid) == Count(side, guid) - 1
  {
    var i := FindGuid(side, guid);
    if i > 0 {
      DeleteFoundCount(side[1..], guid);
      assert Delete(side, i)[1..] == Delete(side[1..], i - 1);
    } else {
      assert Delete(side, 0) == side[1..];
    }
  }

  lemma {:induction false} NotFoundCount(side: seq<NodeRec>, guid: u64)
    requires FindGuid(side, guid) == -1
    ensures Count(side, guid) == 0
  {
    if side != [] {
      NotFoundCount(side[1..], guid);
    }
  }

  /** Cancel takes out one order with the guid when the book holds any,
      reporting it, and otherwise leaves the book as it was and reports none. */
  lemma CancelRemovesOne(book: Book, guid: u64)
    ensures var (book', removed) := CancelIn(book, guid);
            var n := Count(book.buys, guid) + Count(book.sells, guid);
            (removed.None? <==> n == 0)
            && (removed.None? ==> book' == book)
            && (removed.Some? ==> removed.value.guid == guid
                                  && Count(book'.buys, guid) + Count(book'.sells, guid) == n - 1)
  {
    var i := FindGuid(book.buys, guid);
    if 0 <= i {
      DeleteFoundCount(book.buys, guid);
    } else {
      NotFoundCount(book.buys, guid);
      var j := FindGuid(book.sells, guid);
      if 0 <= j {
        DeleteFoundCount(book.sells, guid);
      } else {
        NotFoundCount(book.sells, guid);
      }
    }
  }

  /** A notification: the trader it goes to, the order message and its tag. */
  datatype Note = Note(to: u32, order: Order, tag: string)

  /** completeTrade: the buyer is told with kind `partial`, then the seller
      with kind `full`, both with the trade's price and quantity; a trader
      without a session is skipped. */
  function TradeNotes(sessions: set<u32>, partial: i32, full: i32, f: Fill): (notes: seq<Note>)
    ensures |notes| == (if HighInt32(f.buy.guid) in sessions then 1 else 0)
                       + (if HighInt32(f.sell.guid) in sessions then 1 else 0)
    ensures forall n <- notes :: n.to in sessions && n.to == n.order.uuid && n.tag == Tag1001
                                 && n.order.price == f.price && n.order.quantity == f.quantity
    ensures forall n <- notes :: (n.order.kind == partial && n.order == OrderOf(f.buy).(kind := partial, price := f.price, quantity := f.quantity))
                              || (n.order.kind == full && n.order == OrderOf(f.sell).(kind := full, price := f.price, quantity := f.quantity))
  {
    var buyer := HighInt32(f.buy.guid);
    var seller := HighInt32(f.sell.guid);
    (if buyer in sessions
     then [Note(buyer, Order(buyer, LowInt32(f.buy.guid), f.buy.stockId, partial, f.quantity, f.price), Tag1001)]
     else [])
    + (if seller in sessions
       then [Note(seller, Order(seller, LowInt32(f.sell.guid), f.sell.stockId, full, f.quantity, f.price), Tag1001)]
       else [])
  }

  /** The notifications of a run of fills, in order: the engine always passes
      PARTIAL for the buyer and FULL for the seller. */
  function FillNotes(sessions: set<u32>, fills: seq<Fill>): seq<Note>
  {
    if fills == [] then []
    else FillNotes(sessions, fills[..|fills| - 1]) + TradeNotes(sessions, PARTIAL, FULL, fills[|fills| - 1])
  }

  /** completeCancelled / completeNotCancelled: the owner of the cancelled
      order gets it back with kind CANCEL, or the request comes back with
      kind NOT_CANCELLED; a trader without a session is skipped. */
  function CancelNotes(sessions: set<u32>, request: NodeRec, removed: Option<NodeRec>): (notes: seq<Note>)
    ensures |notes| == (if HighInt32((if removed.Some? then removed.value else request).guid) in sessions then 1 else 0)
    ensures removed.Some? ==> forall n <- notes :: n == Note(HighInt32(removed.value.guid), OrderOf(removed.value).(kind := CANCEL), Tag1002)
    ensures removed.None? ==> forall n <- notes :: n == Note(HighInt32(request.guid), OrderOf(request).(kind := NOT_CANCELLED), Tag1003)
  {
    match removed
    case Some(ro) =>
      var to := HighInt32(ro.guid);
      if to in sessions then [Note(to, OrderOf(ro).(kind := CANCEL), Tag1002)] else []
    case None =>
      var to := HighInt32(request.guid);
      if to in sessions then [Note(to, OrderOf(request).(kind := NOT_CANCELLED), Tag1003)] else []
  }

  /** All the books, by stock. */
  type Market = map<u64, Book>

  /** getMatchQueues on values: the stock's book, empty if it has none yet. */
  function BookAt(m: Market, stockId: u64): Book
  {
    if stockId in m then m[stockId] else Book([], [])
  }

  /** An instruction either runs to completion, giving the new books and the
      notifications sent, or hits the panic on an unknown kind. */
  datatype Outcome = Done(market: Market, notes: seq<Note>) | Crash

  /** addBuy on values: cross the sell side, rest what is left of the buy. */
  function BuyStep(m: Market, sessions: set<u32>, n: NodeRec): (r: Outcome)
  {
    var book := BookAt(m, n.stockId);
    var c := CrossBuy(n, book.sells);
    var buys := if c.consumed then book.buys else InsertBuy(book.buys, c.incoming);
    Done(m[n.stockId := Book(buys, c.book)], FillNotes(sessions, c.fills))
  }

  /** addSell on values: cross the buy side, rest what is left of the sell. */
  function SellStep(m: Market, sessions: set<u32>, n: NodeRec): (r: Outcome)
  {
    var book := BookAt(m, n.stockId);
    var c := CrossSell(n, book.buys);
    var sells := if c.consumed then book.sells else InsertSell(book.sells, c.incoming);
    Done(m[n.stockId := Book(c.book, sells)], FillNotes(sessions, c.fills))
  }

  /** cancel on values: take the order with the request's guid out of the
      book and tell its owner, or tell the requester nothing was cancelled. */
  function CancelStep(m: Market, sessions: set<u32>, n: NodeRec): (r: Outcome)
  {
    var (book', removed) := CancelIn(BookAt(m, n.stockId), n.guid);
    Done(m[n.stockId := book'], CancelNotes(sessions, n, removed))
  }

  /** One instruction, as the dispatch in process runs it. */
  function Step(m: Market, sessions: set<u32>, o: Order): (r: Outcome)
    ensures r.Crash? <==> o.kind != BUY && o.kind != SELL && o.kind != CANCEL
    ensures r.Done? ==> r.market.Keys == m.Keys + {o.stockId}
    ensures r.Done? ==> forall k :: k in m && k != o.stockId ==> r.market[k] == m[k]
  {
    if o.kind == BUY then BuyStep(m, sessions, RecOf(o))
    else if o.kind == SELL then SellStep(m, sessions, RecOf(o))
    else if o.kind == CANCEL then CancelStep(m, sessions, RecOf(o))
    else Crash
  }

  /** A book is orderly when both sides keep price priority and the best buy
      is priced below the best sell. */
  ghost predicate Orderly(book: Book)
  {
    BuysSorted(book.buys) && SellsSorted(book.sells)
    && (book.buys == [] || book.sells == [] || book.buys[0].price < book.sells[0].price)
  }

  lemma SortedTail(side: seq<NodeRec>, k: nat, ascending: bool)
    requires k <= |side|
    requires if ascending then SellsSorted(side) else BuysSorted(side)
    ensures if ascending then SellsSorted(side[k..]) else BuysSorted(side[k..])
  {
  }

  /** What a crossing leaves of a sorted opposite side is still sorted, and
      its best price is no better than before. */
  lemma CrossBuyLeavesSorted(b: NodeRec, sells: seq<NodeRec>)
    requires SellsSorted(sells)
    ensures var c := CrossBuy(b, sells);
            SellsSorted(c.book) && (c.book != [] ==> sells != [] && sells[0].price <= c.book[0].price)
  {
    CrossBuyLeaves(b, sells);
    var c := CrossBuy(b, sells);
    var k := |c.fills|;
    if c.book != sells[k..] {
      assert forall i :: 0 <= i < |c.book| ==> c.book[i].price == sells[k - 1 + i].price;
    }
  }

  lemma CrossSellLeavesSorted(s: NodeRec, buys: seq<NodeRec>)
    requires BuysSorted(buys)
    ensures var c := CrossSell(s, buys);
            BuysSorted(c.book) && (c.book != [] ==> buys != [] && c.book[0].price <= buys[0].price)
  {
    CrossSellLeaves(s, buys);
    var c := CrossSell(s, buys);
    var k := |c.fills|;
    if c.book != buys[k..] {
      assert forall i :: 0 <= i < |c.book| ==> c.book[i].price == buys[k - 1 + i].price;
    }
  }

  lemma DeleteKeepsSorted(side: seq<NodeRec>, i: nat, ascending: bool)
    requires i < |side|
    requires if ascending then SellsSorted(side) else BuysSorted(side)
    ensures var r := Delete(side, i);
            (if ascending then SellsSorted(r) else BuysSorted(r))
            && (r != [] ==> if ascending then side[0].price <= r[0].price else r[0].price <= side[0].price)
  {
    var r := Delete(side, i);
    assert forall j :: 0 <= j < |r| ==> r[j] == (if j < i then side[j] else side[j + 1]);
  }

  /** A buy instruction keeps its book orderly. */
  lemma BuyKeepsOrderly(book: Book, n: NodeRec)
    requires Orderly(book)
    ensures var c := CrossBuy(n, book.sells);
            Orderly(Book(if c.consumed then book.buys else InsertBuy(book.buys, c.incoming), c.book))
  {
    var c := CrossBuy(n, book.sells);
    CrossBuyLeavesSorted(n, book.sells);
    CrossBuyLeaves(n, book.sells);
    if !c.consumed {
      InsertBuyPriority(book.buys, c.incoming);
      CrossBuyConserves(n, book.sells);
      var r := InsertBuy(book.buys, c.incoming);
      assert r[0] == c.incoming || r[0] == book.buys[0];
    }
  }

  /** A sell instruction keeps its book orderly. */
  lemma SellKeepsOrderly(book: Book, n: NodeRec)
    requires Orderly(book)
    ensures var c := CrossSell(n, book.buys);
            Orderly(Book(c.book, if c.consumed then book.sells else InsertSell(book.sells, c.incoming)))
  {
    var c := CrossSell(n, book.buys);
    CrossSellLeavesSorted(n, book.buys);
    CrossSellLeaves(n, book.buys);
    if !c.consumed {
      InsertSellPriority(book.sells, c.incoming);
      CrossSellConserves(n, book.buys);
      var r := InsertSell(book.sells, c.incoming);
      assert r[0] == c.incoming || r[0] == book.sells[0];
    }
  }

  /** A cancel keeps its book orderly. */
  lemma CancelKeepsOrderly(book: Book, guid: u64)
    requires Orderly(book)
    ensures Orderly(CancelIn(book, guid).0)
  {
    var i := FindGuid(book.buys, guid);
    if 0 <= i {
      DeleteKeepsSorted(book.buys, i, false);
    } else {
      var j := FindGuid(book.sells, guid);
      if 0 <= j {
        DeleteKeepsSorted(book.sells, j, true);
      }
    }
  }

  /** Every instruction keeps every book orderly: price priority on both
      sides and no resting buy at or above a resting sell. */
  lemma StepKeepsBooksOrderly(m: Market, sessions: set<u32>, o: Order)
    requires forall k :: k in m ==> Orderly(m[k])
    ensures var r := Step(m, sessions, o);
            r.Done? ==> forall k :: k in r.market ==> Orderly(r.market[k])
  {
    var book := BookAt(m, o.stockId);
    assert Orderly(book);
    if o.kind == BUY {
      BuyKeepsOrderly(book, RecOf(o));
    } else if o.kind == SELL {
      SellKeepsOrderly(book, RecOf(o));
    } else if o.kind == CANCEL {
      CancelKeepsOrderly(book, RecOf(o).guid);
    }
  }

  /** Cancelling the same identity twice, when it rests once, reports the
      cancelled order and then NOT_CANCELLED, and the second cancel leaves
      the books as the first left them. */
  lemma CancelTwice(m: Market, sessions: set<u32>, o: Order)
    requires o.kind == CANCEL
    requires Count(BookAt(m, o.stockId).buys, RecOf(o).guid) + Count(BookAt(m, o.stockId).sells, RecOf(o).guid) == 1
    ensures var r1 := Step(m, sessions, o);
            var r2 := Step(r1.market, sessions, o);
            var removed := CancelIn(BookAt(m, o.stockId), RecOf(o).guid).1;
            removed.Some? && removed.value.guid == RecOf(o).guid
            && r1.notes == CancelNotes(sessions, RecOf(o), removed)
            && r2.market == r1.market
            && r2.notes == CancelNotes(sessions, RecOf(o), None)
  {
    var n := RecOf(o);
    var book := BookAt(m, o.stockId);
    CancelRemovesOne(book, n.guid);
    var book1 := CancelIn(book, n.guid).0;
    var r1 := Step(m, sessions, o);
    assert BookAt(r1.market, o.stockId) == book1;
    CancelRemovesOne(book1, n.guid);
  }

  /** A resting buy of 10 at 100 and an incoming sell of 10 at 100 trade in
      full at 100; the buyer is told PARTIAL and the seller FULL, and the
      book is left empty. */
  lemma ScenarioEqualQuantities()
    ensures var m := map[7 := Book([RecOf(Order(1, 1, 7, BUY, 10, 100))], [])];
            Step(m, {1, 2}, Order(2, 1, 7, SELL, 10, 100))
            == Done(map[7 := Book([], [])],
                    [Note(1, Order(1, 1, 7, PARTIAL, 10, 100), Tag1001),
                     Note(2, Order(2, 1, 7, FULL, 10, 100), Tag1001)])
  {
    var buy := RecOf(Order(1, 1, 7, BUY, 10, 100));
    var sell := RecOf(Order(2, 1, 7, SELL, 10, 100));
    var f := Fill(buy, sell, 100, 10);
    assert CrossSell(sell, [buy]) == Cross(true, sell, [], [f]);
    assert FillNotes({1, 2}, [f]) == TradeNotes({1, 2}, PARTIAL, FULL, f);
  }

  /** A resting buy of 10 at 105 and an incoming sell of 4 at 100 trade 4 at
      102 (100 plus half of 5, truncated); 6 of the buy stay resting. */
  lemma ScenarioPartialFill()
    ensures var m := map[7 := Book([RecOf(Order(1, 1, 7, BUY, 10, 105))], [])];
            Step(m, {1, 2}, Order(2, 1, 7, SELL, 4, 100))
            == Done(map[7 := Book([RecOf(Order(1, 1, 7, BUY, 6, 105))], [])],
                    [Note(1, Order(1, 1, 7, PARTIAL, 4, 102), Tag1001),
                     Note(2, Order(2, 1, 7, FULL, 4, 102), Tag1001)])
  {
    var buy := RecOf(Order(1, 1, 7, BUY, 10, 105));
    var sell := RecOf(Order(2, 1, 7, SELL, 4, 100));
    var buy' := RecOf(Order(1, 1, 7, BUY, 6, 105));
    assert TradePrice(105, 100) == 102;
    var f := Fill(buy', sell, 102, 4);
    assert CrossSell(sell, [buy]) == Cross(true, sell, [buy'], [f]);
    assert FillNotes({1, 2}, [f]) == TradeNotes({1, 2}, PARTIAL, FULL, f);
  }

  /** A cancel for an order that does not rest is answered NOT_CANCELLED, and
      the stock gets an empty book. */
  lemma ScenarioCancelMissing()
    ensures Step(map[], {1}, Order(1, 1, 7, CANCEL, 0, 0))
            == Done(map[7 := Book([], [])], [Note(1, Order(1, 1, 7, NOT_CANCELLED, 0, 0), Tag1003)])
  {
    var n := RecOf(Order(1, 1, 7, CANCEL, 0, 0));
    assert CancelIn(Book([], []), n.guid) == (Book([], []), None);
    assert OrderOf(n) == Order(1, 1, 7, CANCEL, 0, 0);
  }
}
