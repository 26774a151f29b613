/**
 * The `OrderBook` object: the two sides and the two indices as fields that its methods update in
 * place. Each method is proved to move the state exactly as the corresponding function of
 * `BookOps` and `Matching` says, so the properties proved about those functions hold of it.
 */
module OrderBooks {
  import opened Orders
  import opened Levels
  import opened BookState
  import opened BookOps
  import opened Matching
  import opened BookProperties

  class OrderBook {
    /** Bid levels; the best bid is the highest key. */
    var bids: Ladder
    /** Ask levels; the best ask is the lowest key. */
    var asks: Ladder
    /** Resting orders by identifier. */
    var orders: map<OrderId, Order>
    /** Price of each resting order's level, by identifier. */
    var orderPrices: map<OrderId, Price>

    /** The fields as a value of the book model. */
    ghost function State(): Book
      reads this
    {
      Book(bids, asks, orders, orderPrices)
    }

    ghost predicate Valid()
      reads this
    {
      BookState.Valid(State())
    }

    /** The default-constructed book is empty and valid. */
    constructor ()
      ensures State() == EmptyBook
      ensures Valid()
    {
      bids := map[];
      asks := map[];
      orders := map[];
      orderPrices := map[];
    }

    function SideMap(s: Side): (m: Ladder)
      reads this
      ensures m == SideOf(State(), s)
    {
      if s == Buy then bids else asks
    }

    method SetSide(s: Side, m: Ladder)
      modifies this
      ensures State() == WithSide(old(State()), s, m)
    {
      if s == Buy {
        bids := m;
      } else {
        asks := m;
      }
    }

    /** Store level `d` under price `p` on side `s`, erasing the price when `d`'s queue is empty. */
    method StoreLevel(s: Side, p: Price, d: Depth)
      modifies this
      ensures State() == WithSide(old(State()), s, Put(old(SideMap(s)), p, d))
    {
      var m := SideMap(s);
      SetSide(s, if d.orders == [] then m - {p} else m[p := d]);
    }

    /** `getBestBid`: the highest bid price, or 0 when there are no bids. */
    function BestBid(): (p: Price)
      reads this
      ensures bids == map[] ==> p == 0
      ensures bids != map[] ==> p in bids && forall q :: q in bids ==> q <= p
    {
      if bids == map[] then 0 else BestPrice(bids, Buy)
    }

    /** `getBestAsk`: the lowest ask price, or 0 when there are no asks. */
    function BestAsk(): (p: Price)
      reads this
      ensures asks == map[] ==> p == 0
      ensures asks != map[] ==> p in asks && forall q :: q in asks ==> p <= q
    {
      if asks == map[] then 0 else BestPrice(asks, Sell)
    }

    /**
     * `getDepth`: the bid level at `price` if there is one, else the ask level, else an empty
     * level.
     */
    function GetDepth(price: Price): (d: Depth)
      reads this
      ensures price in bids ==> d == bids[price]
      ensures price !in bids && price in asks ==> d == asks[price]
      ensures price !in bids && price !in asks ==> d == EmptyDepth
    {
      if price in bids then bids[price]
      else if price in asks then asks[price]
      else EmptyDepth
    }

    /**
     * In a valid book the level `getDepth` reports caches the sum of its orders' quantities, and
     * queues only limit orders at `price` with distinct identifiers, each one resting.
     */
    lemma GetDepthValid(price: Price)
      requires Valid()
      ensures Consistent(GetDepth(price))
      ensures DistinctIds(GetDepth(price).orders)
      ensures forall o :: o in GetDepth(price).orders ==> o.price == price && o.kind == Limit && o.id in orders
    {
      if price in bids {
        ValidLevel(State(), Buy, price);
      } else if price in asks {
        ValidLevel(State(), Sell, price);
      }
    }

    /**
     * `processLimitOrder`: append the order at the tail of the level at its price on its side
     * and add its quantity to the level total, then record it in both indices unless its
     * identifier is already there. A fresh limit order keeps the book valid.
     */
    method ProcessLimitOrder(o: Order)
      modifies this
      ensures State() == LimitInsert(old(State()), o)
      ensures old(Valid()) && o.kind == Limit && o.id !in old(orders) ==> Valid()
    {
      ghost var b := State();
      var m := SideMap(o.side);
      var d := if o.price in m then m[o.price] else EmptyDepth;
      var d1 := Depth(d.orders + [o], d.totalQty + o.quantity);
      assert d1 == PushBack(d, o);
      SetSide(o.side, m[o.price := d1]);
      if o.id !in orders {
        orders := orders[o.id := o];
      }
      if o.id !in orderPrices {
        orderPrices := orderPrices[o.id := o.price];
      }
      if BookState.Valid(b) && o.kind == Limit && o.id !in b.orders {
        LimitInsertValid(b, o);
      }
    }

    /**
     * The fill bookkeeping `matchOrders` and `processMarketOrder` share: take `t` units off the
     * front order of side `s`'s best level and off the level total (floored at zero); pop an
     * order left at zero and erase it from both indices, or else write its new quantity back
     * into the order index; erase a level left empty.
     */
    method FillFront(s: Side, t: Quantity)
      requires HasHead(State(), s)
      requires t <= Head(State(), s).quantity
      modifies this
      ensures State() == FillHead(old(State()), s, t)
    {
      ghost var b := State();
      var m := SideMap(s);
      var p := BestPrice(m, s);
      var d := m[p];
      var resting := d.orders[0].(quantity := d.orders[0].quantity - t);
      var total := if d.totalQty >= t then d.totalQty - t else 0;
      assert total == ClampSub(d.totalQty, t);
      if resting.quantity == 0 {
        orders := orders - {resting.id};
        orderPrices := orderPrices - {resting.id};
        d := Depth(d.orders[1..], total);
      } else {
        if resting.id in orders {
          orders := orders[resting.id := orders[resting.id].(quantity := resting.quantity)];
        }
        d := Depth(d.orders[0 := resting], total);
      }
      ghost var r := FillHead(b, s, t);
      assert orders == r.orders && orderPrices == r.orderPrices;
      StoreLevel(s, p, d);
    }

    /**
     * `cancelOrder`: look the identifier up in the order index, then in the price index; walk
     * the queue of the level at that price on the order's side for the first order with that
     * identifier, take its quantity off the level total (floored at zero) and erase it; erase the
     * level if its queue is empty; finally erase both index entries.
     */
    method CancelOrder(id: OrderId)
      modifies this
      ensures State() == Cancel(old(State()), id)
      ensures old(Valid()) ==> Valid()
    {
      ghost var b := State();
      if BookState.Valid(b) {
        CancelValid(b, id);
      }
      if id !in orders {
        return;
      }
      var side := orders[id].side;
      if id !in orderPrices {
        orders := orders - {id};
        return;
      }
      var px := orderPrices[id];
      var m := SideMap(side);
      if px in m {
        var d := m[px];
        var i := FindOrder(d.orders, id);
        if i < |d.orders| {
          var total := if d.totalQty >= d.orders[i].quantity then d.totalQty - d.orders[i].quantity else 0;
          d := Depth(d.orders[..i] + d.orders[i + 1..], total);
        }
        assert d == RemoveId(m[px], id);
        StoreLevel(side, px, d);
      }
      orders := orders - {id};
      orderPrices := orderPrices - {id};
    }

    /**
     * One iteration of `matchOrders` on a crossed book: trade the front buy of the best bid
     * level against the front sell of the best ask level for the smaller of their quantities,
     * at the sell's price, and do the fill bookkeeping on both.
     */
    method TradeFronts() returns (trade: Trade)
      requires Valid()
      requires Crossed(State())
      modifies this
      ensures Valid()
      ensures |orders| < old(|orders|)
      ensures Match(State()).book == Match(old(State())).book
      ensures Match(old(State())).trades == [trade] + Match(State()).trades
      ensures State() == MatchStep(old(State())).book
      ensures trade == MatchStep(old(State())).trade
    {
      ghost var b := State();
      MatchStepValid(b);
      MatchAfterStep(b);
      ValidHasHead(b, Buy);
      ValidHasHead(b, Sell);
      var buy := bids[BestPrice(bids, Buy)].orders[0];
      var sell := asks[BestPrice(asks, Sell)].orders[0];
      var traded := Min(buy.quantity, sell.quantity);
      FillFront(Buy, traded);
      FillFront(Sell, traded);
      trade := Trade(traded, sell.price);
    }

    /**
     * `matchOrders`: trade the fronts while both sides have levels and the best bid is not
     * below the best ask. The trades come back in the order the trade lines are printed.
     */
    method MatchOrders() returns (trades: seq<Trade>)
      requires Valid()
      modifies this
      ensures Valid()
      ensures Outcome(State(), trades) == Match(old(State()))
    {
      ghost var goal := Match(State());
      trades := [];
      while bids != map[] && asks != map[]
        invariant Valid()
        invariant goal.book == Match(State()).book
        invariant goal.trades == trades + Match(State()).trades
        decreases |orders|
      {
        if BestPrice(bids, Buy) < BestPrice(asks, Sell) {
          break;
        }
        var trade := TradeFronts();
        AppendAssoc(trades, [trade], Match(State()).trades);
        trades := trades + [trade];
      }
      MatchIdle(State());
      assert trades + [] == trades;
    }

    /**
     * One iteration of the inner loop of `processMarketOrder`: fill the front order of level `p`,
     * the best of side `s`, for as much as it and the incoming order have.
     */
    method SweepFront(s: Side, p: Price, qtyLeft: Quantity, ghost goal: Book) returns (left: Quantity)
      requires Valid()
      requires SideMap(s) != map[] && p == BestPrice(SideMap(s), s)
      requires qtyLeft > 0
      requires SweepsTo(State(), s, qtyLeft, goal)
      modifies this
      ensures Valid()
      ensures SideMap(s).Keys <= old(SideMap(s).Keys)
      ensures |orders| + left < old(|orders|) + qtyLeft
      ensures SweepsTo(State(), s, left, goal)
    {
      ghost var b := State();
      ValidHasHead(b, s);
      var resting := SideMap(s)[p].orders[0];
      var tradeQty := Min(resting.quantity, qtyLeft);
      FillFront(s, tradeQty);
      left := qtyLeft - tradeQty;
      FillHeadStep(b, s, tradeQty);
    }

    /**
     * `processMarketOrder`: while quantity is left and the opposite side has levels, fill the
     * front orders of its best level one after the other for as much as both have, until the
     * level is gone or nothing is left.
     */
    method ProcessMarketOrder(o: Order)
      requires Valid()
      modifies this
      ensures Valid()
      ensures State() == Sweep(old(State()), Opposite(o.side), o.quantity)
    {
      var s := Opposite(o.side);
      var qtyLeft := o.quantity;
      ghost var goal := Sweep(State(), s, qtyLeft);
      while qtyLeft > 0 && SideMap(s) != map[]
        invariant Valid()
        invariant SweepsTo(State(), s, qtyLeft, goal)
        decreases |orders| + qtyLeft
      {
        var p := BestPrice(SideMap(s), s);
        ghost var keys0 := SideMap(s).Keys;
        ghost var m0 := |orders| + qtyLeft;
        ghost var stepped := false;
        while p in SideMap(s) && qtyLeft > 0
          invariant Valid()
          invariant SweepsTo(State(), s, qtyLeft, goal)
          invariant SideMap(s).Keys <= keys0
          invariant forall q :: q in keys0 && q != p ==> Better(s, p, q)
          invariant stepped ==> |orders| + qtyLeft < m0
          invariant !stepped ==> p in SideMap(s) && qtyLeft > 0 && |orders| + qtyLeft == m0
          decreases |orders| + qtyLeft
        {
          StillBest(SideMap(s), s, p, keys0);
          qtyLeft := SweepFront(s, p, qtyLeft, goal);
          stepped := true;
        }
      }
    }

    /**
     * `addOrder`: a limit order rests, a market order sweeps the opposite side; then the
     * crossing loop runs. A limit order's identifier must not be resting already.
     */
    method AddOrder(o: Order) returns (trades: seq<Trade>)
      requires Valid()
      requires o.kind == Limit ==> o.id !in orders
      modifies this
      ensures Valid()
      ensures Outcome(State(), trades) == Add(old(State()), o)
    {
      if o.kind == Limit {
        ProcessLimitOrder(o);
      } else {
        ProcessMarketOrder(o);
      }
      trades := MatchOrders();
    }

    /**
     * `modifyOrder`: quantity zero cancels; an unknown identifier is ignored; otherwise the
     * order is cancelled and added again with the new quantity and its timestamp plus one.
     */
    method ModifyOrder(id: OrderId, newQuantity: Quantity) returns (trades: seq<Trade>)
      requires Valid()
      modifies this
      ensures Valid()
      ensures Outcome(State(), trades) == Modify(old(State()), id, newQuantity)
    {
      if newQuantity == 0 {
        CancelOrder(id);
        return [];
      }
      if id !in orders {
        return [];
      }
      ghost var b := State();
      var previous := orders[id];
      CancelOrder(id);
      var updated := Order(previous.id, previous.side, previous.kind, newQuantity,
                           previous.price, previous.timestamp + 1, previous.symbol);
      assert updated == Requeued(b.orders[id], newQuantity);
      assert Modify(b, id, newQuantity) == Add(Cancel(b, id), updated);
      trades := AddOrder(updated);
    }
  }

  /** A price that beat every other key of a set still is the best of any subset holding it. */
  lemma StillBest(m: Ladder, s: Side, p: Price, keys: set<Price>)
    requires p in m
    requires m.Keys <= keys
    requires forall q :: q in keys && q != p ==> Better(s, p, q)
    ensures BestPrice(m, s) == p
  {
  }
}
