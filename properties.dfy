/** What matching, the market sweep, order entry and modify guarantee about the book. */
module BookProperties {
  import opened Orders
  import opened Levels
  import opened BookState
  import opened BookOps
  import opened Matching

  /** On a book without a cross, the crossing loop changes nothing and trades nothing. */
  lemma MatchIdle(b: Book)
    requires Valid(b)
    requires !Crossed(b)
    ensures Match(b) == Outcome(b, [])
  {
  }

  /** Running the crossing loop a second time right after the first changes nothing. */
  lemma MatchIdempotent(b: Book)
    requires Valid(b)
    ensures Match(Match(b).book) == Outcome(Match(b).book, [])
  {
  }

  /**
   * One matching step trades the front buy against the front sell for the smaller of their
   * quantities, at the sell's price, which is the best ask and no higher than the best bid.
   */
  lemma MatchStepTrade(b: Book)
    requires Valid(b)
    requires Crossed(b)
    ensures HasHead(b, Buy) && HasHead(b, Sell)
    ensures MatchStep(b).trade.quantity == Min(Head(b, Buy).quantity, Head(b, Sell).quantity)
    ensures MatchStep(b).trade.price == BestPrice(b.asks, Sell)
    ensures MatchStep(b).trade.price <= BestPrice(b.bids, Buy)
  {
    ValidHasHead(b, Buy);
    ValidHasHead(b, Sell);
    var p := BestPrice(b.asks, Sell);
    ValidLevel(b, Sell, p);
    assert Head(b, Sell) in b.asks[p].orders;
  }

  /**
   * Quantity conservation of the crossing loop: each side's resting total drops by exactly the
   * sum of the traded quantities.
   */
  lemma {:induction false} MatchConserves(b: Book)
    requires Valid(b)
    ensures Total(b.bids) == Total(Match(b).book.bids) + Traded(Match(b).trades)
    ensures Total(b.asks) == Total(Match(b).book.asks) + Traded(Match(b).trades)
    decreases |b.orders|
  {
    if Crossed(b) {
      MatchStepValid(b);
      var st := MatchStep(b);
      MatchConserves(st.book);
      var rest := Match(st.book);
      assert Match(b).trades == [st.trade] + rest.trades;
      assert ([st.trade] + rest.trades)[1..] == rest.trades;
    }
  }

  /**
   * A market order never rests: after `addOrder` the book holds no identifier and no price level
   * it did not hold before, and in particular not the market order's own identifier unless it
   * was already resting.
   */
  lemma MarketNeverRests(b: Book, o: Order)
    requires Valid(b)
    requires o.kind == Market
    ensures Add(b, o).book.orders.Keys <= b.orders.Keys
    ensures Add(b, o).book.bids.Keys <= b.bids.Keys
    ensures Add(b, o).book.asks.Keys <= b.asks.Keys
    ensures o.id !in b.orders ==> o.id !in Add(b, o).book.orders
  {
    var s := Opposite(o.side);
    var w := Sweep(b, s, o.quantity);
    assert w.bids.Keys <= b.bids.Keys && w.asks.Keys <= b.asks.Keys by {
      if s == Buy {
        assert SideOf(w, Sell) == SideOf(b, Sell);
      } else {
        assert SideOf(w, Buy) == SideOf(b, Buy);
      }
    }
  }

  /** `modifyOrder` with quantity zero is exactly `cancelOrder`. */
  lemma ModifyZeroIsCancel(b: Book, id: OrderId)
    requires Valid(b)
    ensures Modify(b, id, 0) == Outcome(Cancel(b, id), [])
  {
  }

  /** A nonzero modify of an identifier the order index does not hold is a no-op. */
  lemma ModifyUnknown(b: Book, id: OrderId, q: Quantity)
    requires Valid(b)
    requires id !in b.orders
    ensures Modify(b, id, q) == Outcome(b, [])
  {
  }

  /**
   * A nonzero modify of a resting order on an uncrossed book trades nothing and re-queues the
   * order with the same identifier, side and price, the new quantity and its timestamp plus one,
   * at the tail of its level: every other order queued at that price now precedes it.
   */
  lemma ModifyRequeues(b: Book, id: OrderId, q: Quantity)
    requires Valid(b)
    requires !Crossed(b)
    requires id in b.orders
    requires q > 0
    ensures var o := b.orders[id]; var u := Requeued(o, q); var r := Modify(b, id, q);
      && r.trades == []
      && Valid(r.book)
      && r.book.orders == Cancel(b, id).orders[id := u]
      && r.book.orderPrices[id] == o.price
      && o.price in SideOf(b, o.side)
      && SideOf(r.book, o.side)[o.price].orders == RemoveId(SideOf(b, o.side)[o.price], id).orders + [u]
  {
    var o := b.orders[id];
    var u := Requeued(o, q);
    var s := o.side;
    var p := o.price;
    ValidIndexedOrder(b, id);
    CancelValid(b, id);
    CancelShrinks(b, id);
    var c := Cancel(b, id);
    assert id !in c.orders && id !in c.orderPrices;
    LimitInsertValid(c, u);
    LimitInsertShape(c, u);
    var l := LimitInsert(c, u);
    assert l.bids.Keys <= b.bids.Keys && l.asks.Keys <= b.asks.Keys by {
      assert SideOf(l, s).Keys == SideOf(c, s).Keys + {p};
      assert SideOf(l, Opposite(s)) == SideOf(c, Opposite(s));
      if s == Buy {
        assert p in b.bids;
      } else {
        assert p in b.asks;
      }
    }
    NoCrossSubset(b, l);
    assert Modify(b, id, q) == Outcome(l, []);
    var m := SideOf(b, s);
    assert SideOf(c, s) == Put(m, p, RemoveId(m[p], id));
  }
}
