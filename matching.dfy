/**
 * The crossing loop, the market sweep, order entry and modify as functions of the book's state,
 * with the properties they guarantee.
 */
module Matching {
  import opened Orders
  import opened Levels
  import opened BookState
  import opened BookOps

  /** One execution as the trade line reports it: quantity and price. */
  datatype Trade = Trade(quantity: Quantity, price: Price)

  datatype Step = Step(book: Book, trade: Trade)

  /** The book after an operation and the trades it printed, in order. */
  datatype Outcome = Outcome(book: Book, trades: seq<Trade>)

  /** The quantities of a list of trades, added up. */
  ghost function Traded(ts: seq<Trade>): nat
  {
    if ts == [] then 0 else ts[0].quantity + Traded(ts[1..])
  }

  /**
   * One iteration of `matchOrders` on a crossed book: the front buy of the best bid level trades
   * against the front sell of the best ask level for the smaller of their quantities, at the
   * sell's price; both fronts get the fill bookkeeping.
   */
  ghost function MatchStep(b: Book): (r: Step)
    requires Valid(b)
    requires Crossed(b)
    ensures r.trade.price == BestPrice(b.asks, Sell) <= BestPrice(b.bids, Buy)
  {
    ValidHasHead(b, Buy);
    ValidLevel(b, Sell, BestPrice(b.asks, Sell));
    assert Head(b, Sell) in b.asks[BestPrice(b.asks, Sell)].orders;
    ValidHasHead(b, Sell);
    var buy := Head(b, Buy);
    var sell := Head(b, Sell);
    var t := Min(buy.quantity, sell.quantity);
    Step(FillHead(FillHead(b, Buy, t), Sell, t), Trade(t, sell.price))
  }

  /**
   * `matchOrders`: step while the book is crossed. Each step uses up at least one front order,
   * so the number of resting orders bounds the number of steps. Afterwards the book is not
   * crossed, still valid, and holds no identifier and no price level it did not hold before.
   */
  ghost function Match(b: Book): (r: Outcome)
    requires Valid(b)
    ensures Valid(r.book)
    ensures !Crossed(r.book)
    ensures r.book.orders.Keys <= b.orders.Keys
    ensures r.book.bids.Keys <= b.bids.Keys && r.book.asks.Keys <= b.asks.Keys
    decreases |b.orders|
  {
    if !Crossed(b) then Outcome(b, [])
    else
      MatchStepValid(b);
      var st := MatchStep(b);
      var rest := Match(st.book);
      Outcome(rest.book, [st.trade] + rest.trades)
  }

  /**
   * `processMarketOrder` against resting side `s` with `q` units left: while something is left
   * and the side has levels, fill the front order of its best level.
   */
  ghost function Sweep(b: Book, s: Side, q: Quantity): (r: Book)
    requires Valid(b)
    ensures Valid(r)
    ensures SweepsTo(b, s, q, r)
    ensures r.orders.Keys <= b.orders.Keys && r.orderPrices.Keys <= b.orderPrices.Keys
    ensures SideOf(r, s).Keys <= SideOf(b, s).Keys
    ensures SideOf(r, Opposite(s)) == SideOf(b, Opposite(s))
    ensures Total(SideOf(r, s)) + Min(q, Total(SideOf(b, s))) == Total(SideOf(b, s))
    ensures |SideOf(r, s)| == 0 || Total(SideOf(r, s)) + q == Total(SideOf(b, s))
    decreases |b.orders| + q
  {
    if q == 0 || SideOf(b, s) == map[] then b
    else
      HeadWithinTotal(b, s);
      var t := Min(Head(b, s).quantity, q);
      FillHeadValid(b, s, t);
      var r := Sweep(FillHead(b, s, t), s, q - t);
      TradedStep(Total(SideOf(b, s)), Total(SideOf(FillHead(b, s, t), s)), Head(b, s).quantity, q, Total(SideOf(r, s)));
      r
  }

  /** The arithmetic of one fill of the sweep: `min(q, total)` splits into this fill and the rest. */
  lemma TradedStep(total: nat, total1: nat, h: nat, q: nat, rest: nat)
    requires q > 0 && h <= total
    requires total1 + Min(h, q) == total
    requires rest + Min(q - Min(h, q), total1) == total1
    ensures rest + Min(q, total) == total
  {
  }

  /**
   * `addOrder`: a limit order rests through `processLimitOrder`, a market order sweeps the
   * opposite side; then the crossing loop runs. A limit order's identifier must not be live.
   */
  ghost function Add(b: Book, o: Order): (r: Outcome)
    requires Valid(b)
    requires o.kind == Limit ==> o.id !in b.orders
    ensures Valid(r.book)
    ensures !Crossed(r.book)
  {
    if o.kind == Limit then
      LimitInsertValid(b, o);
      Match(LimitInsert(b, o))
    else
      Match(Sweep(b, Opposite(o.side), o.quantity))
  }

  /**
   * `modifyOrder`: quantity zero is a cancel; an unknown identifier is ignored; otherwise the
   * order is cancelled and added again with the new quantity and its timestamp plus one.
   */
  ghost function Modify(b: Book, id: OrderId, q: Quantity): (r: Outcome)
    requires Valid(b)
    ensures Valid(r.book)
    ensures q == 0 ==> r.trades == []
    ensures q > 0 && id in b.orders ==> !Crossed(r.book)
  {
    if q == 0 then
      CancelValid(b, id);
      Outcome(Cancel(b, id), [])
    else if id !in b.orders then Outcome(b, [])
    else
      CancelValid(b, id);
      Add(Cancel(b, id), Requeued(b.orders[id], q))
  }

  /** The order a nonzero modify re-adds: same identifier, side, type, price and symbol; new quantity; timestamp plus one. */
  function Requeued(o: Order, q: Quantity): (r: Order)
    ensures r == o.(quantity := q, timestamp := o.timestamp + 1)
    ensures r.timestamp > o.timestamp
  {
    Order(o.id, o.side, o.kind, q, o.price, o.timestamp + 1, o.symbol)
  }

  /** Unfolding one step of the crossing loop: its trade comes first, then the rest of the loop's. */
  lemma MatchAfterStep(b: Book)
    requires Valid(b)
    requires Crossed(b)
    ensures Valid(MatchStep(b).book)
    ensures Match(b).book == Match(MatchStep(b).book).book
    ensures Match(b).trades == [MatchStep(b).trade] + Match(MatchStep(b).book).trades
  {
    MatchStepValid(b);
  }

  /**
   * Concatenation of trade lists is associative. Calling it in `MatchOrders` hands the verifier
   * the one regrouping of the trade accumulator that its loop invariant needs, instead of leaving
   * it to search for it.
   */
  lemma AppendAssoc(a: seq<Trade>, b: seq<Trade>, c: seq<Trade>)
    ensures a + (b + c) == (a + b) + c
  {
  }

  /**
   * The market sweep as a relation: from `b` with `q` units left, sweeping side `s` ends in book
   * `r`. It takes the same steps as `Sweep`. It exists as the invariant of the loops of
   * `processMarketOrder`: an equation `Sweep(State(), ..) == goal` between whole books as a loop
   * invariant is far costlier to check than this relation, which needs one unfolding per fill.
   * Each step is a `FillHead` of the front order of the best level (`FillHeadEffect`).
   */
  ghost predicate SweepsTo(b: Book, s: Side, q: Quantity, r: Book)
    requires Valid(b)
    decreases |b.orders| + q
  {
    if q == 0 || SideOf(b, s) == map[] then b == r
    else
      ValidHasHead(b, s);
      var t := Min(Head(b, s).quantity, q);
      FillHeadStep(b, s, t);
      SweepsTo(FillHead(b, s, t), s, q - t, r)
  }


  /**
   * A matching step keeps the book valid, uses up at least one front order, adds no entry, and
   * lowers each side's resting total by exactly the traded quantity.
   */
  lemma MatchStepValid(b: Book)
    requires Valid(b)
    requires Crossed(b)
    ensures Valid(MatchStep(b).book)
    ensures |MatchStep(b).book.orders| < |b.orders|
    ensures MatchStep(b).book.orders.Keys <= b.orders.Keys
    ensures MatchStep(b).book.bids.Keys <= b.bids.Keys && MatchStep(b).book.asks.Keys <= b.asks.Keys
    ensures Total(MatchStep(b).book.bids) + MatchStep(b).trade.quantity == Total(b.bids)
    ensures Total(MatchStep(b).book.asks) + MatchStep(b).trade.quantity == Total(b.asks)
  {
    ValidHasHead(b, Buy);
    ValidHasHead(b, Sell);
    var t := Min(Head(b, Buy).quantity, Head(b, Sell).quantity);
    FillHeadValid(b, Buy, t);
    var b1 := FillHead(b, Buy, t);
    assert SideOf(b1, Sell) == SideOf(b, Sell);
    FillHeadValid(b1, Sell, t);
    var b2 := FillHead(b1, Sell, t);
    assert SideOf(b2, Buy) == SideOf(b1, Buy);
  }
}
