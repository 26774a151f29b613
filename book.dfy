/**
 * The state of the book as a value: two price-keyed sides of FIFO levels and the two
 * identifier-keyed indices, with the invariant the operations keep.
 */
module BookState {
  import opened Orders
  import opened Levels
  import opened PriceKeys

  /** The price levels of one side, keyed by price. */
  type Ladder = map<Price, Depth>

  /**
   * `bids` and `asks` are the two sides; `orders` maps each resting identifier to its order and
   * `orderPrices` maps it to the price of the level that queues it.
   */
  datatype Book = Book(
    bids: Ladder,
    asks: Ladder,
    orders: map<OrderId, Order>,
    orderPrices: map<OrderId, Price>)

  /** The default-constructed book. */
  const EmptyBook := Book(map[], map[], map[], map[])

  /** Bids rest on the buy side, asks on the sell side. */
  function SideOf(b: Book, s: Side): Ladder
  {
    if s == Buy then b.bids else b.asks
  }

  function WithSide(b: Book, s: Side, m: Ladder): (r: Book)
    ensures SideOf(r, s) == m
    ensures SideOf(r, Opposite(s)) == SideOf(b, Opposite(s))
    ensures r.orders == b.orders && r.orderPrices == b.orderPrices
  {
    if s == Buy then b.(bids := m) else b.(asks := m)
  }

  /** Store a level back under its price, erasing the price when the level's queue is empty. */
  function Put(m: Ladder, p: Price, d: Depth): (r: Ladder)
    ensures r.Keys <= m.Keys + {p}
    ensures d.orders == [] <==> p !in r
    ensures p in r ==> r[p] == d
    ensures forall q :: q in m && q != p ==> q in r && r[q] == m[q]
  {
    if d.orders == [] then m - {p} else m[p := d]
  }

  /** On side `s`, price `p` has priority over price `q`: higher for bids, lower for asks. */
  predicate Better(s: Side, p: Price, q: Price)
  {
    if s == Buy then p > q else p < q
  }

  /**
   * The first key of a side: the highest bid (the bids are ordered by `std::greater`) or the
   * lowest ask (the asks are ordered ascending).
   */
  function BestPrice(m: Ladder, s: Side): (p: Price)
    requires m != map[]
    ensures p in m
    ensures forall q :: q in m && q != p ==> Better(s, p, q)
  {
    assert m.Keys != {} by { var k :| k in m; assert k in m.Keys; }
    if s == Buy then MaxKey(m.Keys) else MinKey(m.Keys)
  }

  /** Order `o` is queued on side `s` at price `p` and both indices agree with that copy. */
  ghost predicate Placed(idx: map<OrderId, Order>, px: map<OrderId, Price>, o: Order, s: Side, p: Price)
  {
    && o.side == s && o.kind == Limit && o.price == p
    && o.id in idx && idx[o.id] == o
    && o.id in px && px[o.id] == p
  }

  /** A level that may stay in a side: non-empty, total cached correctly, identifiers distinct, every order indexed. */
  ghost predicate LevelValid(d: Depth, s: Side, p: Price, idx: map<OrderId, Order>, px: map<OrderId, Price>)
  {
    && d.orders != []
    && Consistent(d)
    && DistinctIds(d.orders)
    && forall o :: o in d.orders ==> Placed(idx, px, o, s, p)
  }

  ghost predicate SideValid(m: Ladder, s: Side, idx: map<OrderId, Order>, px: map<OrderId, Price>)
  {
    forall p :: p in m ==> LevelValid(m[p], s, p, idx, px)
  }

  /** An indexed identifier is queued at the level its price index names, on its order's side. */
  ghost predicate Indexed(b: Book, id: OrderId)
    requires id in b.orders
  {
    var s := b.orders[id].side;
    && id in b.orderPrices
    && b.orderPrices[id] in SideOf(b, s)
    && id in Ids(SideOf(b, s)[b.orderPrices[id]].orders)
  }

  /**
   * The book's invariant: every level is non-empty and caches its total; the identifier index
   * and the price index have the same keys; every queued order is indexed by its own value and
   * price, and every indexed identifier is queued where the index says.
   */
  ghost predicate Valid(b: Book)
  {
    && SideValid(b.bids, Buy, b.orders, b.orderPrices)
    && SideValid(b.asks, Sell, b.orders, b.orderPrices)
    && b.orders.Keys == b.orderPrices.Keys
    && forall id :: id in b.orders ==> Indexed(b, id)
  }

  /** Both sides have orders and the best bid reaches the best ask. */
  ghost predicate Crossed(b: Book)
  {
    && b.bids != map[]
    && b.asks != map[]
    && BestPrice(b.bids, Buy) >= BestPrice(b.asks, Sell)
  }

  /** Side `s` has a best level with a front order. */
  ghost predicate HasHead(b: Book, s: Side)
  {
    SideOf(b, s) != map[] && SideOf(b, s)[BestPrice(SideOf(b, s), s)].orders != []
  }

  /** The front order of the best level of side `s`: the next to trade. */
  ghost function Head(b: Book, s: Side): Order
    requires HasHead(b, s)
  {
    SideOf(b, s)[BestPrice(SideOf(b, s), s)].orders[0]
  }

  /**
   * The total resting quantity on a side: the cached totals of its levels added up. The sum
   * splits off the lowest key only to have a fixed order of summation; any key can be split off
   * first with the same result (`TotalRemove`), so it serves both sides.
   */
  ghost function Total(m: Ladder): nat
    decreases |m|
  {
    if m == map[] then 0
    else
      var p := BestPrice(m, Sell);
      assert |m - {p}| < |m| by { assert (m - {p}).Keys == m.Keys - {p}; }
      m[p].totalQty + Total(m - {p})
  }

  /** In a valid book every non-empty side has a front order. */
  lemma ValidHasHead(b: Book, s: Side)
    requires Valid(b)
    requires SideOf(b, s) != map[]
    ensures HasHead(b, s)
  {
    var m := SideOf(b, s);
    var p := BestPrice(m, s);
    if s == Buy { assert LevelValid(m[p], Buy, p, b.orders, b.orderPrices); }
    else { assert LevelValid(m[p], Sell, p, b.orders, b.orderPrices); }
  }

  /** Any one level's total can be split off a side's total. */
  lemma {:induction false} TotalRemove(m: Ladder, p: Price)
    requires p in m
    ensures Total(m) == m[p].totalQty + Total(m - {p})
    decreases |m|
  {
    var q := BestPrice(m, Sell);
    if q != p {
      assert (m - {q}).Keys == m.Keys - {q};
      assert (m - {p}).Keys == m.Keys - {p};
      TotalRemove(m - {q}, p);
      assert m - {p} != map[] by { assert q in m - {p}; }
      TotalRemove(m - {p}, q);
      assert (m - {q}) - {p} == (m - {p}) - {q};
    }
  }

  /** Storing a level back changes the side's total by the change in that level's total. */
  lemma TotalPut(m: Ladder, p: Price, d: Depth)
    requires p in m
    requires d.orders == [] ==> d.totalQty == 0
    ensures Total(Put(m, p, d)) + m[p].totalQty == Total(m) + d.totalQty
  {
    TotalRemove(m, p);
    if d.orders != [] {
      TotalRemove(m[p := d], p);
      assert m[p := d] - {p} == m - {p};
    }
  }

  /** Every level of a valid book is a valid level. */
  lemma ValidLevel(b: Book, s: Side, p: Price)
    requires Valid(b)
    requires p in SideOf(b, s)
    ensures LevelValid(SideOf(b, s)[p], s, p, b.orders, b.orderPrices)
  {
  }

  /** The index entry of a resting identifier is the very order queued at the level its price index names. */
  lemma ValidIndexedOrder(b: Book, id: OrderId)
    requires Valid(b)
    requires id in b.orders
    ensures id in b.orderPrices
    ensures b.orderPrices[id] in SideOf(b, b.orders[id].side)
    ensures b.orders[id] in SideOf(b, b.orders[id].side)[b.orderPrices[id]].orders
    ensures Placed(b.orders, b.orderPrices, b.orders[id], b.orders[id].side, b.orderPrices[id])
    ensures b.orders[id].id == id
  {
    assert Indexed(b, id);
    var s := b.orders[id].side;
    var p := b.orderPrices[id];
    ValidLevel(b, s, p);
    var o :| o in SideOf(b, s)[p].orders && o.id == id;
    assert Placed(b.orders, b.orderPrices, o, s, p);
  }

  /** Taking price levels away cannot create a cross. */
  lemma NoCrossSubset(b: Book, b': Book)
    requires !Crossed(b)
    requires b'.bids.Keys <= b.bids.Keys
    requires b'.asks.Keys <= b.asks.Keys
    ensures !Crossed(b')
  {
    if b'.bids != map[] && b'.asks != map[] {
      var bid', ask' := BestPrice(b'.bids, Buy), BestPrice(b'.asks, Sell);
      assert bid' in b.bids && ask' in b.asks;
      var bid, ask := BestPrice(b.bids, Buy), BestPrice(b.asks, Sell);
      assert bid' <= bid && ask <= ask';
    }
  }
}
