/**
 * The single-step operations on the book as functions of its state: limit insert, cancel and
 * the fill of a side's front order that matching and the market sweep share.
 */
module BookOps {
  import opened Orders
  import opened Levels
  import opened BookState

  /**
   * `processLimitOrder`: append `o` at the tail of the level at its price on its side (creating
   * the level if absent) and add its quantity to the level's total; then `emplace` it into both
   * indices, which leaves an existing entry for the same identifier in place.
   */
  ghost function LimitInsert(b: Book, o: Order): (r: Book)
    ensures o.price in SideOf(r, o.side)
    ensures SideOf(r, Opposite(o.side)) == SideOf(b, Opposite(o.side))
    ensures r.orders.Keys == b.orders.Keys + {o.id} && r.orderPrices.Keys == b.orderPrices.Keys + {o.id}
    ensures o.id in b.orders ==> r.orders[o.id] == b.orders[o.id]
    ensures o.id !in b.orders ==> r.orders[o.id] == o
  {
    var m := SideOf(b, o.side);
    var d := if o.price in m then m[o.price] else EmptyDepth;
    WithSide(b, o.side, m[o.price := PushBack(d, o)]).(
      orders := if o.id in b.orders then b.orders else b.orders[o.id := o],
      orderPrices := if o.id in b.orderPrices then b.orderPrices else b.orderPrices[o.id := o.price])
  }

  /**
   * `cancelOrder`: an identifier missing from the order index changes nothing; one missing only
   * from the price index is dropped from the order index; otherwise the first queued copy is
   * removed from the level at the indexed price on the order's side, the level is erased if its
   * queue is now empty, and both index entries are erased.
   */
  ghost function Cancel(b: Book, id: OrderId): (r: Book)
    ensures id !in b.orders ==> r == b
    ensures id in b.orders ==> r.orders == b.orders - {id} && id !in r.orderPrices
    ensures r.orderPrices.Keys <= b.orderPrices.Keys
  {
    if id !in b.orders then b
    else if id !in b.orderPrices then b.(orders := b.orders - {id})
    else
      var s := b.orders[id].side;
      var px := b.orderPrices[id];
      var m := SideOf(b, s);
      var m' := if px in m then Put(m, px, RemoveId(m[px], id)) else m;
      WithSide(b, s, m').(orders := b.orders - {id}, orderPrices := b.orderPrices - {id})
  }

  /**
   * The bookkeeping for one fill of `t` units against the front order of side `s`'s best level:
   * lower the order and the level total (floored at zero); an order left at zero is popped and
   * erased from both indices, otherwise its reduced quantity is written back into the order
   * index; a level left empty is erased.
   */
  ghost function FillHead(b: Book, s: Side, t: Quantity): (r: Book)
    requires HasHead(b, s)
    requires t <= Head(b, s).quantity
    ensures SideOf(r, Opposite(s)) == SideOf(b, Opposite(s))
  {
    var m := SideOf(b, s);
    var p := BestPrice(m, s);
    var d := m[p];
    var o := d.orders[0].(quantity := d.orders[0].quantity - t);
    var d1 := Depth(d.orders[0 := o], ClampSub(d.totalQty, t));
    if o.quantity == 0 then
      WithSide(b, s, Put(m, p, d1.(orders := d1.orders[1..]))).(
        orders := b.orders - {o.id},
        orderPrices := b.orderPrices - {o.id})
    else
      WithSide(b, s, Put(m, p, d1)).(
        orders := if o.id in b.orders then b.orders[o.id := b.orders[o.id].(quantity := o.quantity)] else b.orders)
  }

  /** Removal of the `i`-th order of the level at `p` on side `s`, from the queue and both indices. */
  ghost function Evict(b: Book, s: Side, p: Price, i: nat): Book
    requires p in SideOf(b, s)
    requires i < |SideOf(b, s)[p].orders|
  {
    var d := SideOf(b, s)[p];
    var id := d.orders[i].id;
    WithSide(b, s, Put(SideOf(b, s), p, Depth(RemoveAt(d.orders, i), ClampSub(d.totalQty, d.orders[i].quantity)))).(
      orders := b.orders - {id},
      orderPrices := b.orderPrices - {id})
  }

  /** A fresh limit order keeps the book valid. */
  lemma LimitInsertValid(b: Book, o: Order)
    requires Valid(b)
    requires o.kind == Limit
    requires o.id !in b.orders
    ensures Valid(LimitInsert(b, o))
  {
    var r := LimitInsert(b, o);
    FreshIdNotQueued(b, o);
    LimitInsertSide(b, o, Buy);
    LimitInsertSide(b, o, Sell);
    assert SideValid(r.bids, Buy, r.orders, r.orderPrices);
    assert SideValid(r.asks, Sell, r.orders, r.orderPrices);
    LimitInsertIndexed(b, o);
  }

  /**
   * A limit order lands at the tail of the level at its price, behind every order already queued
   * there, and no other level changes. This holds even when its identifier is already resting:
   * `push_back` still queues the copy, while `emplace` keeps both existing index entries and adds
   * them only for a new identifier.
   */
  lemma LimitInsertShape(b: Book, o: Order)
    ensures var m := SideOf(b, o.side);
      SideOf(LimitInsert(b, o), o.side)[o.price].orders == (if o.price in m then m[o.price].orders else []) + [o]
    ensures SideOf(LimitInsert(b, o), Opposite(o.side)) == SideOf(b, Opposite(o.side))
    ensures SideOf(LimitInsert(b, o), o.side).Keys == SideOf(b, o.side).Keys + {o.price}
    ensures forall q :: q in SideOf(b, o.side) && q != o.price ==> SideOf(LimitInsert(b, o), o.side)[q] == SideOf(b, o.side)[q]
    ensures o.id !in b.orders ==> LimitInsert(b, o).orders == b.orders[o.id := o]
    ensures o.id in b.orders ==> LimitInsert(b, o).orders == b.orders
    ensures o.id !in b.orderPrices ==> LimitInsert(b, o).orderPrices == b.orderPrices[o.id := o.price]
    ensures o.id in b.orderPrices ==> LimitInsert(b, o).orderPrices == b.orderPrices
  {
  }

  /** An identifier absent from the order index is queued nowhere. */
  lemma FreshIdNotQueued(b: Book, o: Order)
    requires Valid(b)
    requires o.id !in b.orders
    ensures var m := SideOf(b, o.side);
      o.price in m ==> o.id !in Ids(m[o.price].orders)
  {
    var m := SideOf(b, o.side);
    if o.price in m {
      ValidLevel(b, o.side, o.price);
      forall o2 | o2 in m[o.price].orders ensures o2.id != o.id {
        assert Placed(b.orders, b.orderPrices, o2, o.side, o.price);
      }
    }
  }

  /** A fresh limit insert keeps both indices in step with the levels. */
  lemma LimitInsertIndexed(b: Book, o: Order)
    requires Valid(b)
    requires o.kind == Limit
    requires o.id !in b.orders
    ensures var r := LimitInsert(b, o);
      r.orders.Keys == r.orderPrices.Keys && forall id :: id in r.orders ==> Indexed(r, id)
  {
    var r := LimitInsert(b, o);
    assert o.id !in b.orderPrices;
    assert r.orders == b.orders[o.id := o];
    assert r.orderPrices == b.orderPrices[o.id := o.price];
    forall id | id in r.orders ensures Indexed(r, id) {
      if id != o.id {
        LimitInsertKeepsIndexed(b, o, id);
      } else {
        LimitInsertIndexesNew(b, o);
      }
    }
  }

  /** The inserted order is indexed at the level it joins. */
  lemma LimitInsertIndexesNew(b: Book, o: Order)
    requires o.id !in b.orders && o.id !in b.orderPrices
    ensures var r := LimitInsert(b, o); o.id in r.orders && Indexed(r, o.id)
  {
    var r := LimitInsert(b, o);
    var d := if o.price in SideOf(b, o.side) then SideOf(b, o.side)[o.price] else EmptyDepth;
    assert r.orders[o.id] == o && r.orderPrices[o.id] == o.price;
    assert SideOf(r, o.side)[o.price] == PushBack(d, o);
  }

  /** An identifier indexed before a fresh limit insert is still indexed after it. */
  lemma LimitInsertKeepsIndexed(b: Book, o: Order, id: OrderId)
    requires id in b.orders && Indexed(b, id)
    requires o.id !in b.orders && o.id !in b.orderPrices
    ensures var r := LimitInsert(b, o); id in r.orders && Indexed(r, id)
  {
    var r := LimitInsert(b, o);
    var s := o.side;
    var p := o.price;
    var m := SideOf(b, s);
    var d := if p in m then m[p] else EmptyDepth;
    var s2 := b.orders[id].side;
    var p2 := b.orderPrices[id];
    assert r.orders[id] == b.orders[id] && r.orderPrices[id] == p2;
    if s2 == s && p2 == p {
      assert SideOf(r, s2)[p2] == PushBack(d, o);
    } else if s2 == s {
      assert SideOf(r, s2)[p2] == SideOf(b, s2)[p2];
    } else {
      assert s2 == Opposite(s);
      assert SideOf(r, s2) == SideOf(b, s2);
    }
  }

  /** A fresh limit insert keeps every level of side `s2` valid. */
  lemma LimitInsertSide(b: Book, o: Order, s2: Side)
    requires Valid(b)
    requires o.kind == Limit
    requires o.id !in b.orders
    requires var d := if o.price in SideOf(b, o.side) then SideOf(b, o.side)[o.price] else EmptyDepth;
      o.id !in Ids(d.orders)
    ensures var r := LimitInsert(b, o); SideValid(SideOf(r, s2), s2, r.orders, r.orderPrices)
  {
    var r := LimitInsert(b, o);
    assert o.id !in b.orderPrices;
    forall q | q in SideOf(r, s2) ensures LevelValid(SideOf(r, s2)[q], s2, q, r.orders, r.orderPrices) {
      if s2 == o.side && q == o.price {
        if q in SideOf(b, s2) { ValidLevel(b, s2, q); }
        LimitInsertLevel(b, o);
      } else {
        assert q in SideOf(b, s2) && SideOf(r, s2)[q] == SideOf(b, s2)[q];
        ValidLevel(b, s2, q);
        LimitInsertOtherLevel(b, o, s2, q);
      }
    }
  }

  /** The level a fresh limit order joins, created if absent, stays valid with the order at its tail. */
  lemma LimitInsertLevel(b: Book, o: Order)
    requires o.kind == Limit
    requires o.id !in b.orders && o.id !in b.orderPrices
    requires var m := SideOf(b, o.side);
      o.price in m ==> LevelValid(m[o.price], o.side, o.price, b.orders, b.orderPrices)
    requires var d := if o.price in SideOf(b, o.side) then SideOf(b, o.side)[o.price] else EmptyDepth;
      o.id !in Ids(d.orders)
    ensures var r := LimitInsert(b, o);
      o.price in SideOf(r, o.side) && LevelValid(SideOf(r, o.side)[o.price], o.side, o.price, r.orders, r.orderPrices)
  {
    var r := LimitInsert(b, o);
    var m := SideOf(b, o.side);
    var d := if o.price in m then m[o.price] else EmptyDepth;
    var l := PushBack(d, o);
    assert SideOf(r, o.side)[o.price] == l;
    assert r.orders == b.orders[o.id := o] && r.orderPrices == b.orderPrices[o.id := o.price];
    forall o2 | o2 in l.orders ensures Placed(r.orders, r.orderPrices, o2, o.side, o.price) {
      if o2 != o {
        assert o2 in d.orders;
        assert Placed(b.orders, b.orderPrices, o2, o.side, o.price);
      }
    }
  }

  /** A level a fresh limit order does not join stays valid: the new index entries are for a new identifier. */
  lemma LimitInsertOtherLevel(b: Book, o: Order, s2: Side, q: Price)
    requires o.id !in b.orders && o.id !in b.orderPrices
    requires q in SideOf(b, s2) && LevelValid(SideOf(b, s2)[q], s2, q, b.orders, b.orderPrices)
    ensures var r := LimitInsert(b, o); LevelValid(SideOf(b, s2)[q], s2, q, r.orders, r.orderPrices)
  {
    var r := LimitInsert(b, o);
    assert r.orders == b.orders[o.id := o] && r.orderPrices == b.orderPrices[o.id := o.price];
    forall o2 | o2 in SideOf(b, s2)[q].orders ensures Placed(r.orders, r.orderPrices, o2, s2, q) {
      assert Placed(b.orders, b.orderPrices, o2, s2, q);
    }
  }

  /** Removing any queued order, with its index entries, keeps the book valid. */
  lemma EvictValid(b: Book, s: Side, p: Price, i: nat)
    requires Valid(b)
    requires p in SideOf(b, s)
    requires i < |SideOf(b, s)[p].orders|
    ensures Valid(Evict(b, s, p, i))
  {
    EvictSide(b, s, p, i, Buy);
    EvictSide(b, s, p, i, Sell);
    EvictIndexed(b, s, p, i);
  }

  /** An eviction keeps every level of side `s2` valid; the level it empties is erased. */
  lemma EvictSide(b: Book, s: Side, p: Price, i: nat, s2: Side)
    requires Valid(b)
    requires p in SideOf(b, s)
    requires i < |SideOf(b, s)[p].orders|
    ensures var r := Evict(b, s, p, i); SideValid(SideOf(r, s2), s2, r.orders, r.orderPrices)
  {
    var m := SideOf(b, s);
    var d := m[p];
    var o := d.orders[i];
    var id := o.id;
    var r := Evict(b, s, p, i);
    var d' := Depth(RemoveAt(d.orders, i), ClampSub(d.totalQty, o.quantity));
    ValidLevel(b, s, p);
    assert o in d.orders;
    assert Placed(b.orders, b.orderPrices, o, s, p);
    RemoveAtFacts(d.orders, i);
    QtySumBounds(d.orders, i);
    assert Consistent(d');
    forall q | q in SideOf(r, s2) ensures LevelValid(SideOf(r, s2)[q], s2, q, r.orders, r.orderPrices) {
      var l := SideOf(r, s2)[q];
      if s2 == s && q == p {
        assert l == d';
        forall o2 | o2 in l.orders ensures Placed(r.orders, r.orderPrices, o2, s2, q) {
          assert o2 in d.orders;
          assert Placed(b.orders, b.orderPrices, o2, s2, q);
          assert o2.id in Ids(d'.orders);
        }
      } else {
        assert q in SideOf(b, s2) && l == SideOf(b, s2)[q];
        ValidLevel(b, s2, q);
        forall o2 | o2 in l.orders ensures Placed(r.orders, r.orderPrices, o2, s2, q) {
          assert Placed(b.orders, b.orderPrices, o2, s2, q);
        }
      }
    }
  }

  /** An eviction keeps both indices in step with the levels. */
  lemma EvictIndexed(b: Book, s: Side, p: Price, i: nat)
    requires Valid(b)
    requires p in SideOf(b, s)
    requires i < |SideOf(b, s)[p].orders|
    ensures var r := Evict(b, s, p, i);
      r.orders.Keys == r.orderPrices.Keys && forall id :: id in r.orders ==> Indexed(r, id)
  {
    var m := SideOf(b, s);
    var d := m[p];
    var o := d.orders[i];
    var r := Evict(b, s, p, i);
    ValidLevel(b, s, p);
    assert o in d.orders;
    assert Placed(b.orders, b.orderPrices, o, s, p);
    RemoveAtFacts(d.orders, i);
    forall id | id in r.orders ensures Indexed(r, id) {
      assert Indexed(b, id);
      var o2 := b.orders[id];
      var p2 := b.orderPrices[id];
      if o2.side == s && p2 == p {
        assert id in Ids(RemoveAt(d.orders, i));
      }
    }
  }

  /** On a valid book, cancelling a resting order is evicting it from the position where the scan finds it. */
  lemma CancelIsEvict(b: Book, id: OrderId)
    requires Valid(b)
    requires id in b.orders
    ensures var s := b.orders[id].side; var p := b.orderPrices[id];
      && p in SideOf(b, s)
      && FirstIndexOf(SideOf(b, s)[p].orders, id) < |SideOf(b, s)[p].orders|
      && Cancel(b, id) == Evict(b, s, p, FirstIndexOf(SideOf(b, s)[p].orders, id))
  {
    ValidIndexedOrder(b, id);
    var s := b.orders[id].side;
    var p := b.orderPrices[id];
    var d := SideOf(b, s)[p];
    var i := FirstIndexOf(d.orders, id);
    assert id in Ids(d.orders);
    assert RemoveId(d, id) == Depth(RemoveAt(d.orders, i), ClampSub(d.totalQty, d.orders[i].quantity));
    assert d.orders[i].id == id;
  }

  /** Cancel keeps a valid book valid. */
  lemma CancelValid(b: Book, id: OrderId)
    requires Valid(b)
    ensures Valid(Cancel(b, id))
  {
    if id in b.orders {
      CancelIsEvict(b, id);
      var s := b.orders[id].side;
      var p := b.orderPrices[id];
      EvictValid(b, s, p, FirstIndexOf(SideOf(b, s)[p].orders, id));
    }
  }

  /** A fill that uses up the front order is its eviction. */
  lemma FillHeadPopped(b: Book, s: Side, t: Quantity)
    requires Valid(b)
    requires HasHead(b, s)
    requires t == Head(b, s).quantity
    ensures FillHead(b, s, t) == Evict(b, s, BestPrice(SideOf(b, s), s), 0)
  {
    var m := SideOf(b, s);
    var p := BestPrice(m, s);
    var d := m[p];
    var o := d.orders[0].(quantity := 0);
    assert d.orders[0 := o][1..] == d.orders[1..] == RemoveAt(d.orders, 0);
  }

  /** A fill that leaves the front order with quantity keeps the book valid. */
  lemma FillHeadPartialValid(b: Book, s: Side, t: Quantity)
    requires Valid(b)
    requires HasHead(b, s)
    requires t < Head(b, s).quantity
    ensures Valid(FillHead(b, s, t))
  {
    FillHeadPartialSide(b, s, t, Buy);
    FillHeadPartialSide(b, s, t, Sell);
    FillHeadPartialIndexed(b, s, t);
  }

  /** A partial fill keeps every level of side `s2` valid. */
  lemma FillHeadPartialSide(b: Book, s: Side, t: Quantity, s2: Side)
    requires Valid(b)
    requires HasHead(b, s)
    requires t < Head(b, s).quantity
    ensures var r := FillHead(b, s, t); SideValid(SideOf(r, s2), s2, r.orders, r.orderPrices)
  {
    var p := BestPrice(SideOf(b, s), s);
    var r := FillHead(b, s, t);
    ValidLevel(b, s, p);
    var h := SideOf(b, s)[p].orders[0];
    assert h in SideOf(b, s)[p].orders;
    assert Placed(b.orders, b.orderPrices, h, s, p);
    forall q | q in SideOf(r, s2) ensures LevelValid(SideOf(r, s2)[q], s2, q, r.orders, r.orderPrices) {
      if s2 == s && q == p {
        FillHeadPartialLevel(b, s, t);
      } else {
        assert q in SideOf(b, s2) && SideOf(r, s2)[q] == SideOf(b, s2)[q];
        ValidLevel(b, s2, q);
        FillHeadPartialOtherLevel(b, s, t, s2, q);
      }
    }
  }

  /** The level a partial fill touches stays valid: its front order is rewritten in place and in the index. */
  lemma FillHeadPartialLevel(b: Book, s: Side, t: Quantity)
    requires HasHead(b, s)
    requires t < Head(b, s).quantity
    requires var p := BestPrice(SideOf(b, s), s); LevelValid(SideOf(b, s)[p], s, p, b.orders, b.orderPrices)
    ensures var r := FillHead(b, s, t); var p := BestPrice(SideOf(b, s), s);
      p in SideOf(r, s) && LevelValid(SideOf(r, s)[p], s, p, r.orders, r.orderPrices)
  {
    var m := SideOf(b, s);
    var p := BestPrice(m, s);
    var d := m[p];
    var h := d.orders[0];
    var o := h.(quantity := h.quantity - t);
    var d1 := Depth(d.orders[0 := o], ClampSub(d.totalQty, t));
    var r := FillHead(b, s, t);
    assert h in d.orders;
    assert Placed(b.orders, b.orderPrices, h, s, p);
    assert r.orders == b.orders[h.id := o];
    assert r.orderPrices == b.orderPrices;
    assert SideOf(r, s)[p] == d1;
    assert QtySum(d1.orders) + t == QtySum(d.orders) by {
      assert d1.orders[1..] == d.orders[1..];
    }
    IdsUpdate(d.orders, 0, o);
    forall o2 | o2 in d1.orders ensures Placed(r.orders, r.orderPrices, o2, s, p) {
      if o2 != o {
        var j :| 0 <= j < |d1.orders| && d1.orders[j] == o2;
        assert j != 0 && o2 == d.orders[j];
        assert IdAt(d.orders, 0) != IdAt(d.orders, j);
        assert Placed(b.orders, b.orderPrices, o2, s, p);
      }
    }
  }

  /** A level a partial fill does not touch stays valid: none of its orders is the one rewritten. */
  lemma FillHeadPartialOtherLevel(b: Book, s: Side, t: Quantity, s2: Side, q: Price)
    requires HasHead(b, s)
    requires t < Head(b, s).quantity
    requires var p := BestPrice(SideOf(b, s), s); Placed(b.orders, b.orderPrices, Head(b, s), s, p)
    requires q in SideOf(b, s2) && (s2 != s || q != BestPrice(SideOf(b, s), s))
    requires LevelValid(SideOf(b, s2)[q], s2, q, b.orders, b.orderPrices)
    ensures var r := FillHead(b, s, t); LevelValid(SideOf(b, s2)[q], s2, q, r.orders, r.orderPrices)
  {
    var h := Head(b, s);
    var r := FillHead(b, s, t);
    assert r.orders == b.orders[h.id := h.(quantity := h.quantity - t)];
    assert r.orderPrices == b.orderPrices;
    forall o2 | o2 in SideOf(b, s2)[q].orders ensures Placed(r.orders, r.orderPrices, o2, s2, q) {
      assert Placed(b.orders, b.orderPrices, o2, s2, q);
    }
  }

  /** A partial fill keeps both indices in step with the levels. */
  lemma FillHeadPartialIndexed(b: Book, s: Side, t: Quantity)
    requires Valid(b)
    requires HasHead(b, s)
    requires t < Head(b, s).quantity
    ensures var r := FillHead(b, s, t);
      r.orders.Keys == r.orderPrices.Keys && forall id :: id in r.orders ==> Indexed(r, id)
  {
    var m := SideOf(b, s);
    var p := BestPrice(m, s);
    var h := m[p].orders[0];
    var r := FillHead(b, s, t);
    ValidLevel(b, s, p);
    assert h in m[p].orders;
    assert Placed(b.orders, b.orderPrices, h, s, p);
    assert r.orders.Keys == b.orders.Keys;
    forall id | id in r.orders ensures Indexed(r, id) {
      assert Indexed(b, id);
      FillHeadPartialKeepsIndexed(b, s, t, id);
    }
  }

  /** An identifier indexed before a fill that leaves the front order resting is still indexed after it. */
  lemma FillHeadPartialKeepsIndexed(b: Book, s: Side, t: Quantity, id: OrderId)
    requires HasHead(b, s)
    requires t < Head(b, s).quantity
    requires Head(b, s).id in b.orders && b.orders[Head(b, s).id].side == s
    requires id in b.orders && Indexed(b, id)
    ensures var r := FillHead(b, s, t); id in r.orders && Indexed(r, id)
  {
    var m := SideOf(b, s);
    var p := BestPrice(m, s);
    var d := m[p];
    var h := d.orders[0];
    var o := h.(quantity := h.quantity - t);
    var d1 := Depth(d.orders[0 := o], ClampSub(d.totalQty, t));
    var r := FillHead(b, s, t);
    assert r.orders == b.orders[h.id := b.orders[h.id].(quantity := o.quantity)];
    IdsUpdate(d.orders, 0, o);
    var s2 := b.orders[id].side;
    var p2 := b.orderPrices[id];
    assert r.orders[id].side == s2 && r.orderPrices[id] == p2;
    if s2 != s {
      assert s2 == Opposite(s);
      assert SideOf(r, s2) == SideOf(b, s2);
    } else if p2 == p {
      assert SideOf(r, s2)[p2] == d1;
    } else {
      assert SideOf(r, s2)[p2] == SideOf(b, s2)[p2];
    }
  }

  /**
   * One fill of `t` units against the front order of side `s`: the book stays valid, no index or
   * level entry is added, the side's resting total drops by exactly `t`, and the order count
   * drops by one exactly when the front order is used up.
   */
  lemma FillHeadValid(b: Book, s: Side, t: Quantity)
    requires Valid(b)
    requires HasHead(b, s)
    requires t <= Head(b, s).quantity
    ensures Valid(FillHead(b, s, t))
    ensures FillHead(b, s, t).orders.Keys <= b.orders.Keys
    ensures FillHead(b, s, t).orderPrices.Keys <= b.orderPrices.Keys
    ensures SideOf(FillHead(b, s, t), s).Keys <= SideOf(b, s).Keys
    ensures |FillHead(b, s, t).orders| == if t == Head(b, s).quantity then |b.orders| - 1 else |b.orders|
    ensures Total(SideOf(FillHead(b, s, t), s)) + t == Total(SideOf(b, s))
  {
    if t == Head(b, s).quantity {
      FillHeadPopped(b, s, t);
      EvictValid(b, s, BestPrice(SideOf(b, s), s), 0);
    } else {
      FillHeadPartialValid(b, s, t);
    }
    FillHeadCount(b, s, t);
    FillHeadTotal(b, s, t);
  }

  /**
   * What the crossing loop and the sweep need of one fill to go on: validity, the exact change in
   * the count and no new level. It is `FillHeadValid` without the total arithmetic, so that the
   * definitions and loops that call it at every step carry a smaller context.
   */
  lemma FillHeadStep(b: Book, s: Side, t: Quantity)
    requires Valid(b)
    requires HasHead(b, s)
    requires t <= Head(b, s).quantity
    ensures Valid(FillHead(b, s, t))
    ensures |FillHead(b, s, t).orders| + (if t == Head(b, s).quantity then 1 else 0) == |b.orders|
    ensures SideOf(FillHead(b, s, t), s).Keys <= SideOf(b, s).Keys
  {
    FillHeadValid(b, s, t);
  }

  /** A fill adds no index entry or level, and erases the front order exactly when it is used up. */
  lemma FillHeadCount(b: Book, s: Side, t: Quantity)
    requires Valid(b)
    requires HasHead(b, s)
    requires t <= Head(b, s).quantity
    ensures FillHead(b, s, t).orders.Keys <= b.orders.Keys
    ensures FillHead(b, s, t).orderPrices.Keys <= b.orderPrices.Keys
    ensures SideOf(FillHead(b, s, t), s).Keys <= SideOf(b, s).Keys
    ensures |FillHead(b, s, t).orders| == if t == Head(b, s).quantity then |b.orders| - 1 else |b.orders|
  {
    var m := SideOf(b, s);
    var p := BestPrice(m, s);
    var d := m[p];
    var h := d.orders[0];
    var r := FillHead(b, s, t);
    ValidLevel(b, s, p);
    assert h in d.orders;
    assert Placed(b.orders, b.orderPrices, h, s, p);
    if t == h.quantity {
      assert r.orders.Keys == b.orders.Keys - {h.id};
    } else {
      assert r.orders.Keys == b.orders.Keys;
    }
  }

  /** A fill lowers the side's resting total by exactly the filled quantity. */
  lemma FillHeadTotal(b: Book, s: Side, t: Quantity)
    requires Valid(b)
    requires HasHead(b, s)
    requires t <= Head(b, s).quantity
    ensures Total(SideOf(FillHead(b, s, t), s)) + t == Total(SideOf(b, s))
  {
    var m := SideOf(b, s);
    var p := BestPrice(m, s);
    var d := m[p];
    var h := d.orders[0];
    var r := FillHead(b, s, t);
    ValidLevel(b, s, p);
    QtySumBounds(d.orders, 0);
    assert QtySum(d.orders[1..]) + h.quantity == QtySum(d.orders);
    var o := h.(quantity := h.quantity - t);
    var d1 := Depth(d.orders[0 := o], ClampSub(d.totalQty, t));
    if t == h.quantity {
      var d2 := d1.(orders := d1.orders[1..]);
      assert d2.orders == d.orders[1..];
      assert SideOf(r, s) == Put(m, p, d2);
      TotalPut(m, p, d2);
    } else {
      assert SideOf(r, s) == Put(m, p, d1);
      TotalPut(m, p, d1);
    }
  }

  /**
   * Which order a fill takes from: the front order `h` of the best level `p` of side `s`. Every
   * other level of the side is unchanged and the level's total drops by `t`. A partial fill
   * rewrites `h` in place at the front, with its remaining quantity in the order index too. A
   * full fill pops `h`, erases it from both indices, and erases the level when `h` was its only
   * order.
   */
  lemma FillHeadEffect(b: Book, s: Side, t: Quantity)
    requires Valid(b)
    requires HasHead(b, s)
    requires t <= Head(b, s).quantity
    ensures var m := SideOf(b, s); var p := BestPrice(m, s); var h := m[p].orders[0];
      var l := SideOf(FillHead(b, s, t), s);
      && (forall q :: q in m && q != p ==> q in l && l[q] == m[q])
      && (p in l ==> l[p].totalQty + t == m[p].totalQty)
    ensures var m := SideOf(b, s); var p := BestPrice(m, s); var h := m[p].orders[0];
      var r := FillHead(b, s, t); var l := SideOf(r, s);
      t < h.quantity ==>
        && p in l
        && l[p].orders == [h.(quantity := h.quantity - t)] + m[p].orders[1..]
        && r.orders == b.orders[h.id := h.(quantity := h.quantity - t)]
        && r.orderPrices == b.orderPrices
    ensures var m := SideOf(b, s); var p := BestPrice(m, s); var h := m[p].orders[0];
      var r := FillHead(b, s, t); var l := SideOf(r, s);
      t == h.quantity ==>
        && (p in l <==> |m[p].orders| > 1)
        && (p in l ==> l[p].orders == m[p].orders[1..])
        && r.orders == b.orders - {h.id}
        && r.orderPrices == b.orderPrices - {h.id}
  {
    var m := SideOf(b, s);
    var p := BestPrice(m, s);
    ValidLevel(b, s, p);
    assert m[p].orders[0] in m[p].orders;
    QtySumBounds(m[p].orders, 0);
    FillHeadLevels(b, s, t);
    FillHeadIndices(b, s, t);
  }

  /** The side-level part of `FillHeadEffect`, for a front order the indices hold and a consistent best level. */
  lemma FillHeadLevels(b: Book, s: Side, t: Quantity)
    requires HasHead(b, s)
    requires t <= Head(b, s).quantity
    requires var m := SideOf(b, s); Head(b, s).quantity <= m[BestPrice(m, s)].totalQty
    ensures var m := SideOf(b, s); var p := BestPrice(m, s); var h := m[p].orders[0];
      var l := SideOf(FillHead(b, s, t), s);
      && (forall q :: q in m && q != p ==> q in l && l[q] == m[q])
      && (p in l ==> l[p].totalQty + t == m[p].totalQty)
      && (t < h.quantity ==> p in l && l[p].orders == [h.(quantity := h.quantity - t)] + m[p].orders[1..])
      && (t == h.quantity ==> (p in l <==> |m[p].orders| > 1) && (p in l ==> l[p].orders == m[p].orders[1..]))
  {
    var m := SideOf(b, s);
    var p := BestPrice(m, s);
    var h := m[p].orders[0];
    assert m[p].orders[0 := h.(quantity := h.quantity - t)] == [h.(quantity := h.quantity - t)] + m[p].orders[1..];
  }

  /** The index part of `FillHeadEffect`, for a front order indexed by its own value. */
  lemma FillHeadIndices(b: Book, s: Side, t: Quantity)
    requires HasHead(b, s)
    requires t <= Head(b, s).quantity
    requires Head(b, s).id in b.orders && b.orders[Head(b, s).id] == Head(b, s)
    ensures var h := Head(b, s); var r := FillHead(b, s, t);
      && (t < h.quantity ==> r.orders == b.orders[h.id := h.(quantity := h.quantity - t)] && r.orderPrices == b.orderPrices)
      && (t == h.quantity ==> r.orders == b.orders - {h.id} && r.orderPrices == b.orderPrices - {h.id})
  {
  }

  /** Cancelling an identifier the order index does not hold leaves the whole book unchanged. */
  lemma CancelUnknown(b: Book, id: OrderId)
    requires id !in b.orders
    ensures Cancel(b, id) == b
  {
  }

  /** Cancel is idempotent: the second cancel of the same identifier is a no-op. */
  lemma CancelIdempotent(b: Book, id: OrderId)
    ensures Cancel(Cancel(b, id), id) == Cancel(b, id)
  {
    assert id !in Cancel(b, id).orders;
  }

  /** Cancel only erases: no price level and no index entry appears. */
  lemma CancelShrinks(b: Book, id: OrderId)
    ensures Cancel(b, id).bids.Keys <= b.bids.Keys
    ensures Cancel(b, id).asks.Keys <= b.asks.Keys
    ensures Cancel(b, id).orders.Keys <= b.orders.Keys
    ensures !Crossed(b) ==> !Crossed(Cancel(b, id))
  {
    if !Crossed(b) {
      NoCrossSubset(b, Cancel(b, id));
    }
  }

  /**
   * Cancel of a resting order: the identifier leaves both indices and its level's queue, the
   * level's total drops by the order's quantity, and the level is erased exactly when the order
   * was its only one.
   */
  lemma CancelResting(b: Book, id: OrderId)
    requires Valid(b)
    requires id in b.orders
    ensures id in b.orderPrices && b.orders[id].price == b.orderPrices[id]
    ensures b.orders[id].price in SideOf(b, b.orders[id].side)
    ensures Valid(Cancel(b, id))
    ensures id !in Cancel(b, id).orders && id !in Cancel(b, id).orderPrices
    ensures var o := b.orders[id]; var d := SideOf(b, o.side)[o.price]; var l := SideOf(Cancel(b, id), o.side);
      o.price in l <==> |d.orders| > 1
    ensures var o := b.orders[id]; var d := SideOf(b, o.side)[o.price]; var l := SideOf(Cancel(b, id), o.side);
      o.price in l ==>
        && id !in Ids(l[o.price].orders)
        && l[o.price].orders == RemoveAt(d.orders, FirstIndexOf(d.orders, id))
        && l[o.price].totalQty + o.quantity == d.totalQty
  {
    ValidIndexedOrder(b, id);
    CancelValid(b, id);
    CancelIsEvict(b, id);
    var o := b.orders[id];
    var s := o.side;
    var p := o.price;
    var m := SideOf(b, s);
    var d := m[p];
    ValidLevel(b, s, p);
    var i := FirstIndexOf(d.orders, id);
    assert d.orders[i] == o by {
      assert d.orders[i] in d.orders;
      assert Placed(b.orders, b.orderPrices, d.orders[i], s, p);
    }
    RemoveAtFacts(d.orders, i);
    QtySumBounds(d.orders, i);
    var d' := Depth(RemoveAt(d.orders, i), ClampSub(d.totalQty, o.quantity));
    var r := Cancel(b, id);
    assert SideOf(r, s) == Put(m, p, d');
    assert d'.totalQty + o.quantity == d.totalQty;
  }

  /** Cancel touches only the cancelled order's level: every other level and every other order is unchanged. */
  lemma CancelFrame(b: Book, id: OrderId)
    requires id in b.orders && id in b.orderPrices
    ensures var s := b.orders[id].side; var r := Cancel(b, id);
      && (forall q :: q in SideOf(b, s) && q != b.orderPrices[id] ==> q in SideOf(r, s) && SideOf(r, s)[q] == SideOf(b, s)[q])
      && SideOf(r, Opposite(s)) == SideOf(b, Opposite(s))
      && r.orders == b.orders - {id}
      && r.orderPrices == b.orderPrices - {id}
  {
  }

  /** The front order of a side carries no more than the side's resting total. */
  lemma HeadWithinTotal(b: Book, s: Side)
    requires Valid(b)
    requires SideOf(b, s) != map[]
    ensures HasHead(b, s)
    ensures Head(b, s).quantity <= Total(SideOf(b, s))
  {
    ValidHasHead(b, s);
    var m := SideOf(b, s);
    var p := BestPrice(m, s);
    ValidLevel(b, s, p);
    TotalRemove(m, p);
    QtySumBounds(m[p].orders, 0);
  }

  /** Quantity conservation of a limit insert: its side's resting total grows by exactly the order's quantity, and the other side's is unchanged. */
  lemma LimitInsertTotal(b: Book, o: Order)
    ensures Total(SideOf(LimitInsert(b, o), o.side)) == Total(SideOf(b, o.side)) + o.quantity
    ensures Total(SideOf(LimitInsert(b, o), Opposite(o.side))) == Total(SideOf(b, Opposite(o.side)))
  {
    var m := SideOf(b, o.side);
    var d := if o.price in m then m[o.price] else EmptyDepth;
    var d' := PushBack(d, o);
    assert SideOf(LimitInsert(b, o), o.side) == m[o.price := d'];
    if o.price in m {
      assert Put(m, o.price, d') == m[o.price := d'];
      TotalPut(m, o.price, d');
    } else {
      TotalRemove(m[o.price := d'], o.price);
      assert m[o.price := d'] - {o.price} == m;
    }
  }

  /**
   * Quantity conservation of cancel: the side of a resting order loses exactly its quantity from
   * its resting total, and the other side's is unchanged.
   */
  lemma CancelTotal(b: Book, id: OrderId)
    requires Valid(b)
    requires id in b.orders
    ensures var s := b.orders[id].side;
      Total(SideOf(Cancel(b, id), s)) + b.orders[id].quantity == Total(SideOf(b, s))
    ensures var s := b.orders[id].side;
      Total(SideOf(Cancel(b, id), Opposite(s))) == Total(SideOf(b, Opposite(s)))
  {
    CancelResting(b, id);
    var o := b.orders[id];
    var s := o.side;
    var p := o.price;
    var m := SideOf(b, s);
    var d := m[p];
    ValidLevel(b, s, p);
    var d' := RemoveId(d, id);
    assert SideOf(Cancel(b, id), s) == Put(m, p, d');
    TotalPut(m, p, d');
    var i := FirstIndexOf(d.orders, id);
    assert d.orders[i] == o by {
      assert d.orders[i] in d.orders;
      assert Placed(b.orders, b.orderPrices, d.orders[i], s, p);
    }
    QtySumBounds(d.orders, i);
  }

}
