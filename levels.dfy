/** A price level (`Depth`): the FIFO queue of resting orders at one price and its cached total. */
module Levels {
  import opened Orders

  /** `orders` is appended at the back and consumed from the front; `totalQty` caches their sum. */
  datatype Depth = Depth(orders: seq<Order>, totalQty: Quantity)

  /** A default-constructed level: no orders and `totalQty` 0. */
  const EmptyDepth := Depth([], 0)

  /** The sum of the remaining quantities in a queue. */
  ghost function QtySum(os: seq<Order>): nat
  {
    if os == [] then 0 else os[0].quantity + QtySum(os[1..])
  }

  /** The cached total agrees with the queue. */
  ghost predicate Consistent(d: Depth)
  {
    d.totalQty == QtySum(d.orders)
  }

  /** The identifiers queued in `os`. */
  ghost function Ids(os: seq<Order>): set<OrderId>
  {
    set o | o in os :: o.id
  }

  /** The identifier queued at position `i`: the term the distinctness quantifier hangs on. */
  ghost function IdAt(os: seq<Order>, i: int): OrderId
    requires 0 <= i < |os|
  {
    os[i].id
  }

  /** No identifier is queued twice. */
  ghost predicate DistinctIds(os: seq<Order>)
  {
    forall i, j :: 0 <= i < j < |os| ==> IdAt(os, i) != IdAt(os, j)
  }

  /** Subtraction floored at zero: the guard on every decrement of a level's `totalQty`. */
  function ClampSub(a: nat, b: nat): nat
  {
    if a >= b then a - b else 0
  }

  function Min(a: nat, b: nat): nat
  {
    if a <= b then a else b
  }

  /** `os` without its element at index `i`. */
  function RemoveAt(os: seq<Order>, i: nat): seq<Order>
    requires i < |os|
  {
    os[..i] + os[i + 1..]
  }

  /** `push_back` of `o` followed by `totalQty += o.quantity`. */
  function PushBack(d: Depth, o: Order): (r: Depth)
    ensures r.orders == d.orders + [o]
    ensures Consistent(d) ==> Consistent(r)
    ensures Ids(r.orders) == Ids(d.orders) + {o.id}
    ensures DistinctIds(d.orders) && o.id !in Ids(d.orders) ==> DistinctIds(r.orders)
  {
    QtySumAppend(d.orders, [o]);
    assert QtySum([o]) == o.quantity by { assert [o][1..] == []; }
    var r := Depth(d.orders + [o], d.totalQty + o.quantity);
    assert forall i :: 0 <= i < |d.orders| ==> r.orders[i] == d.orders[i];
    assert r.orders[|d.orders|] == o;
    assert Ids(r.orders) == Ids(d.orders) + {o.id} by {
      assert forall x :: x in r.orders <==> x in d.orders || x == o;
    }
    assert forall k :: 0 <= k < |d.orders| ==> IdAt(r.orders, k) == IdAt(d.orders, k) && d.orders[k] in d.orders;
    assert IdAt(r.orders, |d.orders|) == o.id;
    r
  }

  /** The index of the first order in `os` with identifier `id`, or `|os|` when there is none. */
  function FirstIndexOf(os: seq<Order>, id: OrderId): (i: nat)
    ensures i <= |os|
    ensures i < |os| ==> os[i].id == id
    ensures forall j :: 0 <= j < i ==> os[j].id != id
    ensures i == |os| <==> id !in Ids(os)
  {
    if os == [] then 0
    else if os[0].id == id then 0
    else
      var k := FirstIndexOf(os[1..], id);
      assert forall o :: o in os ==> o == os[0] || o in os[1..];
      1 + k
  }

  /**
   * The scan in `cancelOrder`: find the first queued order with identifier `id`, erase it and
   * lower `totalQty` by its quantity, floored at zero. A level without that identifier is unchanged.
   */
  function RemoveId(d: Depth, id: OrderId): (r: Depth)
    ensures id !in Ids(d.orders) ==> r == d
    ensures id in Ids(d.orders) ==> |r.orders| == |d.orders| - 1
    ensures Consistent(d) ==> Consistent(r)
    ensures DistinctIds(d.orders) ==> DistinctIds(r.orders) && Ids(r.orders) == Ids(d.orders) - {id}
    ensures var i := FirstIndexOf(d.orders, id); i < |d.orders| ==>
      && r.orders == RemoveAt(d.orders, i)
      && r.totalQty == ClampSub(d.totalQty, d.orders[i].quantity)
  {
    var i := FirstIndexOf(d.orders, id);
    if i < |d.orders| then
      RemoveAtFacts(d.orders, i);
      Depth(RemoveAt(d.orders, i), ClampSub(d.totalQty, d.orders[i].quantity))
    else d
  }

  /** The quantity of a concatenation is the sum of the quantities. */
  lemma {:induction false} QtySumAppend(a: seq<Order>, b: seq<Order>)
    ensures QtySum(a + b) == QtySum(a) + QtySum(b)
  {
    if a != [] {
      assert (a + b)[1..] == a[1..] + b;
      QtySumAppend(a[1..], b);
    } else {
      assert a + b == b;
    }
  }

  /** Every element of a queue carries at most the queue's total quantity. */
  lemma {:induction false} QtySumBounds(os: seq<Order>, i: nat)
    requires i < |os|
    ensures os[i].quantity <= QtySum(os)
  {
    if i > 0 {
      QtySumBounds(os[1..], i - 1);
    }
  }

  /** Removing the element at `i` shifts the later elements down by one and lowers the quantity by that element's. */
  lemma RemoveAtFacts(os: seq<Order>, i: nat)
    requires i < |os|
    ensures |RemoveAt(os, i)| == |os| - 1
    ensures forall j :: 0 <= j < i ==> RemoveAt(os, i)[j] == os[j]
    ensures forall j :: i <= j < |os| - 1 ==> RemoveAt(os, i)[j] == os[j + 1]
    ensures forall o :: o in RemoveAt(os, i) ==> o in os
    ensures QtySum(RemoveAt(os, i)) + os[i].quantity == QtySum(os)
    ensures DistinctIds(os) ==> DistinctIds(RemoveAt(os, i))
    ensures DistinctIds(os) ==> Ids(RemoveAt(os, i)) == Ids(os) - {os[i].id}
  {
    var r := RemoveAt(os, i);
    forall o | o in r ensures o in os {
      var j :| 0 <= j < |r| && r[j] == o;
      if j < i { assert os[j] == o; } else { assert os[j + 1] == o; }
    }
    RemoveAtQty(os, i);
    if DistinctIds(os) {
      RemoveAtIds(os, i);
    }
  }

  /** Removing the element at `i` lowers the queue's quantity by that element's. */
  lemma RemoveAtQty(os: seq<Order>, i: nat)
    requires i < |os|
    ensures QtySum(RemoveAt(os, i)) + os[i].quantity == QtySum(os)
  {
    QtySumAppend(os[..i], os[i + 1..]);
    QtySumAppend(os[..i], os[i..]);
    assert os == os[..i] + os[i..];
    assert os[i..][1..] == os[i + 1..];
  }

  /** Removing the element at `i` keeps identifiers distinct and drops exactly its identifier. */
  lemma RemoveAtIds(os: seq<Order>, i: nat)
    requires i < |os|
    requires DistinctIds(os)
    ensures DistinctIds(RemoveAt(os, i))
    ensures Ids(RemoveAt(os, i)) == Ids(os) - {os[i].id}
  {
    var r := RemoveAt(os, i);
    assert |r| == |os| - 1;
    assert forall j :: 0 <= j < i ==> r[j] == os[j];
    assert forall j :: i <= j < |r| ==> r[j] == os[j + 1];
    forall x | x in Ids(r) ensures x in Ids(os) - {os[i].id} {
      var o :| o in r && o.id == x;
      var j :| 0 <= j < |r| && r[j] == o;
      if j < i {
        assert os[j] == o && IdAt(os, j) != IdAt(os, i);
      } else {
        assert os[j + 1] == o && IdAt(os, i) != IdAt(os, j + 1);
      }
    }
    forall a, c | 0 <= a < c < |r| ensures IdAt(r, a) != IdAt(r, c) {
      var a' := if a < i then a else a + 1;
      var c' := if c < i then c else c + 1;
      assert IdAt(r, a) == IdAt(os, a') && IdAt(r, c) == IdAt(os, c');
    }
    forall x | x in Ids(os) - {os[i].id} ensures x in Ids(r) {
      var o :| o in os && o.id == x;
      var j :| 0 <= j < |os| && os[j] == o;
      if j < i { assert r[j] == o; } else { assert j != i; assert r[j - 1] == o; }
    }
  }

  /** Replacing a queued order by one with the same identifier keeps the identifiers. */
  lemma IdsUpdate(os: seq<Order>, j: nat, o: Order)
    requires j < |os|
    requires os[j].id == o.id
    ensures Ids(os[j := o]) == Ids(os)
    ensures DistinctIds(os) ==> DistinctIds(os[j := o])
  {
    var r := os[j := o];
    forall x | x in Ids(os) ensures x in Ids(r) {
      var o2 :| o2 in os && o2.id == x;
      var k :| 0 <= k < |os| && os[k] == o2;
      assert r[k].id == x;
    }
    forall x | x in Ids(r) ensures x in Ids(os) {
      var o2 :| o2 in r && o2.id == x;
      var k :| 0 <= k < |r| && r[k] == o2;
      assert os[k].id == x;
    }
    assert forall k :: 0 <= k < |os| ==> IdAt(r, k) == IdAt(os, k);
  }

  /**
   * The loop of `cancelOrder` that walks a level's queue front to back looking for `id`.
   * It stops at the first match, so it finds the index `FirstIndexOf` names.
   */
  method FindOrder(os: seq<Order>, id: OrderId) returns (i: nat)
    ensures i == FirstIndexOf(os, id)
  {
    i := 0;
    while i < |os|
      invariant i <= |os|
      invariant forall j :: 0 <= j < i ==> os[j].id != id
      invariant FirstIndexOf(os, id) >= i
    {
      if os[i].id == id {
        return;
      }
      i := i + 1;
    }
  }
}
