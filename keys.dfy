/** Extremes of a finite set of prices: the first key of an ordered map. */
module PriceKeys {

  /** `k` is the largest element of `s`. */
  predicate IsMax(s: set<nat>, k: nat) {
    k in s && forall x :: x in s ==> x <= k
  }

  /** `k` is the smallest element of `s`. */
  predicate IsMin(s: set<nat>, k: nat) {
    k in s && forall x :: x in s ==> k <= x
  }

  /** The largest element: the first key of a map ordered by `std::greater`. */
  function MaxKey(s: set<nat>): (k: nat)
    requires s != {}
    ensures k in s
    ensures forall x :: x in s ==> x <= k
  {
    MaxKeyExists(s);
    var k :| IsMax(s, k);
    k
  }

  /** The smallest element: the first key of a map in ascending order. */
  function MinKey(s: set<nat>): (k: nat)
    requires s != {}
    ensures k in s
    ensures forall x :: x in s ==> k <= x
  {
    MinKeyExists(s);
    var k :| IsMin(s, k);
    k
  }

  lemma {:induction false} MaxKeyExists(s: set<nat>)
    requires s != {}
    ensures exists k :: IsMax(s, k)
  {
    var y :| y in s;
    if s - {y} == {} {
      forall x | x in s ensures x <= y {
        assert x !in s - {y};
      }
      assert IsMax(s, y);
    } else {
      MaxKeyExists(s - {y});
      var k :| IsMax(s - {y}, k);
      var m := if y <= k then k else y;
      forall x | x in s ensures x <= m {
        if x != y { assert x in s - {y}; }
      }
      assert IsMax(s, m);
    }
  }

  lemma {:induction false} MinKeyExists(s: set<nat>)
    requires s != {}
    ensures exists k :: IsMin(s, k)
  {
    var y :| y in s;
    if s - {y} == {} {
      forall x | x in s ensures y <= x {
        assert x !in s - {y};
      }
      assert IsMin(s, y);
    } else {
      MinKeyExists(s - {y});
      var k :| IsMin(s - {y}, k);
      var m := if k <= y then k else y;
      forall x | x in s ensures m <= x {
        if x != y { assert x in s - {y}; }
      }
      assert IsMin(s, m);
    }
  }
}
