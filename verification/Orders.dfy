/** The orders in which a loop over a map may visit its keys. */
module Orders {

  /** Every element once. */
  ghost predicate IsOrder<T(!new)>(order: seq<T>, all: set<T>) {
    && (forall i, j :: 0 <= i < j < |order| ==> order[i] != order[j])
    && forall x :: x in order <==> x in all
  }

  lemma {:induction false} OrderExists<T(!new)>(all: set<T>) returns (order: seq<T>)
    ensures IsOrder(order, all)
    decreases |all|
  {
    if all == {} {
      order := [];
    } else {
      var x :| x in all;
      order := OrderExists(all - {x});
      order := order + [x];
    }
  }

  lemma OrderEndingWith<T(!new)>(all: set<T>, last: T) returns (order: seq<T>)
    requires last in all
    ensures IsOrder(order, all) && |order| > 0 && order[|order| - 1] == last
  {
    order := OrderExists(all - {last});
    order := order + [last];
  }
}
