/**
 * The admin's order-status update, as a function on the order list:
 * find the first order with the id and overwrite its status alone.
 */
module Orders {
  import opened Wrappers
  import opened Records

  /** Position of the first order whose id is `id`, if any: `orders.find(o => o.id === id)`. */
  function OrderIndex(orders: seq<Order>, id: string): (r: Option<nat>)
    ensures r.None? <==> forall k :: 0 <= k < |orders| ==> orders[k].id != id
    ensures r.Some? ==> r.value < |orders| && orders[r.value].id == id
    ensures r.Some? ==> forall k :: 0 <= k < r.value ==> orders[k].id != id
  {
    if orders == [] then None
    else if orders[0].id == id then Some(0)
    else match OrderIndex(orders[1..], id)
      case None => None
      case Some(k) => Some(k + 1)
  }

  /** The order list after setting the status of order `id`, or None when no order has that id. */
  function WithStatus(orders: seq<Order>, id: string, status: Option<string>): (r: Option<seq<Order>>)
    ensures r.None? <==> forall k :: 0 <= k < |orders| ==> orders[k].id != id
    ensures r.Some? ==> OrderIndex(orders, id).Some? && |r.value| == |orders|
    ensures r.Some? ==>
              var i := OrderIndex(orders, id).value;
              && r.value[i].id == orders[i].id
              && r.value[i].items == orders[i].items
              && r.value[i].status == status
              && forall k :: 0 <= k < |orders| && k != i ==> r.value[k] == orders[k]
  {
    match OrderIndex(orders, id)
    case None => None
    case Some(i) => Some(orders[i := orders[i].(status := status)])
  }

  /** Updating a status keeps every id in place. */
  lemma WithStatusKeepsIds(orders: seq<Order>, id: string, status: Option<string>, k: nat)
    requires WithStatus(orders, id, status).Some? && k < |orders|
    ensures WithStatus(orders, id, status).value[k].id == orders[k].id
  {
  }

  /** After an update the same order is found again for that id, and it carries the new status. */
  lemma {:induction false} WithStatusThenFind(orders: seq<Order>, id: string, status: Option<string>)
    requires WithStatus(orders, id, status).Some?
    ensures OrderIndex(WithStatus(orders, id, status).value, id) == OrderIndex(orders, id)
  {
    var r := WithStatus(orders, id, status).value;
    var i := OrderIndex(orders, id).value;
    forall k | 0 <= k < |orders| ensures r[k].id == orders[k].id {
      WithStatusKeepsIds(orders, id, status, k);
    }
    var j := OrderIndex(r, id);
    assert j.Some?;
    assert !(j.value < i);
    assert !(i < j.value) by { assert r[i].id == id; }
  }

  /** Setting the status twice is the same as setting it once to the second value. */
  lemma LastStatusWins(orders: seq<Order>, id: string, s1: Option<string>, s2: Option<string>)
    requires WithStatus(orders, id, s1).Some?
    ensures WithStatus(WithStatus(orders, id, s1).value, id, s2) == WithStatus(orders, id, s2)
  {
    var r1 := WithStatus(orders, id, s1).value;
    WithStatusThenFind(orders, id, s1);
    var i := OrderIndex(orders, id).value;
    assert WithStatus(r1, id, s2).Some?;
    var a, b := WithStatus(r1, id, s2).value, WithStatus(orders, id, s2).value;
    assert |a| == |b|;
    forall k | 0 <= k < |a| ensures a[k] == b[k] {
      if k == i {
        assert a[k] == Order(orders[k].id, orders[k].items, s2);
      }
    }
    assert a == b;
  }
}
