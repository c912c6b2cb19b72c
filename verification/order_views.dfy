/**
 * `OrderViewSet`: listing and retrieving are scoped to the requesting
 * user's orders, and creating an order stamps it with the requesting user.
 */
module OrderViews {
  import opened Base
  import opened Entities
  import opened Placement
  import opened Queries

  function OwnedBy(user: UserId): Order -> bool {
    (o: Order) => o.user == user
  }

  /** `get_queryset`: the requester's orders and no one else's. */
  function OrdersOf(orders: seq<Order>, requester: UserId): (r: seq<Order>)
    ensures forall o :: o in r <==> o in orders && o.user == requester
    ensures multiset(r) <= multiset(orders)
  {
    Filter(orders, OwnedBy(requester))
  }

  /** The detail view: looks the id up in the requester's queryset only, so other users' orders are not found. */
  function RetrieveOrder(orders: seq<Order>, requester: UserId, id: nat): (r: Option<Order>)
    ensures r.Some? ==> r.value in orders && r.value.user == requester && r.value.id == id
    ensures r.None? <==> forall o :: o in orders && o.id == id ==> o.user != requester
  {
    var found := Filter(OrdersOf(orders, requester), (o: Order) => o.id == id);
    if found == [] then None
    else
      assert found[0] in found;
      Some(found[0])
  }

  /** `perform_create`: the order is placed on behalf of the requesting user. */
  function CreateOrder(s: Store, requester: UserId, reqs: seq<TicketRequest>, now: int): (p: Outcome)
    ensures p.response.Success? ==> p.response.value.user == requester && p.response.value in p.store.orders
    ensures p.response.Failure? ==> p.store == s
  {
    var p := PlaceOrder(s, requester, reqs, now);
    assert p.response.Success? ==> p.store.orders[|s.orders|] == p.response.value;
    p
  }

  /**
   * A created order shows up in its creator's list, and every other user's
   * list is exactly what it was before.
   */
  lemma CreatedOrderVisibleOnlyToOwner(s: Store, requester: UserId, reqs: seq<TicketRequest>, now: int, other: UserId)
    requires other != requester
    requires CreateOrder(s, requester, reqs, now).response.Success?
    ensures CreateOrder(s, requester, reqs, now).response.value in OrdersOf(CreateOrder(s, requester, reqs, now).store.orders, requester)
    ensures OrdersOf(CreateOrder(s, requester, reqs, now).store.orders, other) == OrdersOf(s.orders, other)
  {
    var p := CreateOrder(s, requester, reqs, now);
    var o := p.response.value;
    assert p.store.orders == s.orders + [o];
    FilterAppend(s.orders, [o], OwnedBy(other));
    assert Filter([o], OwnedBy(other)) == [];
  }
}
