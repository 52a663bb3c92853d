/**
 * `OrdersController` over an in-memory order table. The repository is the map
 * `orders` from primary key to row; `nextId` is the key the store will
 * generate for the next inserted row (the `Id` column is `ValueGeneratedOnAdd`).
 * `Save` commits at once, so every staged change is visible when a method
 * returns. Write requests pass the validator before the action runs, so a
 * rejected request never reaches the table.
 */
module Orders {
  import opened Wrappers
  import opened Entities
  import opened Validation
  import opened OrderFilter

  /** An exception an action lets escape: `First + TimeOffset` past the `DateTime` range. */
  datatype Fault = EndDeliveryTimeOutOfRange

  /** The HTTP outcome of an action. */
  datatype ActionResult<T> =
    | Ok(value: T)                         // 200
    | Created(value: T)                    // 201
    | NotFound(orderId: int)               // 404; the detail is formatted from the id
    | ValidationFailed(fields: set<Field>) // 400; one entry per failing rule
    | Unhandled(fault: Fault)              // an exception, answered by the global handler

  /** The row a create request produces, before the store gives it a key. */
  function NewOrder(id: int, req: OrderRequest, now: Ticks): Order
    requires req.cityDistrict.Some?
  {
    Order(id, now, req.weight, req.cityDistrict.value, req.deliveryTime)
  }

  /** A row overwritten with a request's weight, delivery time and district. */
  function Overwritten(o: Order, req: OrderRequest): Order
    requires req.cityDistrict.Some?
  {
    o.(weight := req.weight, deliveryTime := req.deliveryTime, cityDistrict := req.cityDistrict.value)
  }

  class OrdersController {
    var orders: map<int, Order>
    var nextId: int

    /** Every row is stored under its own key, and keys are positive and below the next generated one. */
    ghost predicate Valid()
      reads this
    {
      && 0 < nextId
      && KeyConsistent(orders)
      && forall id :: id in orders ==> 0 < id < nextId
    }

    /** A controller over an existing table (for example, the seeded one). */
    constructor (initial: map<int, Order>, firstFreeId: int)
      requires 0 < firstFreeId
      requires KeyConsistent(initial)
      requires forall id :: id in initial ==> 0 < id < firstFreeId
      ensures Valid()
      ensures orders == initial && nextId == firstFreeId
    {
      orders := initial;
      nextId := firstFreeId;
    }

    /** `GET orders/{orderId}`. */
    method GetOrder(orderId: int) returns (r: ActionResult<OrderDto>)
      requires Valid()
      ensures orderId !in orders ==> r == NotFound(orderId)
      ensures orderId in orders ==> r == Ok(ToDto(orders[orderId])) && r.value.id == orderId
    {
      if orderId !in orders {
        return NotFound(orderId);
      }
      r := Ok(ToDto(orders[orderId]));
    }

    /** `GET orders?cityDistrict=&firstDeliveryDateTime=&timeOffset=`. */
    method GetOrders(f: Filter) returns (r: ActionResult<set<OrderDto>>)
      requires Valid()
      ensures !EndInRange(f) ==> r == Unhandled(EndDeliveryTimeOutOfRange)
      ensures EndInRange(f) ==> r.Ok?
      ensures r.Ok? ==> forall id :: id in orders ==> (ToDto(orders[id]) in r.value <==> Matches(f, orders[id]))
      ensures r.Ok? ==> forall d :: d in r.value ==> d.id in orders && d == ToDto(orders[d.id])
      ensures r.Ok? ==> |r.value| == |MatchingIds(orders, f)|
    {
      if !EndInRange(f) {
        return Unhandled(EndDeliveryTimeOutOfRange);
      }
      QueryExact(orders, f);
      QueryCount(orders, f);
      r := Ok(Query(orders, f));
    }

    /** `POST orders`: validate, insert one row stamped with `now`, return its DTO. */
    method Create(req: OrderRequest, validatorNow: Ticks, now: Ticks) returns (r: ActionResult<OrderDto>)
      requires Valid()
      modifies this
      ensures Valid()
      ensures Errors(req, validatorNow) != {} ==>
                r == ValidationFailed(Errors(req, validatorNow)) && orders == old(orders) && nextId == old(nextId)
      ensures Errors(req, validatorNow) == {} ==>
                && r.Created?
                && r.value.id != 0 && r.value.id !in old(orders)
                && nextId == old(nextId) + 1
                && orders == old(orders)[r.value.id := NewOrder(r.value.id, req, now)]
                && r.value == ToDto(orders[r.value.id])
      ensures r.Created? ==>
                r.value.weight == req.weight && r.value.deliveryTime == req.deliveryTime &&
                Some(r.value.cityDistrict) == req.cityDistrict && r.value.createdAt == now
      ensures r.Created? || r.ValidationFailed?
    {
      var errs := Errors(req, validatorNow);
      if errs != {} {
        return ValidationFailed(errs);
      }
      var order := NewOrder(nextId, req, now);
      orders := orders[nextId := order];
      nextId := nextId + 1;
      r := Created(ToDto(order));
    }

    /** `PUT orders/{orderId}`: validate, then overwrite the row's weight, delivery time and district. */
    method Update(orderId: int, req: OrderRequest, validatorNow: Ticks) returns (r: ActionResult<OrderDto>)
      requires Valid()
      modifies this
      ensures Valid()
      ensures nextId == old(nextId)
      ensures Errors(req, validatorNow) != {} ==>
                r == ValidationFailed(Errors(req, validatorNow)) && orders == old(orders)
      ensures Errors(req, validatorNow) == {} && orderId !in old(orders) ==>
                r == NotFound(orderId) && orders == old(orders)
      ensures Errors(req, validatorNow) == {} && orderId in old(orders) ==>
                && orders == old(orders)[orderId := Overwritten(old(orders)[orderId], req)]
                && r == Ok(ToDto(orders[orderId]))
      ensures r.Ok? ==>
                && r.value.id == orderId && r.value.createdAt == old(orders)[orderId].createdAt
                && r.value.weight == req.weight && r.value.deliveryTime == req.deliveryTime
                && Some(r.value.cityDistrict) == req.cityDistrict
      ensures forall id :: id in old(orders) && id != orderId ==> id in orders && orders[id] == old(orders)[id]
      ensures orders.Keys == old(orders).Keys
    {
      var errs := Errors(req, validatorNow);
      if errs != {} {
        return ValidationFailed(errs);
      }
      if orderId !in orders {
        return NotFound(orderId);
      }
      var order := Overwritten(orders[orderId], req);
      orders := orders[orderId := order];
      r := Ok(ToDto(order));
    }

    /** `DELETE orders/{orderId}`: check existence, then remove every row with that id. */
    method Delete(orderId: int) returns (r: ActionResult<()>)
      requires Valid()
      modifies this
      ensures Valid()
      ensures nextId == old(nextId)
      ensures orderId !in old(orders) ==> r == NotFound(orderId) && orders == old(orders)
      ensures orderId in old(orders) ==> r == Ok(()) && orders == old(orders) - {orderId}
      ensures orderId !in orders
      ensures forall id :: id in old(orders) && id != orderId ==> id in orders && orders[id] == old(orders)[id]
    {
      if orderId !in orders {
        return NotFound(orderId);
      }
      ghost var before := orders;
      orders := map id | id in orders && orders[id].id != orderId :: orders[id];
      forall id | id in before
        ensures id in orders <==> id != orderId
      {
        assert before[id].id == id;
      }
      assert orders.Keys == before.Keys - {orderId};
      assert orders == before - {orderId};
      r := Ok(());
    }
  }

  /** A created order can be fetched back by the id in its DTO, with the same fields. */
  method CreateThenGet(c: OrdersController, req: OrderRequest, validatorNow: Ticks, now: Ticks)
    returns (created: ActionResult<OrderDto>, fetched: ActionResult<OrderDto>)
    requires c.Valid()
    modifies c
    ensures c.Valid()
    ensures created.Created? <==> Errors(req, validatorNow) == {}
    ensures created.Created? ==> fetched == Ok(created.value)
    ensures created.ValidationFailed? ==> c.orders == old(c.orders)
  {
    created := c.Create(req, validatorNow, now);
    if created.Created? {
      fetched := c.GetOrder(created.value.id);
    } else {
      fetched := created;
    }
  }

  /** After a delete, fetching the same id finds nothing. */
  method DeleteThenGet(c: OrdersController, orderId: int)
    returns (deleted: ActionResult<()>, fetched: ActionResult<OrderDto>)
    requires c.Valid()
    modifies c
    ensures c.Valid()
    ensures deleted.Ok? <==> orderId in old(c.orders)
    ensures fetched == NotFound(orderId)
  {
    deleted := c.Delete(orderId);
    fetched := c.GetOrder(orderId);
  }
}
