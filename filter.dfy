/**
 * The list filter of `GET orders`: the query model `OrderFilterViewModel` and
 * the predicate `OrdersController.GetOrders` hands to the repository. The
 * district clause applies only when a district is given (the empty string is
 * a given district); the time clause applies only when a first delivery time
 * is given and keeps the closed window [first, first + timeOffset].
 */
module OrderFilter {
  import opened Wrappers
  import opened Entities

  /** `OrderFilterViewModel`: every query parameter is optional. */
  datatype Filter = Filter(
    cityDistrict: Option<string>,
    firstDeliveryDateTime: Option<Ticks>,
    timeOffset: SpanTicks)

  /** `TimeSpan.FromMinutes(30)`, the offset used when the query omits one. */
  const DefaultTimeOffset: SpanTicks := 30 * TicksPerMinute

  /** `new OrderFilterViewModel()`: no district, no first time, the default offset. */
  const Unfiltered: Filter := Filter(None, None, DefaultTimeOffset)

  /**
   * `FirstDeliveryDateTime + TimeOffset` is computed before the query runs; it
   * is null when the first time is null, and otherwise throws unless the sum
   * is a `DateTime`.
   */
  predicate EndInRange(f: Filter)
  {
    f.firstDeliveryDateTime.None? || 0 <= f.firstDeliveryDateTime.value + f.timeOffset <= MaxTicks
  }

  /** `isCityDistrict || o.CityDistrict == model.CityDistrict`. */
  predicate DistrictClause(f: Filter, o: Order)
  {
    f.cityDistrict.None? || o.cityDistrict == f.cityDistrict.value
  }

  /** `isFirstDeliveryDateTime || (o.DeliveryTime >= first && o.DeliveryTime <= endDeliveryTime)`. */
  predicate TimeClause(f: Filter, o: Order)
  {
    f.firstDeliveryDateTime.None? ||
    (f.firstDeliveryDateTime.value <= o.deliveryTime && o.deliveryTime <= f.firstDeliveryDateTime.value + f.timeOffset)
  }

  /** The whole filter expression: both clauses. */
  predicate Matches(f: Filter, o: Order)
  {
    DistrictClause(f, o) && TimeClause(f, o)
  }

  /** The keys of the rows the filter selects. */
  function MatchingIds(table: map<int, Order>, f: Filter): set<int>
  {
    set id | id in table && Matches(f, table[id])
  }

  /** `_repository.Get<Order, OrderDTO>(exp)`: the DTOs of the selected rows. */
  function Query(table: map<int, Order>, f: Filter): set<OrderDto>
  {
    DtosOf(table, MatchingIds(table, f))
  }

  /** The DTOs of every row of the table. */
  function AllDtos(table: map<int, Order>): set<OrderDto>
  {
    DtosOf(table, table.Keys)
  }

  /**
   * The query returns exactly the matching rows: a row's DTO is in the result
   * if and only if the row satisfies the filter, and every DTO in the result
   * is the DTO of the row stored under its id.
   */
  lemma QueryExact(table: map<int, Order>, f: Filter)
    requires KeyConsistent(table)
    ensures forall id :: id in table ==> (ToDto(table[id]) in Query(table, f) <==> Matches(f, table[id]))
    ensures forall d :: d in Query(table, f) ==> d.id in table && d == ToDto(table[d.id])
  {
    forall id | id in table && ToDto(table[id]) in Query(table, f)
      ensures Matches(f, table[id])
    {
      var id' :| id' in MatchingIds(table, f) && id' in table && ToDto(table[id']) == ToDto(table[id]);
      ToDtoInjective(table[id'], table[id]);
    }
  }

  /** The result has one DTO per matching row (the count the controller tests compare). */
  lemma QueryCount(table: map<int, Order>, f: Filter)
    requires KeyConsistent(table)
    ensures |Query(table, f)| == |MatchingIds(table, f)|
  {
    DtosOfCard(table, MatchingIds(table, f));
  }

  /** With neither a district nor a first time, every order is returned. */
  lemma UnfilteredReturnsAll(table: map<int, Order>, f: Filter)
    requires KeyConsistent(table)
    requires f.cityDistrict.None? && f.firstDeliveryDateTime.None?
    ensures EndInRange(f)
    ensures Query(table, f) == AllDtos(table)
    ensures |Query(table, f)| == |table|
  {
    forall id | id in table
      ensures id in MatchingIds(table, f)
    {
      assert Matches(f, table[id]);
    }
    assert MatchingIds(table, f) == table.Keys;
    DtosOfCard(table, table.Keys);
  }

  /** Both filters together select the intersection of what each selects alone. */
  lemma BothFiltersIntersect(table: map<int, Order>, f: Filter)
    requires KeyConsistent(table)
    ensures Query(table, f) ==
              Query(table, f.(firstDeliveryDateTime := None)) * Query(table, f.(cityDistrict := None))
  {
    var byDistrict := f.(firstDeliveryDateTime := None);
    var byTime := f.(cityDistrict := None);
    QueryExact(table, f);
    QueryExact(table, byDistrict);
    QueryExact(table, byTime);
    forall d | d in Query(table, byDistrict) * Query(table, byTime)
      ensures d in Query(table, f)
    {
      assert Matches(byDistrict, table[d.id]) && Matches(byTime, table[d.id]);
    }
  }

  /** The clauses as the query string gives them: exact district, closed time window. */
  lemma ClausesMeaning(f: Filter, o: Order)
    ensures f.cityDistrict.Some? ==> (DistrictClause(f, o) <==> o.cityDistrict == f.cityDistrict.value)
    ensures f.cityDistrict == Some("") ==> (DistrictClause(f, o) <==> o.cityDistrict == "")
    ensures f.firstDeliveryDateTime.Some? && f.timeOffset == 0 ==>
              (TimeClause(f, o) <==> o.deliveryTime == f.firstDeliveryDateTime.value)
    ensures f.firstDeliveryDateTime.Some? && f.timeOffset < 0 ==> !TimeClause(f, o)
  {
  }

  /** The default filter's window spans exactly thirty minutes of ticks. */
  lemma DefaultWindow(first: Ticks, o: Order)
    ensures TimeClause(Unfiltered.(firstDeliveryDateTime := Some(first)), o) <==>
              first <= o.deliveryTime <= first + 18000000000
  {
  }
}
