/**
 * The persisted `Order` entity (with the `Id` and `CreatedAt` it inherits from
 * `BaseEntity`), the read-only `OrderDTO` returned to clients, and the
 * field-copy mapping between them (`CreateMap<Order, OrderDTO>()`).
 *
 * Times are counted in .NET ticks (100 ns units). A `DateTime` holds a tick
 * count between 0 and `DateTime.MaxValue.Ticks`; a `TimeSpan` holds any signed
 * 64-bit tick count.
 */
module Entities {

  /** `DateTime.MaxValue.Ticks`. */
  const MaxTicks: int := 3155378975999999999

  /** Ticks in one minute (`TimeSpan.TicksPerMinute`). */
  const TicksPerMinute: int := 600000000

  /** A `DateTime` value, as its tick count. */
  type Ticks = t: int | 0 <= t <= MaxTicks

  /** A `TimeSpan` value, as its (64-bit, possibly negative) tick count. */
  type SpanTicks = t: int | -0x8000_0000_0000_0000 <= t <= 0x7FFF_FFFF_FFFF_FFFF

  /**
   * An order row. `weight` is a C# `double`; the core only copies it and
   * compares it with 0, so a `real` stands for it.
   */
  datatype Order = Order(
    id: int,
    createdAt: Ticks,
    weight: real,
    cityDistrict: string,
    deliveryTime: Ticks)

  /** The projection of an order that clients receive. */
  datatype OrderDto = OrderDto(
    id: int,
    createdAt: Ticks,
    weight: real,
    cityDistrict: string,
    deliveryTime: Ticks)

  /** AutoMapper's `Order -> OrderDTO` map: every property copied by name. */
  function ToDto(o: Order): OrderDto
  {
    OrderDto(o.id, o.createdAt, o.weight, o.cityDistrict, o.deliveryTime)
  }

  /** The mapping loses nothing: distinct orders give distinct DTOs. */
  lemma ToDtoInjective(a: Order, b: Order)
    ensures ToDto(a) == ToDto(b) <==> a == b
  {
  }

  /** Every row of the table is stored under its own primary key. */
  ghost predicate KeyConsistent(table: map<int, Order>)
  {
    forall id :: id in table ==> table[id].id == id
  }

  /** The DTOs of the rows whose keys are in `ids`. */
  function DtosOf(table: map<int, Order>, ids: set<int>): set<OrderDto>
  {
    set id | id in ids && id in table :: ToDto(table[id])
  }

  /** A set of keys is empty or has a member (spelled out through extensionality). */
  lemma EmptyOrHasMember(s: set<int>)
    ensures s == {} || exists k :: k in s
  {
    if forall k :: k !in s {
      assert s == {};
    }
  }

  /**
   * In a key-consistent table, projecting a set of present keys to DTOs
   * keeps its size: no two rows share a DTO.
   */
  lemma {:induction false} DtosOfCard(table: map<int, Order>, ids: set<int>)
    requires KeyConsistent(table)
    requires ids <= table.Keys
    ensures |DtosOf(table, ids)| == |ids|
    decreases ids
  {
    if ids != {} {
      EmptyOrHasMember(ids);
      var x :| x in ids;
      var rest := ids - {x};
      DtosOfCard(table, rest);
      assert DtosOf(table, ids) == DtosOf(table, rest) + {ToDto(table[x])};
      assert ToDto(table[x]) !in DtosOf(table, rest);
    }
  }
}
