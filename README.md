# DeliveryService orders: a verified model

This project models the order-management core of the DeliveryService backend:
the `OrdersController` actions (get one order, list orders through a filter,
create, update, delete). These run over an order table. Beside them is the
`OrderValidator` that checks every create and update request before the action
runs.

- `Entities` holds the `Order` row and the `OrderDto` projection. `ToDto` is the field-copy
  mapping AutoMapper performs. Times are .NET ticks: a `DateTime` is 0 to
  `DateTime.MaxValue.Ticks`, a `TimeSpan` is any signed 64-bit count.
- `Validation` holds the three independent rules: `Weight > 0`, `DeliveryTime > now` and
  `CityDistrict` not null, empty or whitespace-only. `now` is the instant the validator
  was built, passed as a parameter. `Errors` is the set of fields whose rule fails.
- `OrderFilter` holds the query model of `GET orders` and the predicate the controller
  builds from it. `Query` is the set of DTOs of the rows the predicate selects.
- `Orders` holds `OrdersController`, a class over `orders: map<int, Order>` and the next
  store-generated key. `GetOrder`, `GetOrders`, `Create`, `Update` and `Delete` are methods
  whose `ensures` give the whole new table and the HTTP outcome (`ActionResult`).

The validator runs in the request pipeline before the action (FluentValidation's automatic
validation, `DeliveryService.Backend/Program.cs:64-67`). So `Create` and `Update` check the
request first. A rejected request returns `ValidationFailed` with the failing fields and leaves
the table as it was. For `Update` this means an invalid body sent to a missing id is answered
with the validation failure, not with "not found".

`First + TimeOffset` is computed before the query runs (`OrdersController.cs:43`). When the result
falls outside the `DateTime` range, .NET throws. The model returns
`Unhandled(EndDeliveryTimeOutOfRange)` for this case, which the global exception handler answers.

## Model

| member | source | states |
|---|---|---|
| `Entities.ToDtoInjective` | DeliveryService.Backend/Models/AutoMapperProfile.cs:12 | the DTO mapping loses no field: two orders give the same DTO exactly when they are equal |
| `Entities.DtosOfCard` | DeliveryService.Backend/Controllers/OrdersController.cs:50 | projecting any set of present keys of a key-consistent table gives exactly as many DTOs as keys |
| `Validation.Errors` | DeliveryService.Backend/Validators/OrderValidator.cs:10-12 | depends only on the request and `now`; each field is reported exactly when its rule fails: weight not above 0, delivery time not after `now`, district null or all whitespace; no other field is ever reported |
| `Validation.AcceptedIffAllRulesHold` | DeliveryService.Backend/Validators/OrderValidator.cs:8-13 | a request is accepted (no errors) if and only if weight > 0, delivery time > now and the district has a non-whitespace character |
| `Validation.RulesAreIndependent` | DeliveryService.Backend/Validators/OrderValidator.cs:10-12 | changing one request property changes at most whether that property's field is reported |
| `Validation.BlankDistrictRejected` | DeliveryService.Backend/Validators/OrderValidator.cs:12 | a null, empty or all-space district always fails `NotEmpty` |
| `Validation.NonBlankDistrictAccepted` | DeliveryService.Backend/Validators/OrderValidator.cs:12 | a district containing any non-whitespace character passes `NotEmpty` |
| `OrderFilter.QueryExact` | DeliveryService.Backend/Controllers/OrdersController.cs:43-50 | a stored order's DTO is listed if and only if the order satisfies the district and time clauses; every listed DTO is that of the order stored under its id |
| `OrderFilter.QueryCount` | DeliveryService.Tests/Controllers/OrdersControllerTests.cs:145 | the list holds exactly as many DTOs as there are matching orders |
| `OrderFilter.UnfilteredReturnsAll` | DeliveryService.Backend/Controllers/OrdersController.cs:44-48 | with district and first time both unset, the window cannot overflow and every order of the table is listed, one DTO per order |
| `OrderFilter.BothFiltersIntersect` | DeliveryService.Backend/Controllers/OrdersController.cs:47-48 | with both filters set, the list is the intersection of the lists for the district filter alone and the time filter alone |
| `OrderFilter.ClausesMeaning` | DeliveryService.Backend/Controllers/OrdersController.cs:47-48 | a set district (the empty string included) matches by exact equality; a zero offset keeps only orders delivered exactly at the first time; a negative offset keeps none |
| `OrderFilter.DefaultWindow` | DeliveryService.Backend/ViewModels/OrderFilterViewModel.cs:23 | the default offset makes the window [first, first + 30 minutes], in ticks |
| `Orders.OrdersController.constructor` | DeliveryService.Backend/Migrations/ApplicationContextModelSnapshot.cs:22-24 | the controller starts over a given table whose keys are positive and below the next store-generated key |
| `Orders.OrdersController.GetOrder` | DeliveryService.Backend/Controllers/OrdersController.cs:28-38 | an absent id gives NotFound carrying that id; a present id gives the DTO of the order stored there, with that id; the table is not modified |
| `Orders.OrdersController.GetOrders` | DeliveryService.Backend/Controllers/OrdersController.cs:40-53 | an end time outside the DateTime range is an unhandled error; otherwise the result is Ok, holds an order's DTO if and only if the order matches, holds nothing else, and has one DTO per matching order |
| `Orders.OrdersController.Create` | DeliveryService.Backend/Controllers/OrdersController.cs:55-71 | a rejected request returns its failing fields and changes nothing; an accepted one adds exactly one order under a fresh non-zero id, with the request's weight, delivery time and district and `CreatedAt` = now, leaves every other order as it was, and returns Created with that order's DTO |
| `Orders.OrdersController.Update` | DeliveryService.Backend/Controllers/OrdersController.cs:74-90 | a rejected request changes nothing; a missing id gives NotFound with that id and changes nothing; otherwise only that order's weight, delivery time and district take the request's values, its id and `CreatedAt` stay, every other order stays, and the returned DTO carries the new values |
| `Orders.OrdersController.Delete` | DeliveryService.Backend/Controllers/OrdersController.cs:92-103 | a missing id gives NotFound with that id and changes nothing; a present id gives Ok and removes exactly that order; afterwards no order has that id and every other order is unchanged |
| `Orders.CreateThenGet` | DeliveryService.Tests/Controllers/OrdersControllerTests.cs:175-199 | a create succeeds exactly when the request is valid, and fetching the returned id then gives back the same DTO |
| `Orders.DeleteThenGet` | DeliveryService.Tests/Controllers/OrdersControllerTests.cs:232-244 | a delete answers Ok exactly when the id was stored, and a fetch of that id afterwards gives NotFound |

## Left out

- Orders.OrdersController.GetOrders: returns the set of matching DTOs. The order in which the store lists them is not modelled.
- Orders.OrdersController.Create: keys come from an unbounded counter. Running out of 32-bit `int` keys is not modelled.
- Orders.OrdersController.Update: the tracked entity the source mutates in place is a datatype value that is replaced in the map, so entity aliasing has no counterpart.
- Weights are `real`. NaN and infinities of the source's `double` are not modelled. The core never does arithmetic on weights.
- `DateTime.Kind` is ignored. Times are compared by tick count, as .NET compares them.
- Startup seeding of 400 random orders (`Program.cs:117-136`) uses `Random` and `double` rounding. It is replaced by the constructor's arbitrary initial table. Seeded weights may be 0, so `Weight > 0` is not a table invariant.
- `EndpointExistMiddleware` (unmatched routes), dependency injection, Swagger, localisation and exception-handler wiring are framework plumbing.
- Localised titles and details, trace ids and problem-type links are abstracted away. Not-found results carry only the id, and validation results only the failing fields.
- EF Core, the repository internals and its unit of work are replaced by the map. `Save` commits at once, and storage failures are not modelled.
- Logging calls have no effect on state and are omitted.
- Model-binding failures such as an unparsable body or query are not modelled. Nor are requests handled concurrently.
- The clocks are parameters: the validator's `now` and `Create`'s `DateTime.UtcNow`.
