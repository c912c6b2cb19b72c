# Railway ticketing back-end: a Dafny model of its rules

The system is a railway ticketing back-end. Administrators keep stations,
routes, train types, trains, crews and trips. Authenticated users buy
seats by placing orders, and each order holds one or more tickets. This
project models the parts that carry rules:

- **Record validation** (`Validation`, `Entities`). Train capacity is
  railcars times seats per railcar. A route's source and destination must
  be different stations. A ticket's railcar and seat must lie inside its
  trip's train. A (railcar, seat) pair may be sold only once. A trip's
  departure has a lower bound that is fixed when the models module loads.
  `Trip.clean` returns its error instead of raising it, so it never rejects
  a trip.
- **Order placement** (`Placement`). The order serializer rejects an empty
  ticket list and then validates each ticket request. Next, `create` writes
  the order and its tickets inside one atomic transaction. Each ticket row
  goes through `Ticket.save` and therefore through `full_clean`. The model is
  a pure function `PlaceOrder(store, user, requests, now)`. It returns the
  store after the call together with the response. Any failure returns the
  store unchanged. An empty list and an invalid entry are validation answers.
  A seat already sold is refused during validation too, by the
  unique-together validator the serializer derives from the model. A refused
  `Ticket.save` is not a validation answer: it is the exception that escapes
  `create` after the rollback (`TicketRejected`), and only a (railcar, seat)
  pair repeated within one request reaches it.
- **List filtering and ownership** (`Queries`, `OrderViews`). Name filters
  are ASCII case-insensitive substring tests (`icontains`). Route `source` and
  `destination` combine by AND, while the trip `route` filter matches either
  end of the route. Orders are listed, retrieved and created for the
  requesting user only.

Modules: `Base` (Option and Result), `Text` (case folding and `icontains`),
`Entities` (records, capacity, seat grid), `Validation` (the `full_clean`
of Route, Trip, Ticket and the train validators), `Placement` (serializer
validation, the atomic create, the store invariant and no-overbooking),
`Queries` (the viewsets' `get_queryset` filters) and `OrderViews`.

Times are integers, in microseconds since the epoch. The clock that stamps
`created_at` is the parameter `now`. The moment the models module was
loaded is the parameter `loadTime`. The bound that migration 0005 froze,
2023-08-29 17:40:28.728523 UTC, is the constant
`Validation.MigratedDepartureLimit`.

Behaviour the model keeps exactly as the code has it, although a ticketing system would usually do otherwise:

- Ticket uniqueness is global. `unique_together = ("railcar", "seat")` does not
  include the trip. If railcar 1, seat 1 is sold on one trip, it cannot be sold
  on any other trip (`Validation.SoldSeatBlocksEveryTrip`,
  `Placement.SoldSeatRejected`). Per-trip uniqueness is not what the code does.
- A trip whose arrival comes before its departure is accepted.
  `Trip.clean` returns its `ValidationError` instead of raising it. An arrival
  equal to the departure would not be flagged even if the error were raised.
- The departure bound is the time the module was loaded, not the time the
  trip is saved. A trip that has already departed when it is saved is still
  accepted, as long as it departs after the process started
  (`Validation.PastDepartureAccepted`).
- A serializer-level range error tells the caller the upper bound and the value
  sent. The range errors from `Ticket.clean` give only the upper bound. A
  railcar or seat below 1 never reaches these checks. The minimum-value
  validator on the model field is copied into the serializer field, so such
  a value fails first with that field's own error.

## Model

| member | source | states |
|---|---|---|
| Entities.Train.Capacity | railway_station/models.py:63-65 | with both counts at least 1 the capacity is at least each count; what it counts, the number of seat positions, is `Entities.CapacityCountsSeats` |
| Entities.CapacityPositive | railway_station/models.py:52-65 | a train whose two counts are at least 1 has capacity at least 1, and at least each of its factors |
| Entities.SeatGrid | railway_station/models.py:142-151 | the set of positions a ticket may name on a train is exactly the set of pairs that pass the ticket range check |
| Entities.CapacityCountsSeats | railway_station/models.py:63-65 | a valid train's capacity equals the number of distinct (railcar, seat) positions the ticket check accepts |
| Validation.TrainFieldErrors | railway_station/models.py:54-55 | a train is rejected exactly when a count is below 1, and each error names the count that is too small |
| Validation.AcceptedTrainHasSeats | railway_station/models.py:54-65 | a train that passed its validators has capacity at least 1, equal to its number of seat positions |
| Validation.RouteClean | railway_station/models.py:29-31 | `clean` raises the same-station error exactly when source and destination are the same station |
| Validation.RouteFullClean | railway_station/models.py:27-36 | the collected errors hold the distance error exactly when distance < 1, and the same-station error exactly when the endpoints coincide |
| Validation.RouteSave | railway_station/models.py:33-39 | a save either writes the route unchanged or reports a non-empty error list |
| Validation.RouteSaveAcceptsIff | railway_station/models.py:27-39 | a route is saved if and only if its endpoints differ and its distance is at least 1; equal endpoints always produce the same-station error |
| Validation.TripClean | railway_station/models.py:96-100 | `clean` produces an error value exactly when arrival is before departure (the value is returned, never raised) |
| Validation.TripFullClean | railway_station/models.py:91-100 | the trip has no errors exactly when departure is at or after the load-time bound; the arrival error is never among them |
| Validation.TripSave | railway_station/models.py:102-108 | a save writes the trip unchanged, or fails with only the departure-bound error |
| Validation.TripSaveAcceptsIff | railway_station/models.py:91-108 | a trip is saved iff its departure is at or after the load-time bound; a trip arriving before it departs is still saved |
| Validation.PastDepartureAccepted | railway_station/models.py:91-93 | a trip that already departed at the time of saving is accepted when it departs after the module was loaded |
| Validation.MigratedLimitBoundary | railway_station/migrations/0005_alter_trip_departure_time.py:17-29 | with the bound the migration records, a departure exactly at it is accepted and one microsecond earlier is rejected with the departure-bound error |
| Validation.TicketClean | railway_station/models.py:142-151 | no error iff 1 <= railcar <= railcar_num and 1 <= seat <= seats_in_railcar; when both are out of range the railcar error, naming railcar_num, is reported |
| Validation.FieldErrors | railway_station/models.py:133-134 | no field error iff railcar >= 1 and seat >= 1; each minimum error appears exactly when its field is below 1 |
| Validation.TicketFullClean | railway_station/models.py:133-169 | no error iff the seat exists on the trip's train and no stored ticket of any trip has the same (railcar, seat); the already-sold error appears exactly when both numbers pass their minimum and the pair is taken |
| Validation.TicketSave | railway_station/models.py:153-159 | a save succeeds iff the seat exists and is unsold, and then appends exactly that ticket; a refused save carries the ticket's `full_clean` errors |
| Validation.TicketSaveKeepsPairsUnique | railway_station/models.py:168-169 | after any successful ticket save no two stored tickets share a (railcar, seat) pair |
| Validation.SoldSeatBlocksEveryTrip | railway_station/models.py:169 | a pair sold on one trip cannot be saved for a different trip |
| Placement.TicketValidate | railway_station/serializers.py:95-108 | validation passes iff the seat exists on the trip's train, and then returns the data unchanged; a railcar out of range is reported first with railcar_num and the value sent, otherwise a seat out of range with seats_in_railcar and the value sent |
| Placement.ResolveFields | railway_station/models.py:133-137 | the field stage passes iff railcar >= 1, seat >= 1 and the trip key names a stored trip, and then resolves the trip |
| Placement.ValidateRequest | railway_station/serializers.py:92-110 | a request validates iff its trip exists, its seat exists on that trip's train and no stored ticket of any trip holds the pair; with well-formed fields a sold pair gets the unique-together error before any range check, and the range errors carry the bound and the value sent |
| Placement.ValidateEach | railway_station/serializers.py:126 | the list validates iff every entry does, and then yields one resolved entry per request in order; otherwise it names the first invalid entry |
| Placement.ValidateOrder | railway_station/serializers.py:125-130 | an empty ticket list is rejected; otherwise validation succeeds iff every entry is valid, and a failure names an entry |
| Placement.NewTickets | railway_station/serializers.py:136-137 | one ticket row per entry, carrying the entry's trip, railcar and seat, the order's id and consecutive fresh ids |
| Placement.SaveTickets | railway_station/serializers.py:136-137 | on success the stored rows are the old rows followed by exactly the new rows, in order; on failure the error is a rejected save at the index of one of the rows, with a non-empty error list |
| Placement.SaveTicketsReportsFirst | railway_station/serializers.py:136-137 | the reported row is the first one `Ticket.save` refuses: every row before it saves, and the errors are exactly that row's `full_clean` errors against the rows stored before it |
| Placement.SaveTicketsSucceedsIff | railway_station/serializers.py:136-137 | the ticket loop completes iff every seat exists, none is already sold, and no two entries name the same pair |
| Placement.CreateAtomically | railway_station/serializers.py:132-138 | a failed ticket save rolls back the order row and every ticket written before it; on success the store gains the order stamped with the user and time and exactly the new ticket rows |
| Placement.PlaceOrder | railway_station/serializers.py:125-138 | on failure the store is unchanged; an empty list fails with the empty-list error; on success exactly one order stamped with the user and time is added, plus one ticket per request in submission order referencing it, with everything stored before left in place |
| Placement.PlaceOrderSucceedsIff | railway_station/serializers.py:125-138 | an order is placed iff the list is non-empty, every entry names a stored trip and an existing unsold seat, and no pair is requested twice |
| Placement.DuplicateSeatInRequestRejected | railway_station/serializers.py:133-137 | a request naming the same (railcar, seat) twice places nothing |
| Placement.SoldSeatRejected | railway_station/models.py:168-169 | a request for a pair already sold on any trip places nothing, even when its other entries are valid; the failure is a validation answer, and as the first entry with well-formed fields it is the unique-together error |
| Placement.RejectedSaveMeansRepeatedPair | railway_station/serializers.py:132-137 | a `Ticket.save` refused inside `create` implies the request names some (railcar, seat) pair twice |
| Placement.OutOfRangeEntryRejected | railway_station/serializers.py:97-106 | one out-of-range entry rejects the whole order and leaves the store unchanged |
| Placement.PlaceOrderKeepsStoreValid | railway_station/serializers.py:132-138 | every placement keeps keys fresh and distinct, tickets pointing at stored orders, every seat inside its train, and seat pairs globally unique |
| Placement.TicketsOnCountPositions | railway_station/models.py:168-169 | with unique pairs, a trip's ticket count equals the number of distinct positions taken on it |
| Placement.NoOverbooking | railway_station/models.py:142-169 | in a consistent store no trip has more tickets than its train's capacity |
| Text.IContainsIgnoresCase | railway_station/views.py:46 | the `icontains` test ignores the case of both the stored name and the query |
| Text.IContainsItself | railway_station/views.py:61 | a name always matches itself, as written, fully capitalised, and in every query whose lower-case fold equals the name's |
| Queries.Filter | railway_station/views.py:41-48 | a filter keeps exactly the records its predicate accepts and never adds records |
| Queries.FilterTwice | railway_station/views.py:60-64 | two successive filters equal one filter by the conjunction |
| Queries.FilterBy | railway_station/views.py:45-46 | an absent or empty parameter leaves the list unchanged; otherwise exactly the records whose field contains the query, ignoring case, are kept |
| Queries.EmptyQueryKeepsAll | railway_station/views.py:45 | filtering by the empty query would keep every record, so skipping an empty parameter loses nothing |
| Queries.StationQuery | railway_station/views.py:41-48 | stations are kept iff their name contains `name`, ignoring case; no parameter means all stations |
| Queries.RouteQuery | railway_station/views.py:55-66 | a route is kept iff it matches `source` on the source name AND `destination` on the destination name, each only when given |
| Queries.TrainTypeQuery | railway_station/views.py:82-89 | train types are kept iff their name contains `name`, ignoring case |
| Queries.TrainQuery | railway_station/views.py:96-103 | trains are kept iff the name of their train type contains `train_type`, ignoring case |
| Queries.CrewQuery | railway_station/views.py:116-127 | crew members are kept iff they match both the first-name and the last-name query, each only when given |
| Queries.TripQuery | railway_station/views.py:134-144 | a trip is kept iff the `route` query is contained in its source name OR its destination name |
| Queries.RouteFiltersCommute | railway_station/views.py:60-64 | the two route filters equal one conjunctive filter, in either order |
| Queries.TripRouteFilterIsUnion | railway_station/views.py:139-143 | the trip route filter keeps a trip iff a source-only or a destination-only match keeps it |
| Queries.TripFoundByEitherEnd | railway_station/views.py:139-143 | a trip is found by the exact name of its destination and by the upper-cased name of its source |
| Queries.SourceFilterScenario | railway_station/tests/test_route_api.py:60-83 | with stations "Paris" and "Rim", each source filter keeps its own route and drops the other |
| OrderViews.OrdersOf | railway_station/views.py:171-172 | the order list is exactly the requester's orders |
| OrderViews.RetrieveOrder | railway_station/views.py:171-172 | retrieval finds an order only when it has the id and belongs to the requester, and finds nothing iff no such order exists |
| OrderViews.CreateOrder | railway_station/views.py:180-181 | a created order belongs to the requester and is stored; a failed one changes nothing |
| OrderViews.CreatedOrderVisibleOnlyToOwner | railway_station/views.py:171-181 | a created order appears in its creator's list, and every other user's list is unchanged |

## Left out

- HTTP routing, URL configuration, viewset dispatch, the admin registration and the `user` app are left out as framework plumbing. `railway_station/urls.py` imports a `TicketViewSet` that `views.py` does not define.
- Permission and role checks are left out. The tests expect 401 and 403 answers, but the permission classes are not part of this model.
- Serializer output rendering is left out: date formats, nested read serializers and slug fields such as `name_by_coordinate`, `full_route` and `important_information`. These name attributes the models do not have, and they affect presentation only.
- Station latitude and longitude are left out because they are floats that no rule reads.
- The trip `departure_time` date filter is left out. It parses a date string and compares calendar dates in a time zone.
- Concurrent double-booking is left out. Two simultaneous placements rely on the database's transactional uniqueness enforcement, so only the sequential, all-or-nothing semantics are modelled.
- Default orderings (`Meta.ordering`), `.distinct()`, `select_related` and `prefetch_related` are left out as storage concerns. Lists stay in storage order.
- The unused helper `_params_to_ints` is left out.
- Primary-key sequence values used by a rolled-back transaction are not modelled. After a failed placement the id counters are unchanged.
- The trip's crew set and the foreign-key existence checks in `full_clean` are not checked. Records hold the referenced records directly.
- Errors raised by `save()` are not HTTP answers. The `TicketRejected` error of `Placement` (a pair repeated within one request) and a failed `Validation.RouteSave` stand for Django's `ValidationError` raised by `save()`. The framework's exception handler does not turn it into a 400 validation answer. After the rollback it escapes as an uncaught exception, a server error. The model keeps it as an ordinary failure value. Its effect on the store, none, is the same.
- Integer fields are unbounded. Django's `IntegerField` also gets the database backend's range validators, for example at most 2147483647 on PostgreSQL, and the serializer copies them as `max_value`. The backend is not part of this model, so `distance`, `railcar_num`, `seats_in_railcar`, `railcar` and `seat` have only their lower bound of 1.
- Placement.ValidateEach: reports only the first invalid entry. The list serializer reports one error per entry.
- Validation.TicketFullClean: the model returns the collected errors as a list. Django's `ValidationError` dictionary keyed by field is not modelled.
