/**
 * The model-level checks that run when a record is saved. `Route`, `Trip`
 * and `Ticket` call `full_clean` from `save`, which runs the field
 * validators, then the record's own `clean`, then (for tickets) the
 * uniqueness check, collecting every error raised along the way; a save
 * goes ahead only when no error was collected.
 */
module Validation {
  import opened Base
  import opened Entities

  /** Django's `MinValueValidator(limit)`: rejects a value strictly below the limit. */
  predicate MinValueOk(value: int, limit: int) {
    value >= limit
  }

  // ---------------------------------------------------------------- Route

  datatype RouteError = DistanceBelowMinimum | SameSourceAndDestination

  /** `Route.clean`: the two endpoints must be different station records (compared by primary key). */
  function RouteClean(r: Route): (e: Option<RouteError>)
    ensures e.Some? <==> r.source.id == r.destination.id
    ensures e.Some? ==> e.value == SameSourceAndDestination
  {
    if r.source.id == r.destination.id then Some(SameSourceAndDestination) else None
  }

  /** `Route.full_clean`: the distance validator, then `clean`; all errors are kept. */
  function RouteFullClean(r: Route): (errs: seq<RouteError>)
    ensures DistanceBelowMinimum in errs <==> r.distance < 1
    ensures SameSourceAndDestination in errs <==> r.source.id == r.destination.id
  {
    (if MinValueOk(r.distance, 1) then [] else [DistanceBelowMinimum])
    + (match RouteClean(r) case Some(e) => [e] case None => [])
  }

  /** `Route.save`: the route is written only when `full_clean` collected nothing. */
  function RouteSave(r: Route): (res: Result<Route, seq<RouteError>>)
    ensures res.Success? ==> res.value == r
    ensures res.Failure? ==> res.error != []
  {
    var errs := RouteFullClean(r);
    if errs == [] then Success(r) else Failure(errs)
  }

  /** A route is saved exactly when its endpoints differ and its distance is at least 1. */
  lemma RouteSaveAcceptsIff(r: Route)
    ensures RouteSave(r).Success? <==> r.source.id != r.destination.id && r.distance >= 1
    ensures r.source.id == r.destination.id ==> SameSourceAndDestination in RouteSave(r).error
  {
    var errs := RouteFullClean(r);
    if errs == [] {
      assert DistanceBelowMinimum !in errs;
      assert SameSourceAndDestination !in errs;
    } else {
      assert errs[0] in errs;
    }
  }

  // ---------------------------------------------------------------- Train

  datatype TrainField = RailcarNumField | SeatsInRailcarField

  /**
   * The minimum-value validators on a train's two counts. `Train` does not
   * override `save`, so these run when the train serializer validates input.
   */
  function TrainFieldErrors(t: Train): (errs: seq<TrainField>)
    ensures errs == [] <==> TrainFieldsValid(t)
    ensures RailcarNumField in errs <==> t.railcarNum < 1
    ensures SeatsInRailcarField in errs <==> t.seatsInRailcar < 1
  {
    (if MinValueOk(t.railcarNum, 1) then [] else [RailcarNumField])
    + (if MinValueOk(t.seatsInRailcar, 1) then [] else [SeatsInRailcarField])
  }

  /** A train that passed its validators offers at least one seat, and as many as the grid of its seat positions. */
  lemma AcceptedTrainHasSeats(t: Train)
    requires TrainFieldErrors(t) == []
    ensures t.Capacity() >= 1
    ensures |SeatGrid(t)| == t.Capacity()
  {
    CapacityPositive(t);
    CapacityCountsSeats(t);
  }

  // ---------------------------------------------------------------- Trip

  datatype TripError = DepartureBeforeLimit(limit: int) | ArrivalBeforeDeparture

  /**
   * The frozen lower bound on `departure_time` that migration 0005 records:
   * 2023-08-29 17:40:28.728523 UTC, in microseconds since the epoch.
   */
  const MigratedDepartureLimit: int := 1693330828728523

  /**
   * `Trip.clean` builds an error for an arrival before the departure but
   * returns it instead of raising it; the value it returns is never looked at.
   */
  function TripClean(t: Trip): (returned: Option<TripError>)
    ensures returned.Some? <==> t.arrival < t.departure
  {
    if t.arrival < t.departure then Some(ArrivalBeforeDeparture) else None
  }

  /**
   * `Trip.full_clean`. The validator on `departure_time` was built with
   * `timezone.now()` evaluated once when the models module was loaded, so its
   * limit is `loadTime`, not the moment of saving. The error `clean`
   * returns is dropped.
   */
  function TripFullClean(loadTime: int, t: Trip): (errs: seq<TripError>)
    ensures errs == [] <==> t.departure >= loadTime
    ensures ArrivalBeforeDeparture !in errs
  {
    if MinValueOk(t.departure, loadTime) then [] else [DepartureBeforeLimit(loadTime)]
  }

  /** `Trip.save`. */
  function TripSave(loadTime: int, t: Trip): (res: Result<Trip, seq<TripError>>)
    ensures res.Success? ==> res.value == t
    ensures res.Failure? ==> res.error == [DepartureBeforeLimit(loadTime)]
  {
    var errs := TripFullClean(loadTime, t);
    if errs == [] then Success(t) else Failure(errs)
  }

  /** Saving a trip depends on its departure and the load-time limit only; the arrival time is never checked. */
  lemma TripSaveAcceptsIff(loadTime: int, t: Trip)
    ensures TripSave(loadTime, t).Success? <==> t.departure >= loadTime
    ensures t.arrival < t.departure && t.departure >= loadTime ==>
              TripClean(t).Some? && TripSave(loadTime, t).Success?
  {
  }

  /** A trip that already departed when it is saved is still accepted if it departs after the process started. */
  lemma PastDepartureAccepted(loadTime: int, saveTime: int, t: Trip)
    requires loadTime <= t.departure < saveTime
    ensures TripSave(loadTime, t).Success?
  {
  }

  /** Under the bound the migration froze, the bound itself is accepted and one microsecond earlier is not. */
  lemma MigratedLimitBoundary(t: Trip)
    ensures t.departure == MigratedDepartureLimit ==> TripSave(MigratedDepartureLimit, t).Success?
    ensures t.departure == MigratedDepartureLimit - 1 ==>
              TripSave(MigratedDepartureLimit, t) == Failure([DepartureBeforeLimit(1693330828728523)])
  {
  }

  // ---------------------------------------------------------------- Ticket

  datatype TicketField = RailcarField | SeatField

  /** The errors `Ticket.clean` raises; each names the upper bound of the allowed range. */
  datatype TicketCleanError = RailcarUnavailable(upper: int) | SeatUnavailable(upper: int)

  datatype TicketSaveError =
    | BelowMinimum(field: TicketField)
    | Unavailable(cause: TicketCleanError)
    | AlreadySold(railcar: int, seat: int)

  /** `Ticket.clean`: the railcar is checked first, so its error wins when both are out of range. */
  function TicketClean(t: Ticket): (e: Option<TicketCleanError>)
    ensures e.None? <==> SeatExists(t.trip.train, t.railcar, t.seat)
    ensures !(1 <= t.railcar <= t.trip.train.railcarNum) ==>
              e == Some(RailcarUnavailable(t.trip.train.railcarNum))
    ensures 1 <= t.railcar <= t.trip.train.railcarNum && !(1 <= t.seat <= t.trip.train.seatsInRailcar) ==>
              e == Some(SeatUnavailable(t.trip.train.seatsInRailcar))
  {
    var train := t.trip.train;
    if !(1 <= t.railcar <= train.railcarNum) then Some(RailcarUnavailable(train.railcarNum))
    else if !(1 <= t.seat <= train.seatsInRailcar) then Some(SeatUnavailable(train.seatsInRailcar))
    else None
  }

  /** Some stored ticket already has this (railcar, seat) pair, on whatever trip. */
  predicate SeatSold(tickets: seq<Ticket>, railcar: int, seat: int) {
    exists k :: 0 <= k < |tickets| && tickets[k].railcar == railcar && tickets[k].seat == seat
  }

  /** No two stored tickets share a (railcar, seat) pair: `unique_together = ("railcar", "seat")`. */
  predicate SeatPairsUnique(tickets: seq<Ticket>) {
    forall i, j :: 0 <= i < j < |tickets| ==>
      !(tickets[i].railcar == tickets[j].railcar && tickets[i].seat == tickets[j].seat)
  }

  /** The `MinValueValidator(1)` of `railcar` and of `seat`, in field order. */
  function FieldErrors(t: Ticket): (errs: seq<TicketSaveError>)
    ensures errs == [] <==> t.railcar >= 1 && t.seat >= 1
    ensures BelowMinimum(RailcarField) in errs <==> t.railcar < 1
    ensures BelowMinimum(SeatField) in errs <==> t.seat < 1
    ensures forall e :: e in errs ==> e.BelowMinimum?
  {
    (if MinValueOk(t.railcar, 1) then [] else [BelowMinimum(RailcarField)])
    + (if MinValueOk(t.seat, 1) then [] else [BelowMinimum(SeatField)])
  }

  /**
   * `Ticket.full_clean` against the rows already stored: field validators,
   * `clean`, then the uniqueness check, which is skipped when a field of the
   * unique pair already failed its validator.
   */
  function TicketFullClean(stored: seq<Ticket>, t: Ticket): (errs: seq<TicketSaveError>)
    ensures errs == [] <==> SeatExists(t.trip.train, t.railcar, t.seat) && !SeatSold(stored, t.railcar, t.seat)
    ensures !SeatExists(t.trip.train, t.railcar, t.seat) ==> Unavailable(TicketClean(t).value) in errs
    ensures AlreadySold(t.railcar, t.seat) in errs <==>
              t.railcar >= 1 && t.seat >= 1 && SeatSold(stored, t.railcar, t.seat)
  {
    var fieldErrs := FieldErrors(t);
    var cleanErrs := match TicketClean(t) case Some(e) => [Unavailable(e)] case None => [];
    var uniqueErrs := if fieldErrs == [] && SeatSold(stored, t.railcar, t.seat) then [AlreadySold(t.railcar, t.seat)] else [];
    fieldErrs + cleanErrs + uniqueErrs
  }

  /** `Ticket.save`: appends the row when `full_clean` collected nothing. */
  function TicketSave(stored: seq<Ticket>, t: Ticket): (res: Result<seq<Ticket>, seq<TicketSaveError>>)
    ensures res.Success? <==> SeatExists(t.trip.train, t.railcar, t.seat) && !SeatSold(stored, t.railcar, t.seat)
    ensures res.Success? ==> res.value == stored + [t]
    ensures res.Failure? ==> res.error != [] && res.error == TicketFullClean(stored, t)
  {
    var errs := TicketFullClean(stored, t);
    if errs == [] then Success(stored + [t]) else Failure(errs)
  }

  /** Every successful ticket save keeps (railcar, seat) pairs unique across all stored tickets. */
  lemma TicketSaveKeepsPairsUnique(stored: seq<Ticket>, t: Ticket)
    requires SeatPairsUnique(stored)
    requires TicketSave(stored, t).Success?
    ensures SeatPairsUnique(TicketSave(stored, t).value)
  {
    var after := stored + [t];
    forall i, j | 0 <= i < j < |after|
      ensures !(after[i].railcar == after[j].railcar && after[i].seat == after[j].seat)
    {
      if j == |stored| {
        assert after[i] == stored[i];
      }
    }
  }

  /** The pair is global: a seat sold on one trip cannot be sold on any other trip. */
  lemma SoldSeatBlocksEveryTrip(stored: seq<Ticket>, sold: Ticket, t: Ticket)
    requires sold in stored
    requires t.railcar == sold.railcar && t.seat == sold.seat && t.trip != sold.trip
    ensures TicketSave(stored, t).Failure?
  {
    var k :| 0 <= k < |stored| && stored[k] == sold;
    assert SeatSold(stored, t.railcar, t.seat);
  }
}
