/**
 * Placing an order: the order serializer validates the request (a
 * non-empty list of tickets, each checked field by field and then against
 * its trip's train), and `create` then writes the order row and one ticket
 * row per request inside one atomic transaction. Every ticket row goes
 * through `Ticket.save`, hence `full_clean`, which re-checks the bounds and
 * the global (railcar, seat) uniqueness against every row stored so far,
 * including the rows this order wrote before it. The first failing save
 * aborts the transaction and nothing of the order survives.
 */
module Placement {
  import opened Base
  import opened Entities
  import opened Validation
  import opened Queries

  /** One element of the `tickets` list in an order request; the trip is given by primary key. */
  datatype TicketRequest = TicketRequest(railcar: int, seat: int, trip: nat)

  /** A ticket request after the serializer resolved its trip. */
  datatype TicketData = TicketData(railcar: int, seat: int, trip: Trip)

  /** Field-level serializer errors, collected in field order (railcar, seat, trip). */
  datatype FieldError = TooSmall(field: TicketField) | NoSuchTrip(pk: nat)

  /**
   * Why one ticket request failed validation. `PairNotUnique` is the
   * unique-together validator the model serializer derives from
   * `unique_together = ("railcar", "seat")`; range errors name the upper
   * bound and the value sent.
   */
  datatype RequestError =
    | InvalidFields(errors: seq<FieldError>)
    | PairNotUnique
    | RailcarOutOfRange(upper: int, given: int)
    | SeatOutOfRange(upper: int, given: int)

  /**
   * Why a placement failed. `EmptyTicketList` and `InvalidTicket` are
   * validation answers, a sold seat among them; `TicketRejected` is Django's
   * `ValidationError` escaping from `Ticket.save` inside `create`, which the
   * framework does not turn into a validation answer. Only a (railcar, seat)
   * pair repeated within one request gets that far.
   */
  datatype OrderError =
    | EmptyTicketList
    | InvalidTicket(index: nat, error: RequestError)
    | TicketRejected(index: nat, errors: seq<TicketSaveError>)

  /** The rows an order placement reads and writes; the id counters are the next primary keys. */
  datatype Store = Store(trips: map<nat, Trip>, orders: seq<Order>, tickets: seq<Ticket>, nextOrderId: nat, nextTicketId: nat)

  /** The store after a placement, and what the caller is answered. */
  datatype Outcome = Outcome(store: Store, response: Result<Order, OrderError>)

  // ------------------------------------------------------- request validation

  /** `TicketSerializer.validate`: the railcar bound is checked before the seat bound. */
  function TicketValidate(data: TicketData): (r: Result<TicketData, RequestError>)
    ensures r.Success? <==> SeatExists(data.trip.train, data.railcar, data.seat)
    ensures r.Success? ==> r.value == data
    ensures !(1 <= data.railcar <= data.trip.train.railcarNum) ==>
              r == Failure(RailcarOutOfRange(data.trip.train.railcarNum, data.railcar))
    ensures 1 <= data.railcar <= data.trip.train.railcarNum && !(1 <= data.seat <= data.trip.train.seatsInRailcar) ==>
              r == Failure(SeatOutOfRange(data.trip.train.seatsInRailcar, data.seat))
  {
    var train := data.trip.train;
    if !(1 <= data.railcar <= train.railcarNum) then Failure(RailcarOutOfRange(train.railcarNum, data.railcar))
    else if !(1 <= data.seat <= train.seatsInRailcar) then Failure(SeatOutOfRange(train.seatsInRailcar, data.seat))
    else Success(data)
  }

  /**
   * The serializer's field stage: `railcar` and `seat` carry the model's
   * minimum-value validators, and `trip` must name a stored trip.
   */
  function ResolveFields(trips: map<nat, Trip>, req: TicketRequest): (r: Result<TicketData, RequestError>)
    ensures r.Success? <==> req.railcar >= 1 && req.seat >= 1 && req.trip in trips
    ensures r.Success? ==> req.trip in trips && r.value == TicketData(req.railcar, req.seat, trips[req.trip])
    ensures r.Failure? ==> r.error.InvalidFields? && r.error.errors != []
  {
    var errs := (if MinValueOk(req.railcar, 1) then [] else [TooSmall(RailcarField)])
                + (if MinValueOk(req.seat, 1) then [] else [TooSmall(SeatField)])
                + (if req.trip in trips then [] else [NoSuchTrip(req.trip)]);
    if errs == [] then Success(TicketData(req.railcar, req.seat, trips[req.trip])) else Failure(InvalidFields(errs))
  }

  /**
   * The request names a stored trip and a seat that exists on that trip's
   * train and that no stored ticket, of any trip, holds.
   */
  predicate RequestValid(trips: map<nat, Trip>, sold: seq<Ticket>, req: TicketRequest) {
    req.trip in trips && SeatExists(trips[req.trip].train, req.railcar, req.seat) && !SeatSold(sold, req.railcar, req.seat)
  }

  /**
   * Full validation of one ticket request against the stored tickets `sold`:
   * the field stage, then the unique-together validator, then `validate`.
   */
  function ValidateRequest(trips: map<nat, Trip>, sold: seq<Ticket>, req: TicketRequest): (r: Result<TicketData, RequestError>)
    ensures r.Success? <==> RequestValid(trips, sold, req)
    ensures r.Success? ==> r.value == TicketData(req.railcar, req.seat, trips[req.trip])
    ensures req.trip in trips && req.railcar >= 1 && req.seat >= 1 && SeatSold(sold, req.railcar, req.seat) ==>
              r == Failure(PairNotUnique)
    ensures req.trip in trips && req.railcar >= 1 && req.seat >= 1 && !SeatSold(sold, req.railcar, req.seat)
              && req.railcar > trips[req.trip].train.railcarNum ==>
              r == Failure(RailcarOutOfRange(trips[req.trip].train.railcarNum, req.railcar))
    ensures req.trip in trips && req.railcar >= 1 && req.seat >= 1 && !SeatSold(sold, req.railcar, req.seat)
              && req.railcar <= trips[req.trip].train.railcarNum && req.seat > trips[req.trip].train.seatsInRailcar ==>
              r == Failure(SeatOutOfRange(trips[req.trip].train.seatsInRailcar, req.seat))
  {
    match ResolveFields(trips, req)
    case Failure(e) => Failure(e)
    case Success(data) =>
      if SeatSold(sold, data.railcar, data.seat) then Failure(PairNotUnique) else TicketValidate(data)
  }

  /** Validates the requests in order, numbering them from `offset`; the first failure is reported. */
  function ValidateEach(trips: map<nat, Trip>, sold: seq<Ticket>, reqs: seq<TicketRequest>, offset: nat): (r: Result<seq<TicketData>, OrderError>)
    ensures r.Success? <==> forall i :: 0 <= i < |reqs| ==> RequestValid(trips, sold, reqs[i])
    ensures r.Success? ==> |r.value| == |reqs|
    ensures r.Success? ==> forall i :: 0 <= i < |reqs| ==>
              (reqs[i].trip in trips && r.value[i] == TicketData(reqs[i].railcar, reqs[i].seat, trips[reqs[i].trip]))
    ensures r.Failure? ==> r.error.InvalidTicket? && offset <= r.error.index < offset + |reqs|
    ensures r.Failure? ==> !RequestValid(trips, sold, reqs[r.error.index - offset])
    ensures r.Failure? ==> r.error.error == ValidateRequest(trips, sold, reqs[r.error.index - offset]).error
    ensures r.Failure? ==> forall i :: 0 <= i < r.error.index - offset ==> RequestValid(trips, sold, reqs[i])
    decreases |reqs|
  {
    if reqs == [] then Success([])
    else
      match ValidateRequest(trips, sold, reqs[0])
      case Failure(e) => Failure(InvalidTicket(offset, e))
      case Success(data) =>
        match ValidateEach(trips, sold, reqs[1..], offset + 1)
        case Failure(e) => Failure(e)
        case Success(rest) => Success([data] + rest)
  }

  /** `OrderSerializer` validation: the ticket list may not be empty (`allow_empty=False`). */
  function ValidateOrder(trips: map<nat, Trip>, sold: seq<Ticket>, reqs: seq<TicketRequest>): (r: Result<seq<TicketData>, OrderError>)
    ensures reqs == [] ==> r == Failure(EmptyTicketList)
    ensures r.Success? <==> reqs != [] && forall i :: 0 <= i < |reqs| ==> RequestValid(trips, sold, reqs[i])
    ensures r.Success? ==> |r.value| == |reqs|
    ensures r.Failure? && reqs != [] ==> r.error.InvalidTicket?
  {
    if reqs == [] then Failure(EmptyTicketList) else ValidateEach(trips, sold, reqs, 0)
  }

  // ------------------------------------------------------------ persistence

  /** The ticket rows `create` writes for validated data, with consecutive ids from `firstId`. */
  function NewTickets(firstId: nat, orderId: nat, data: seq<TicketData>): (ts: seq<Ticket>)
    ensures |ts| == |data|
    ensures forall i :: 0 <= i < |data| ==>
              ts[i].railcar == data[i].railcar && ts[i].seat == data[i].seat && ts[i].trip == data[i].trip &&
              ts[i].order == orderId && ts[i].id == firstId + i
    decreases |data|
  {
    if data == [] then []
    else [Ticket(firstId, data[0].railcar, data[0].seat, data[0].trip, orderId)] + NewTickets(firstId + 1, orderId, data[1..])
  }

  /** Every row's seat exists on its train, none is already sold, and no two rows name the same seat. */
  predicate SeatsAvailable(stored: seq<Ticket>, rows: seq<Ticket>) {
    && (forall i :: 0 <= i < |rows| ==>
          SeatExists(rows[i].trip.train, rows[i].railcar, rows[i].seat) && !SeatSold(stored, rows[i].railcar, rows[i].seat))
    && (forall i, j :: 0 <= i < j < |rows| ==>
          !(rows[i].railcar == rows[j].railcar && rows[i].seat == rows[j].seat))
  }

  /**
   * The loop of `OrderSerializer.create`: one `Ticket.save` per row, each
   * against the rows stored so far; the first rejected save stops the loop.
   */
  function SaveTickets(stored: seq<Ticket>, rows: seq<Ticket>, offset: nat): (r: Result<seq<Ticket>, OrderError>)
    ensures r.Success? ==> r.value == stored + rows
    ensures r.Failure? ==> r.error.TicketRejected? && offset <= r.error.index < offset + |rows| && r.error.errors != []
    decreases |rows|
  {
    if rows == [] then Success(stored)
    else
      match TicketSave(stored, rows[0])
      case Failure(errs) => Failure(TicketRejected(offset, errs))
      case Success(next) =>
        assert next + rows[1..] == stored + rows by {
          assert rows == [rows[0]] + rows[1..];
        }
        SaveTickets(next, rows[1..], offset + 1)
  }

  /**
   * The loop stops at the first row `Ticket.save` refuses: every row before
   * it was saved, and the reported errors are that row's `full_clean` errors
   * against the rows stored before it.
   */
  lemma {:induction false} SaveTicketsReportsFirst(stored: seq<Ticket>, rows: seq<Ticket>, offset: nat)
    requires SaveTickets(stored, rows, offset).Failure?
    ensures var e := SaveTickets(stored, rows, offset).error;
            var k := e.index - offset;
            && 0 <= k < |rows|
            && SaveTickets(stored, rows[..k], offset).Success?
            && TicketSave(stored + rows[..k], rows[k]).Failure?
            && e.errors == TicketFullClean(stored + rows[..k], rows[k])
    decreases |rows|
  {
    var e := SaveTickets(stored, rows, offset).error;
    if TicketSave(stored, rows[0]).Failure? {
      assert e.index == offset;
      assert stored + rows[..0] == stored;
    } else {
      var next := TicketSave(stored, rows[0]).value;
      var rest := rows[1..];
      assert SaveTickets(stored, rows, offset) == SaveTickets(next, rest, offset + 1);
      SaveTicketsReportsFirst(next, rest, offset + 1);
      var j := e.index - offset - 1;
      assert rows[..j + 1][1..] == rest[..j];
      assert SaveTickets(stored, rows[..j + 1], offset) == SaveTickets(next, rest[..j], offset + 1);
      assert stored + rows[..j + 1] == next + rest[..j];
      assert rows[j + 1] == rest[j];
    }
  }

  /** `OrderSerializer.create` under `transaction.atomic()`, after validation succeeded. */
  function CreateAtomically(s: Store, user: UserId, data: seq<TicketData>, now: int): (p: Outcome)
    ensures p.response.Failure? ==> p.store == s && p.response.error.TicketRejected?
    ensures p.response.Success? ==>
              p.response.value == Order(s.nextOrderId, now, user) &&
              p.store == s.(orders := s.orders + [p.response.value], nextOrderId := s.nextOrderId + 1,
                            tickets := s.tickets + NewTickets(s.nextTicketId, s.nextOrderId, data),
                            nextTicketId := s.nextTicketId + |data|)
  {
    var order := Order(s.nextOrderId, now, user);
    var working := s.(orders := s.orders + [order], nextOrderId := s.nextOrderId + 1);
    var rows := NewTickets(s.nextTicketId, order.id, data);
    match SaveTickets(working.tickets, rows, 0)
    case Failure(e) => Outcome(s, Failure(e))
    case Success(committed) =>
      Outcome(working.(tickets := committed, nextTicketId := s.nextTicketId + |data|), Success(order))
  }

  /** The new ticket row carries the order and the submitted trip, railcar and seat. */
  predicate TicketFromRequest(t: Ticket, o: Order, trips: map<nat, Trip>, req: TicketRequest) {
    req.trip in trips && t.trip == trips[req.trip] && t.railcar == req.railcar && t.seat == req.seat && t.order == o.id
  }

  /**
   * `s2` is `s` plus exactly one order `o` stamped with `user` and `now`
   * and one ticket per request, in submission order; nothing stored before changes.
   */
  predicate OrderAdded(s: Store, s2: Store, o: Order, user: UserId, now: int, reqs: seq<TicketRequest>) {
    && o.user == user && o.createdAt == now && o.id == s.nextOrderId
    && s2.trips == s.trips
    && s2.orders == s.orders + [o]
    && s2.nextOrderId == s.nextOrderId + 1
    && |s2.tickets| == |s.tickets| + |reqs|
    && s2.tickets[..|s.tickets|] == s.tickets
    && s2.nextTicketId == s.nextTicketId + |reqs|
    && forall i :: 0 <= i < |reqs| ==>
         TicketFromRequest(s2.tickets[|s.tickets| + i], o, s.trips, reqs[i]) &&
         s2.tickets[|s.tickets| + i].id == s.nextTicketId + i
  }

  /** Places an order of `user` at time `now`: validation, then the atomic write. */
  function PlaceOrder(s: Store, user: UserId, reqs: seq<TicketRequest>, now: int): (p: Outcome)
    ensures p.response.Failure? ==> p.store == s
    ensures reqs == [] ==> p.response == Failure(EmptyTicketList)
    ensures p.response.Success? ==> OrderAdded(s, p.store, p.response.value, user, now, reqs)
  {
    match ValidateOrder(s.trips, s.tickets, reqs)
    case Failure(e) => Outcome(s, Failure(e))
    case Success(data) =>
      assert forall i :: 0 <= i < |reqs| ==>
        (reqs[i].trip in s.trips && data[i] == TicketData(reqs[i].railcar, reqs[i].seat, s.trips[reqs[i].trip]));
      CreateAtomically(s, user, data, now)
  }

  // ------------------------------------------------------------ properties

  lemma SeatSoldAppend(stored: seq<Ticket>, t: Ticket, railcar: int, seat: int)
    ensures SeatSold(stored + [t], railcar, seat) <==>
              SeatSold(stored, railcar, seat) || (t.railcar == railcar && t.seat == seat)
  {
    var after := stored + [t];
    if SeatSold(stored, railcar, seat) {
      var k :| 0 <= k < |stored| && stored[k].railcar == railcar && stored[k].seat == seat;
      assert after[k] == stored[k];
    }
    if t.railcar == railcar && t.seat == seat {
      assert after[|stored|] == t;
    }
    if SeatSold(after, railcar, seat) {
      var k :| 0 <= k < |after| && after[k].railcar == railcar && after[k].seat == seat;
      if k < |stored| {
        assert stored[k] == after[k];
      }
    }
  }

  /** Saving the first row moves it from the pending rows into the stored rows. */
  lemma SeatsAvailableStep(stored: seq<Ticket>, rows: seq<Ticket>)
    requires rows != []
    ensures SeatsAvailable(stored, rows) <==>
              SeatExists(rows[0].trip.train, rows[0].railcar, rows[0].seat) && !SeatSold(stored, rows[0].railcar, rows[0].seat) &&
              SeatsAvailable(stored + [rows[0]], rows[1..])
  {
    var rest := rows[1..];
    forall i | 0 <= i < |rest|
      ensures SeatSold(stored + [rows[0]], rest[i].railcar, rest[i].seat) <==>
                SeatSold(stored, rest[i].railcar, rest[i].seat) ||
                (rows[0].railcar == rows[i + 1].railcar && rows[0].seat == rows[i + 1].seat)
    {
      SeatSoldAppend(stored, rows[0], rest[i].railcar, rest[i].seat);
    }
    if SeatExists(rows[0].trip.train, rows[0].railcar, rows[0].seat) && !SeatSold(stored, rows[0].railcar, rows[0].seat) &&
       SeatsAvailable(stored + [rows[0]], rest) {
      forall i, j | 0 <= i < j < |rows|
        ensures !(rows[i].railcar == rows[j].railcar && rows[i].seat == rows[j].seat)
      {
        if i > 0 {
          assert rows[i] == rest[i - 1] && rows[j] == rest[j - 1];
        } else {
          assert rows[j] == rest[j - 1];
        }
      }
      forall i | 0 <= i < |rows|
        ensures SeatExists(rows[i].trip.train, rows[i].railcar, rows[i].seat) && !SeatSold(stored, rows[i].railcar, rows[i].seat)
      {
        if i > 0 {
          assert rows[i] == rest[i - 1];
        }
      }
    }
  }

  /** The ticket loop completes exactly when every row's seat is available. */
  lemma {:induction false} SaveTicketsSucceedsIff(stored: seq<Ticket>, rows: seq<Ticket>, offset: nat)
    ensures SaveTickets(stored, rows, offset).Success? <==> SeatsAvailable(stored, rows)
    decreases |rows|
  {
    if rows != [] {
      SeatsAvailableStep(stored, rows);
      if TicketSave(stored, rows[0]).Success? {
        SaveTicketsSucceedsIff(stored + [rows[0]], rows[1..], offset + 1);
      }
    }
  }

  /**
   * What a request must satisfy to be placed: a non-empty list whose every
   * entry names a stored trip and an existing seat that no stored ticket of
   * any trip holds, with no (railcar, seat) pair requested twice.
   */
  predicate OrderAcceptable(s: Store, reqs: seq<TicketRequest>) {
    && |reqs| > 0
    && (forall i :: 0 <= i < |reqs| ==>
          RequestValid(s.trips, s.tickets, reqs[i]))
    && (forall i, j :: 0 <= i < j < |reqs| ==>
          !(reqs[i].railcar == reqs[j].railcar && reqs[i].seat == reqs[j].seat))
  }

  /** `data` is what validation made of `reqs`: the same seats, with each trip resolved. */
  predicate Resolved(trips: map<nat, Trip>, reqs: seq<TicketRequest>, data: seq<TicketData>) {
    && |data| == |reqs|
    && forall i :: 0 <= i < |reqs| ==>
         (reqs[i].trip in trips && data[i] == TicketData(reqs[i].railcar, reqs[i].seat, trips[reqs[i].trip]))
  }

  lemma ResolvedSeatsAvailable(s: Store, reqs: seq<TicketRequest>, data: seq<TicketData>, firstId: nat, orderId: nat)
    requires Resolved(s.trips, reqs, data)
    requires reqs != []
    ensures SeatsAvailable(s.tickets, NewTickets(firstId, orderId, data)) <==> OrderAcceptable(s, reqs)
  {
    var rows := NewTickets(firstId, orderId, data);
    assert forall i :: 0 <= i < |reqs| ==>
      rows[i].railcar == reqs[i].railcar && rows[i].seat == reqs[i].seat && rows[i].trip == s.trips[reqs[i].trip];
  }

  /** The store-level outcome of a placement is the outcome of its ticket loop. */
  lemma PlaceOrderUnfold(s: Store, user: UserId, reqs: seq<TicketRequest>, now: int)
    requires ValidateOrder(s.trips, s.tickets, reqs).Success?
    ensures Resolved(s.trips, reqs, ValidateOrder(s.trips, s.tickets, reqs).value)
    ensures PlaceOrder(s, user, reqs, now).response.Success? <==>
              SaveTickets(s.tickets, NewTickets(s.nextTicketId, s.nextOrderId, ValidateOrder(s.trips, s.tickets, reqs).value), 0).Success?
  {
  }

  /** An order is placed if and only if it is acceptable; otherwise the store is left as it was. */
  lemma PlaceOrderSucceedsIff(s: Store, user: UserId, reqs: seq<TicketRequest>, now: int)
    ensures PlaceOrder(s, user, reqs, now).response.Success? <==> OrderAcceptable(s, reqs)
    ensures !OrderAcceptable(s, reqs) ==> PlaceOrder(s, user, reqs, now).store == s
  {
    var v := ValidateOrder(s.trips, s.tickets, reqs);
    if v.Success? {
      PlaceOrderUnfold(s, user, reqs, now);
      SaveTicketsSucceedsIff(s.tickets, NewTickets(s.nextTicketId, s.nextOrderId, v.value), 0);
      ResolvedSeatsAvailable(s, reqs, v.value, s.nextTicketId, s.nextOrderId);
    }
  }

  /** A request that asks for the same (railcar, seat) twice places nothing. */
  lemma DuplicateSeatInRequestRejected(s: Store, user: UserId, reqs: seq<TicketRequest>, now: int, i: nat, j: nat)
    requires i < j < |reqs|
    requires reqs[i].railcar == reqs[j].railcar && reqs[i].seat == reqs[j].seat
    ensures PlaceOrder(s, user, reqs, now).response.Failure?
    ensures PlaceOrder(s, user, reqs, now).store == s
  {
    PlaceOrderSucceedsIff(s, user, reqs, now);
  }

  /**
   * A request for a (railcar, seat) pair any stored ticket holds places
   * nothing, even when that ticket belongs to a different trip, and even
   * when every other entry of the request is fine. It is a validation
   * answer, and for a first entry with well-formed fields it is the
   * unique-together error, whatever the range checks would have said.
   */
  lemma SoldSeatRejected(s: Store, user: UserId, reqs: seq<TicketRequest>, now: int, i: nat, sold: Ticket)
    requires i < |reqs| && sold in s.tickets
    requires reqs[i].railcar == sold.railcar && reqs[i].seat == sold.seat
    ensures PlaceOrder(s, user, reqs, now).response.Failure?
    ensures PlaceOrder(s, user, reqs, now).response.error.InvalidTicket?
    ensures PlaceOrder(s, user, reqs, now).store == s
    ensures i == 0 && reqs[0].trip in s.trips && reqs[0].railcar >= 1 && reqs[0].seat >= 1 ==>
              PlaceOrder(s, user, reqs, now).response == Failure(InvalidTicket(0, PairNotUnique))
  {
    var k :| 0 <= k < |s.tickets| && s.tickets[k] == sold;
    assert SeatSold(s.tickets, reqs[i].railcar, reqs[i].seat);
    assert !RequestValid(s.trips, s.tickets, reqs[i]);
  }

  /**
   * `Ticket.save` inside `create` refuses a row only when the request names
   * the same (railcar, seat) twice: everything else was already refused by
   * validation.
   */
  lemma RejectedSaveMeansRepeatedPair(s: Store, user: UserId, reqs: seq<TicketRequest>, now: int)
    requires PlaceOrder(s, user, reqs, now).response.Failure?
    requires PlaceOrder(s, user, reqs, now).response.error.TicketRejected?
    ensures exists i, j :: 0 <= i < j < |reqs| && reqs[i].railcar == reqs[j].railcar && reqs[i].seat == reqs[j].seat
  {
    assert ValidateOrder(s.trips, s.tickets, reqs).Success?;
    PlaceOrderSucceedsIff(s, user, reqs, now);
    assert !OrderAcceptable(s, reqs);
  }

  /** One entry outside its trip's train rejects the whole order, including its valid entries. */
  lemma OutOfRangeEntryRejected(s: Store, user: UserId, reqs: seq<TicketRequest>, now: int, i: nat)
    requires i < |reqs| && !RequestValid(s.trips, s.tickets, reqs[i])
    ensures PlaceOrder(s, user, reqs, now).response.Failure?
    ensures PlaceOrder(s, user, reqs, now).store == s
  {
    PlaceOrderSucceedsIff(s, user, reqs, now);
  }

  // --------------------------------------------------------- store invariant

  predicate OrderExists(orders: seq<Order>, id: nat) {
    exists k :: 0 <= k < |orders| && orders[k].id == id
  }

  /**
   * The consistency every placement keeps: primary keys below their
   * counters and distinct, tickets pointing at stored orders, every ticket's
   * seat existing on its trip's train, and no (railcar, seat) pair sold twice.
   */
  predicate StoreValid(s: Store) {
    && (forall k :: 0 <= k < |s.orders| ==> s.orders[k].id < s.nextOrderId)
    && (forall i, j :: 0 <= i < j < |s.orders| ==> s.orders[i].id != s.orders[j].id)
    && (forall k :: 0 <= k < |s.tickets| ==> s.tickets[k].id < s.nextTicketId)
    && (forall i, j :: 0 <= i < j < |s.tickets| ==> s.tickets[i].id != s.tickets[j].id)
    && (forall k :: 0 <= k < |s.tickets| ==> OrderExists(s.orders, s.tickets[k].order))
    && (forall k :: 0 <= k < |s.tickets| ==>
          SeatExists(s.tickets[k].trip.train, s.tickets[k].railcar, s.tickets[k].seat))
    && SeatPairsUnique(s.tickets)
  }

  /** The empty database is consistent. */
  lemma EmptyStoreValid(trips: map<nat, Trip>)
    ensures StoreValid(Store(trips, [], [], 0, 0))
  {
  }

  lemma AddedKeysFresh(s: Store, s2: Store, o: Order, user: UserId, now: int, reqs: seq<TicketRequest>)
    requires StoreValid(s) && OrderAdded(s, s2, o, user, now, reqs)
    ensures forall k :: 0 <= k < |s2.orders| ==> s2.orders[k].id < s2.nextOrderId
    ensures forall i, j :: 0 <= i < j < |s2.orders| ==> s2.orders[i].id != s2.orders[j].id
    ensures forall k :: 0 <= k < |s2.tickets| ==> s2.tickets[k].id < s2.nextTicketId
    ensures forall i, j :: 0 <= i < j < |s2.tickets| ==> s2.tickets[i].id != s2.tickets[j].id
  {
    var n := |s.tickets|;
    assert forall k :: 0 <= k < n ==> s2.tickets[k] == s.tickets[k];
    forall k | 0 <= k < |s2.tickets|
      ensures s2.tickets[k].id < s2.nextTicketId
      ensures k < n ==> s2.tickets[k].id < s.nextTicketId
      ensures k >= n ==> s2.tickets[k].id == s.nextTicketId + (k - n)
    {
      if k >= n {
        assert TicketFromRequest(s2.tickets[n + (k - n)], o, s.trips, reqs[k - n]);
      }
    }
  }

  lemma AddedTicketsReferToOrders(s: Store, s2: Store, o: Order, user: UserId, now: int, reqs: seq<TicketRequest>)
    requires StoreValid(s) && OrderAdded(s, s2, o, user, now, reqs)
    ensures forall k :: 0 <= k < |s2.tickets| ==> OrderExists(s2.orders, s2.tickets[k].order)
  {
    var n := |s.tickets|;
    assert s2.orders[|s.orders|] == o;
    forall k | 0 <= k < |s2.tickets|
      ensures OrderExists(s2.orders, s2.tickets[k].order)
    {
      if k < n {
        assert s2.tickets[k] == s.tickets[k];
        var m :| 0 <= m < |s.orders| && s.orders[m].id == s.tickets[k].order;
        assert s2.orders[m] == s.orders[m];
      } else {
        assert TicketFromRequest(s2.tickets[n + (k - n)], o, s.trips, reqs[k - n]);
      }
    }
  }

  lemma AddedSeatsValid(s: Store, s2: Store, o: Order, user: UserId, now: int, reqs: seq<TicketRequest>)
    requires StoreValid(s) && OrderAcceptable(s, reqs) && OrderAdded(s, s2, o, user, now, reqs)
    ensures forall k :: 0 <= k < |s2.tickets| ==>
              SeatExists(s2.tickets[k].trip.train, s2.tickets[k].railcar, s2.tickets[k].seat)
    ensures SeatPairsUnique(s2.tickets)
  {
    var n := |s.tickets|;
    forall k | 0 <= k < |s2.tickets|
      ensures SeatExists(s2.tickets[k].trip.train, s2.tickets[k].railcar, s2.tickets[k].seat)
    {
      if k < n {
        assert s2.tickets[k] == s.tickets[k];
      } else {
        assert TicketFromRequest(s2.tickets[n + (k - n)], o, s.trips, reqs[k - n]);
      }
    }
    AddedPairsUnique(s, s2, o, reqs);
  }

  /** The new rows take pairs no stored row holds and no other new row takes. */
  lemma AddedPairsUnique(s: Store, s2: Store, o: Order, reqs: seq<TicketRequest>)
    requires SeatPairsUnique(s.tickets)
    requires forall m :: 0 <= m < |reqs| ==> !SeatSold(s.tickets, reqs[m].railcar, reqs[m].seat)
    requires forall i, j :: 0 <= i < j < |reqs| ==> !(reqs[i].railcar == reqs[j].railcar && reqs[i].seat == reqs[j].seat)
    requires |s2.tickets| == |s.tickets| + |reqs| && s2.tickets[..|s.tickets|] == s.tickets
    requires forall i :: 0 <= i < |reqs| ==> TicketFromRequest(s2.tickets[|s.tickets| + i], o, s.trips, reqs[i])
    ensures SeatPairsUnique(s2.tickets)
  {
    var n := |s.tickets|;
    forall i, j | 0 <= i < j < |s2.tickets|
      ensures !(s2.tickets[i].railcar == s2.tickets[j].railcar && s2.tickets[i].seat == s2.tickets[j].seat)
    {
      if j >= n {
        var req := reqs[j - n];
        assert TicketFromRequest(s2.tickets[n + (j - n)], o, s.trips, req);
        if i < n {
          assert s2.tickets[i] == s.tickets[i];
          assert !SeatSold(s.tickets, req.railcar, req.seat);
        } else {
          assert TicketFromRequest(s2.tickets[n + (i - n)], o, s.trips, reqs[i - n]);
        }
      } else {
        assert s2.tickets[i] == s.tickets[i] && s2.tickets[j] == s.tickets[j];
      }
    }
  }

  /** Placing an order, successful or not, keeps the store consistent. */
  lemma PlaceOrderKeepsStoreValid(s: Store, user: UserId, reqs: seq<TicketRequest>, now: int)
    requires StoreValid(s)
    ensures StoreValid(PlaceOrder(s, user, reqs, now).store)
  {
    var p := PlaceOrder(s, user, reqs, now);
    if p.response.Success? {
      PlaceOrderSucceedsIff(s, user, reqs, now);
      AddedKeysFresh(s, p.store, p.response.value, user, now, reqs);
      AddedTicketsReferToOrders(s, p.store, p.response.value, user, now, reqs);
      AddedSeatsValid(s, p.store, p.response.value, user, now, reqs);
    }
  }

  // ------------------------------------------------------------ occupancy

  /** The stored tickets sold for `trip`, in storage order. */
  function TicketsOn(tickets: seq<Ticket>, trip: Trip): (r: seq<Ticket>)
    ensures forall t :: t in r <==> t in tickets && t.trip == trip
  {
    Filter(tickets, (t: Ticket) => t.trip == trip)
  }

  /** The (railcar, seat) positions taken on `trip`. */
  function PositionsTakenOn(tickets: seq<Ticket>, trip: Trip): (r: set<(int, int)>)
    ensures forall p :: p in r ==>
              exists k :: 0 <= k < |tickets| && tickets[k].trip == trip && p == (tickets[k].railcar, tickets[k].seat)
    decreases |tickets|
  {
    if tickets == [] then {}
    else
      var rest := PositionsTakenOn(tickets[1..], trip);
      assert forall p :: p in rest ==>
        exists k :: 1 <= k < |tickets| && tickets[k].trip == trip && p == (tickets[k].railcar, tickets[k].seat) by {
        forall p | p in rest
          ensures exists k :: 1 <= k < |tickets| && tickets[k].trip == trip && p == (tickets[k].railcar, tickets[k].seat)
        {
          var k :| 0 <= k < |tickets[1..]| && tickets[1..][k].trip == trip && p == (tickets[1..][k].railcar, tickets[1..][k].seat);
          assert tickets[k + 1] == tickets[1..][k];
        }
      }
      (if tickets[0].trip == trip then {(tickets[0].railcar, tickets[0].seat)} else {}) + rest
  }

  /** With unique seat pairs, each ticket of a trip takes a position of its own. */
  lemma {:induction false} TicketsOnCountPositions(tickets: seq<Ticket>, trip: Trip)
    requires SeatPairsUnique(tickets)
    ensures |TicketsOn(tickets, trip)| == |PositionsTakenOn(tickets, trip)|
    decreases |tickets|
  {
    if tickets != [] {
      var rest := tickets[1..];
      assert SeatPairsUnique(rest) by {
        forall i, j | 0 <= i < j < |rest|
          ensures !(rest[i].railcar == rest[j].railcar && rest[i].seat == rest[j].seat)
        {
          assert rest[i] == tickets[i + 1] && rest[j] == tickets[j + 1];
        }
      }
      TicketsOnCountPositions(rest, trip);
      var head := (tickets[0].railcar, tickets[0].seat);
      forall k | 0 <= k < |rest|
        ensures head != (rest[k].railcar, rest[k].seat)
      {
        assert rest[k] == tickets[k + 1];
      }
      assert head !in PositionsTakenOn(rest, trip);
    }
  }

  /**
   * No overbooking: in a consistent store, the tickets of any trip never
   * outnumber the capacity of its train.
   */
  lemma NoOverbooking(s: Store, trip: Trip)
    requires StoreValid(s)
    requires TrainFieldsValid(trip.train)
    ensures |TicketsOn(s.tickets, trip)| <= trip.train.Capacity()
  {
    TicketsOnCountPositions(s.tickets, trip);
    var taken := PositionsTakenOn(s.tickets, trip);
    forall p | p in taken
      ensures SeatExists(trip.train, p.0, p.1)
    {
      var k :| 0 <= k < |s.tickets| && s.tickets[k].trip == trip && p == (s.tickets[k].railcar, s.tickets[k].seat);
    }
    SeatsWithinCapacity(trip.train, taken);
  }
}
