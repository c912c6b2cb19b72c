/**
 * The records of the railway schema and the seat geometry of a train.
 * Foreign keys are held as the referenced record itself, the way the ORM
 * hands them out; primary keys are `nat` ids. Times are integers
 * (microseconds since the epoch); station coordinates are floats in the
 * schema and are not modelled.
 */
module Entities {

  /** The authenticated account that owns an order. */
  type UserId = nat

  datatype Station = Station(id: nat, name: string)

  datatype Route = Route(id: nat, source: Station, destination: Station, distance: int)

  datatype TrainType = TrainType(id: nat, name: string)

  datatype Train = Train(id: nat, name: string, railcarNum: int, seatsInRailcar: int, trainType: TrainType)
  {
    /**
     * Seats the train offers: railcars times seats per railcar. What the
     * number counts is stated by `CapacityCountsSeats`.
     */
    function Capacity(): (c: int)
      ensures railcarNum >= 1 && seatsInRailcar >= 1 ==> c >= railcarNum && c >= seatsInRailcar
    {
      railcarNum * seatsInRailcar
    }
  }

  datatype Crew = Crew(id: nat, firstName: string, lastName: string)

  datatype Trip = Trip(id: nat, crew: set<Crew>, route: Route, train: Train, departure: int, arrival: int)

  datatype Order = Order(id: nat, createdAt: int, user: UserId)

  /** A sold seat: railcar and seat number on one trip, bought within one order (held by id). */
  datatype Ticket = Ticket(id: nat, railcar: int, seat: int, trip: Trip, order: nat)

  /** The minimum-value validators on `railcar_num` and `seats_in_railcar`. */
  predicate TrainFieldsValid(t: Train) {
    t.railcarNum >= 1 && t.seatsInRailcar >= 1
  }

  /** Railcar and seat numbers both lie inside the train: the condition the ticket checks test. */
  predicate SeatExists(t: Train, railcar: int, seat: int) {
    1 <= railcar <= t.railcarNum && 1 <= seat <= t.seatsInRailcar
  }

  /** Capacity of a train whose fields passed validation is positive and bounds each factor. */
  lemma CapacityPositive(t: Train)
    requires TrainFieldsValid(t)
    ensures t.Capacity() >= 1
    ensures t.Capacity() >= t.railcarNum && t.Capacity() >= t.seatsInRailcar
  {
    assert t.railcarNum * t.seatsInRailcar >= t.railcarNum * 1;
    assert t.railcarNum * t.seatsInRailcar >= 1 * t.seatsInRailcar;
  }

  /** Seat positions of railcar `car`, numbered 1..seats. */
  function RailcarSeats(car: int, seats: int): (r: set<(int, int)>)
    ensures forall p :: p in r <==> p.0 == car && 1 <= p.1 <= seats
  {
    set s | 1 <= s <= seats :: (car, s)
  }

  /** Seat positions in railcars 1..cars, each with seats 1..seats. */
  function SeatGridUpTo(cars: int, seats: int): (r: set<(int, int)>)
    ensures forall p :: p in r <==> 1 <= p.0 <= cars && 1 <= p.1 <= seats
    decreases cars
  {
    if cars < 1 then {} else SeatGridUpTo(cars - 1, seats) + RailcarSeats(cars, seats)
  }

  /** Every (railcar, seat) position a ticket for this train may name. */
  function SeatGrid(t: Train): (r: set<(int, int)>)
    ensures forall p :: p in r <==> SeatExists(t, p.0, p.1)
  {
    SeatGridUpTo(t.railcarNum, t.seatsInRailcar)
  }

  lemma {:induction false} RailcarSeatsSize(car: int, seats: nat)
    ensures |RailcarSeats(car, seats)| == seats
    decreases seats
  {
    if seats > 0 {
      RailcarSeatsSize(car, seats - 1);
      assert RailcarSeats(car, seats) == RailcarSeats(car, seats - 1) + {(car, seats)};
    } else {
      assert RailcarSeats(car, seats) == {};
    }
  }

  lemma {:induction false} SeatGridUpToSize(cars: nat, seats: nat)
    ensures |SeatGridUpTo(cars, seats)| == cars * seats
    decreases cars
  {
    if cars > 0 {
      SeatGridUpToSize(cars - 1, seats);
      RailcarSeatsSize(cars, seats);
      assert SeatGridUpTo(cars - 1, seats) !! RailcarSeats(cars, seats);
      assert cars * seats == (cars - 1) * seats + seats;
    }
  }

  /** A valid train offers exactly `capacity` distinct seat positions. */
  lemma CapacityCountsSeats(t: Train)
    requires TrainFieldsValid(t)
    ensures |SeatGrid(t)| == t.Capacity()
  {
    SeatGridUpToSize(t.railcarNum, t.seatsInRailcar);
  }

  /** A subset is no larger than its superset. */
  lemma SubsetSize<T>(a: set<T>, b: set<T>)
    requires a <= b
    ensures |a| <= |b|
  {
    assert b == a + (b - a);
    assert a !! (b - a);
  }

  /** The positions of a train's tickets never outnumber its capacity. */
  lemma SeatsWithinCapacity(t: Train, taken: set<(int, int)>)
    requires TrainFieldsValid(t)
    requires forall p :: p in taken ==> SeatExists(t, p.0, p.1)
    ensures |taken| <= t.Capacity()
  {
    SubsetSize(taken, SeatGrid(t));
    CapacityCountsSeats(t);
  }
}
