/**
 * The list filters of the viewsets' `get_queryset`. A query parameter is
 * applied only when it is present and non-empty (Python truthiness), and
 * each applied parameter narrows the list with a case-insensitive
 * substring test on one name. Orderings, `distinct()` and eager loading
 * are storage concerns and are not modelled: lists are kept in storage order.
 */
module Queries {
  import opened Base
  import opened Text
  import opened Entities

  /** The records of `xs` that `keep` accepts, in their original order. */
  function Filter<T(!new)>(xs: seq<T>, keep: T -> bool): (r: seq<T>)
    ensures |r| <= |xs|
    ensures forall x :: x in r <==> x in xs && keep(x)
    ensures multiset(r) <= multiset(xs)
    decreases |xs|
  {
    if xs == [] then []
    else
      assert xs == [xs[0]] + xs[1..];
      (if keep(xs[0]) then [xs[0]] else []) + Filter(xs[1..], keep)
  }

  function Both<T>(p: T -> bool, q: T -> bool): T -> bool {
    x => p(x) && q(x)
  }

  lemma {:induction false} FilterAppend<T(!new)>(xs: seq<T>, ys: seq<T>, keep: T -> bool)
    ensures Filter(xs + ys, keep) == Filter(xs, keep) + Filter(ys, keep)
    decreases |xs|
  {
    if xs != [] {
      assert (xs + ys)[1..] == xs[1..] + ys;
      FilterAppend(xs[1..], ys, keep);
    } else {
      assert xs + ys == ys;
    }
  }

  /** Filtering by a predicate every record satisfies returns the list unchanged. */
  lemma {:induction false} FilterKeepsAll<T(!new)>(xs: seq<T>, keep: T -> bool)
    requires forall x :: x in xs ==> keep(x)
    ensures Filter(xs, keep) == xs
    decreases |xs|
  {
    if xs != [] {
      FilterKeepsAll(xs[1..], keep);
    }
  }

  /** Two predicates that agree on every record filter identically. */
  lemma {:induction false} FilterAgreeing<T(!new)>(xs: seq<T>, p: T -> bool, q: T -> bool)
    requires forall x :: x in xs ==> p(x) == q(x)
    ensures Filter(xs, p) == Filter(xs, q)
    decreases |xs|
  {
    if xs != [] {
      FilterAgreeing(xs[1..], p, q);
    }
  }

  /** Filtering twice is filtering once by the conjunction. */
  lemma {:induction false} FilterTwice<T(!new)>(xs: seq<T>, p: T -> bool, q: T -> bool)
    ensures Filter(Filter(xs, p), q) == Filter(xs, Both(p, q))
    decreases |xs|
  {
    if xs != [] {
      FilterTwice(xs[1..], p, q);
      var head := if p(xs[0]) then [xs[0]] else [];
      FilterAppend(head, Filter(xs[1..], p), q);
    }
  }

  /** A query parameter takes effect only when present and non-empty. */
  predicate Given(q: Option<string>) {
    q.Some? && q.value != ""
  }

  /** Records whose `field` contains `q`, ignoring case: the `<field>__icontains=q` lookup. */
  function Matching<T>(field: T -> string, q: string): T -> bool {
    x => IContains(field(x), q)
  }

  /** `if q: queryset = queryset.filter(<field>__icontains=q)`. */
  function FilterBy<T(!new)>(xs: seq<T>, field: T -> string, q: Option<string>): (r: seq<T>)
    ensures forall x :: x in r <==> x in xs && (Given(q) ==> IContains(field(x), q.value))
    ensures multiset(r) <= multiset(xs)
    ensures !Given(q) ==> r == xs
  {
    if Given(q) then Filter(xs, Matching(field, q.value)) else xs
  }

  /** Skipping an empty parameter changes nothing: an empty query would have kept every record anyway. */
  lemma EmptyQueryKeepsAll<T(!new)>(xs: seq<T>, field: T -> string)
    ensures Filter(xs, Matching(field, "")) == xs
  {
    forall x | x in xs
      ensures Matching(field, "")(x)
    {
      EmptyQueryMatchesAll(field(x));
    }
    FilterKeepsAll(xs, Matching(field, ""));
  }

  function StationName(x: Station): string { x.name }
  function SourceName(x: Route): string { x.source.name }
  function DestinationName(x: Route): string { x.destination.name }
  function TrainTypeName(x: TrainType): string { x.name }
  function TypeNameOfTrain(x: Train): string { x.trainType.name }
  function FirstName(x: Crew): string { x.firstName }
  function LastName(x: Crew): string { x.lastName }

  /** `StationViewSet.get_queryset`: the `name` filter. */
  function StationQuery(stations: seq<Station>, name: Option<string>): (r: seq<Station>)
    ensures forall x :: x in r <==> x in stations && (Given(name) ==> IContains(x.name, name.value))
    ensures multiset(r) <= multiset(stations)
    ensures !Given(name) ==> r == stations
  {
    FilterBy(stations, StationName, name)
  }

  /** `RouteViewSet.get_queryset`: `source` then `destination`, each narrowing the previous result. */
  function RouteQuery(routes: seq<Route>, source: Option<string>, destination: Option<string>): (r: seq<Route>)
    ensures forall x :: x in r <==>
              x in routes &&
              (Given(source) ==> IContains(x.source.name, source.value)) &&
              (Given(destination) ==> IContains(x.destination.name, destination.value))
    ensures multiset(r) <= multiset(routes)
    ensures !Given(source) && !Given(destination) ==> r == routes
  {
    FilterBy(FilterBy(routes, SourceName, source), DestinationName, destination)
  }

  /** `TrainTypeViewSet.get_queryset`: the `name` filter. */
  function TrainTypeQuery(types: seq<TrainType>, name: Option<string>): (r: seq<TrainType>)
    ensures forall x :: x in r <==> x in types && (Given(name) ==> IContains(x.name, name.value))
    ensures multiset(r) <= multiset(types)
    ensures !Given(name) ==> r == types
  {
    FilterBy(types, TrainTypeName, name)
  }

  /** `TrainViewSet.get_queryset`: the `train_type` filter, on the name of the train's type. */
  function TrainQuery(trains: seq<Train>, trainType: Option<string>): (r: seq<Train>)
    ensures forall x :: x in r <==> x in trains && (Given(trainType) ==> IContains(x.trainType.name, trainType.value))
    ensures multiset(r) <= multiset(trains)
    ensures !Given(trainType) ==> r == trains
  {
    FilterBy(trains, TypeNameOfTrain, trainType)
  }

  /** `CrewViewSet.get_queryset`: `first_name` then `last_name`. */
  function CrewQuery(crews: seq<Crew>, firstName: Option<string>, lastName: Option<string>): (r: seq<Crew>)
    ensures forall x :: x in r <==>
              x in crews &&
              (Given(firstName) ==> IContains(x.firstName, firstName.value)) &&
              (Given(lastName) ==> IContains(x.lastName, lastName.value))
    ensures multiset(r) <= multiset(crews)
    ensures !Given(firstName) && !Given(lastName) ==> r == crews
  {
    FilterBy(FilterBy(crews, FirstName, firstName), LastName, lastName)
  }

  /** Trips whose route starts or ends at a station whose name contains `q`, ignoring case. */
  function OnRoute(q: string): Trip -> bool {
    (t: Trip) => IContains(t.route.source.name, q) || IContains(t.route.destination.name, q)
  }

  /** `TripViewSet.get_queryset`, the `route` filter: one query matched against either end of the route. */
  function TripQuery(trips: seq<Trip>, route: Option<string>): (r: seq<Trip>)
    ensures forall x :: x in r <==>
              x in trips &&
              (Given(route) ==> IContains(x.route.source.name, route.value) || IContains(x.route.destination.name, route.value))
    ensures multiset(r) <= multiset(trips)
    ensures !Given(route) ==> r == trips
  {
    if Given(route) then Filter(trips, OnRoute(route.value)) else trips
  }

  /** The two route filters form a conjunction whichever is applied first. */
  lemma RouteFiltersCommute(routes: seq<Route>, source: string, destination: string)
    requires source != "" && destination != ""
    ensures RouteQuery(routes, Some(source), Some(destination))
         == Filter(routes, Both(Matching(SourceName, source), Matching(DestinationName, destination)))
    ensures RouteQuery(routes, Some(source), Some(destination))
         == FilterBy(FilterBy(routes, DestinationName, Some(destination)), SourceName, Some(source))
  {
    var p := Matching(SourceName, source);
    var q := Matching(DestinationName, destination);
    FilterTwice(routes, p, q);
    FilterTwice(routes, q, p);
    FilterAgreeing(routes, Both(p, q), Both(q, p));
  }

  /** The trip `route` filter keeps exactly the trips kept by a source-only or a destination-only match. */
  lemma TripRouteFilterIsUnion(trips: seq<Trip>, q: string, t: Trip)
    requires q != ""
    ensures t in TripQuery(trips, Some(q)) <==>
              t in Filter(trips, (x: Trip) => IContains(x.route.source.name, q)) ||
              t in Filter(trips, (x: Trip) => IContains(x.route.destination.name, q))
  {
  }

  /** A trip is found by the full name of either end of its route, in any case. */
  lemma TripFoundByEitherEnd(trips: seq<Trip>, t: Trip)
    requires t in trips
    ensures t in TripQuery(trips, Some(t.route.destination.name))
    ensures t in TripQuery(trips, Some(Upper(t.route.source.name)))
  {
    IContainsItself(t.route.destination.name);
    IContainsItself(t.route.source.name);
  }

  /** "rim" does not occur in "paris": the only 'r' is followed by "is". */
  lemma RimNotInParis()
    ensures !IContains("Paris", "Rim")
  {
    var hay := Lower("Paris");
    var needle := Lower("Rim");
    assert needle[0] == LowerChar('R') == 'r';
    assert needle[2] == LowerChar('m') == 'm';
    assert hay[0] == 'p' && hay[1] == 'a' && hay[2] == 'r' && hay[3] == 'i' && hay[4] == 's';
    forall i | 0 <= i <= |hay|
      ensures !(needle <= hay[i..])
    {
      if i <= 2 {
        if i == 2 {
          assert hay[i..][2] != needle[2];
        } else {
          assert hay[i..][0] != needle[0];
        }
      }
    }
  }

  /**
   * The route-filter scenario of the API tests: with stations "Paris" and
   * "Rim", `source=Paris` keeps the Paris route and drops the Rim route,
   * and `source=Rim` does the opposite.
   */
  lemma SourceFilterScenario(routes: seq<Route>, paris: Route, rim: Route)
    requires paris in routes && rim in routes
    requires paris.source.name == "Paris" && rim.source.name == "Rim"
    ensures paris in RouteQuery(routes, Some("Paris"), None)
    ensures rim !in RouteQuery(routes, Some("Paris"), None)
    ensures rim in RouteQuery(routes, Some("Rim"), None)
    ensures paris !in RouteQuery(routes, Some("Rim"), None)
  {
    IContainsItself("Paris");
    IContainsItself("Rim");
    LongerQueryNeverMatches("Rim", "Paris");
    RimNotInParis();
  }
}
