/**
 * The two reservation workflows: booking a car (`rent_car`) and returning it
 * (`complete_rental`). Each runs as one transaction that either commits all
 * its writes or rolls back to the state it started from. `Rent` and
 * `Complete` state each workflow as a function of the committed tables;
 * `RentalDesk` performs them step by step on tables it updates in place.
 */
module Reservations {
  import opened Calendar
  import opened Inventory

  datatype Option<T> = None | Some(value: T)

  /** The error answers of the two workflows. */
  datatype Error =
    | MissingFields        // a request field is absent
    | InvalidDateFormat    // a date is not a real calendar date
    | InvalidDateRange     // the end date is not after the start date
    | CarNotFound          // no car has the requested id
    | CarUnavailable       // the car's status is not Available
    | InvalidOrCompleted   // no such rental, or it is not Ongoing

  datatype Result<T> = Ok(value: T) | Err(error: Error)

  /** A booking request; an absent JSON field is `None`. The car id is taken as sent, so it may be negative. */
  datatype RentRequest = RentRequest(
    carId: Option<int>,
    customerId: Option<CustomerId>,
    startDate: Option<Date>,
    endDate: Option<Date>)

  /** What a workflow answers and the tables it leaves committed. */
  datatype Step<T> = Step(result: Result<T>, after: Store)

  predicate HasAllFields(req: RentRequest) {
    req.carId.Some? && req.customerId.Some? && req.startDate.Some? && req.endDate.Some?
  }

  /** Every check `rent_car` makes passes: the booking goes through. */
  predicate Bookable(s: Store, req: RentRequest) {
    && HasAllFields(req)
    && ValidDate(req.startDate.value) && ValidDate(req.endDate.value)
    && Before(req.startDate.value, req.endDate.value)
    && req.carId.value in s.cars
    && s.cars[req.carId.value].status == Available
  }

  /**
   * The price of a booking: the daily price times the number of days, so a
   * booking of at least one day costs at least one day's price.
   */
  function Cost(pricePerDay: nat, days: nat): (r: nat)
    ensures days >= 1 ==> pricePerDay <= r
  {
    pricePerDay * days
  }

  /**
   * Booking: validate the request, then, under the car's row lock, reject a
   * missing or non-Available car; otherwise insert an Ongoing rental under
   * the fresh id `id`, costing the car's daily price times the day count,
   * and mark the car Rented. The answer on success is the total cost.
   */
  function Rent(s: Store, req: RentRequest, id: RentalId): (r: Step<nat>)
    ensures r.result.Err? ==> r.after == s
    ensures r.result.Ok? <==> Bookable(s, req)
    ensures r.result.Ok? ==>
      r.result.value == s.cars[req.carId.value].pricePerDay * DaysBetween(req.startDate.value, req.endDate.value)
  {
    if !HasAllFields(req) then Step(Err(MissingFields), s)
    else
      var carId, start, end := req.carId.value, req.startDate.value, req.endDate.value;
      if !ValidDate(start) || !ValidDate(end) then Step(Err(InvalidDateFormat), s)
      else
        var days := DaysBetween(start, end);
        DaysBetweenPositive(start, end);
        if days < 1 then Step(Err(InvalidDateRange), s)
        else if carId !in s.cars then Step(Err(CarNotFound), s)
        else if s.cars[carId].status != Available then Step(Err(CarUnavailable), s)
        else
          var car := s.cars[carId];
          var cost := Cost(car.pricePerDay, days);
          var booked := Rental(req.customerId.value, carId, start, end, cost, Ongoing);
          Step(Ok(cost), Store(s.cars[carId := car.(status := Rented)], s.rentals[id := booked]))
  }

  /**
   * Returning: reject a missing or non-Ongoing rental; otherwise mark it
   * Completed and set the car it references (if that row exists) Available.
   */
  function Complete(s: Store, id: RentalId): (r: Step<()>)
    ensures r.result.Err? ==> r.after == s
    ensures r.result.Ok? <==> id in s.rentals && s.rentals[id].status == Ongoing
  {
    if id !in s.rentals || s.rentals[id].status != Ongoing then Step(Err(InvalidOrCompleted), s)
    else
      var rental := s.rentals[id];
      var c := rental.carId;
      var cars := if c in s.cars then s.cars[c := s.cars[c].(status := Available)] else s.cars;
      Step(Ok(()), Store(cars, s.rentals[id := rental.(status := Completed)]))
  }

  /** The order in which `rent_car` reports the first failed check. */
  lemma RentErrors(s: Store, req: RentRequest, id: RentalId)
    ensures !HasAllFields(req) ==> Rent(s, req, id).result == Err(MissingFields)
    ensures HasAllFields(req) && !(ValidDate(req.startDate.value) && ValidDate(req.endDate.value)) ==>
      Rent(s, req, id).result == Err(InvalidDateFormat)
    ensures HasAllFields(req) && ValidDate(req.startDate.value) && ValidDate(req.endDate.value) ==>
      (!Before(req.startDate.value, req.endDate.value) <==> Rent(s, req, id).result == Err(InvalidDateRange))
    ensures (HasAllFields(req) && ValidDate(req.startDate.value) && ValidDate(req.endDate.value)
             && Before(req.startDate.value, req.endDate.value)) ==>
      && (req.carId.value !in s.cars <==> Rent(s, req, id).result == Err(CarNotFound))
      && (req.carId.value in s.cars && s.cars[req.carId.value].status != Available <==>
            Rent(s, req, id).result == Err(CarUnavailable))
  {
    if HasAllFields(req) && ValidDate(req.startDate.value) && ValidDate(req.endDate.value) {
      DaysBetweenPositive(req.startDate.value, req.endDate.value);
    }
  }

  /**
   * A successful booking adds exactly one rental, under the fresh id, with the
   * request's customer, car and dates, status Ongoing; it marks that car
   * Rented and changes no other row or column.
   */
  lemma RentSucceeds(s: Store, req: RentRequest, id: RentalId)
    requires Bookable(s, req) && id !in s.rentals
    ensures var r := Rent(s, req, id);
      var c := req.carId.value;
      && r.after.rentals.Keys == s.rentals.Keys + {id}
      && r.after.rentals[id] == Rental(req.customerId.value, c, req.startDate.value, req.endDate.value,
                                      r.result.value, Ongoing)
      && (forall k :: k in s.rentals ==> r.after.rentals[k] == s.rentals[k])
      && r.after.cars.Keys == s.cars.Keys
      && r.after.cars[c] == s.cars[c].(status := Rented)
      && (forall k :: k in s.cars && k != c ==> r.after.cars[k] == s.cars[k])
  {
  }

  /**
   * A successful return marks that rental Completed and its car Available;
   * the rental keeps its cost and every other row stays as it was.
   */
  lemma CompleteSucceeds(s: Store, id: RentalId)
    requires id in s.rentals && s.rentals[id].status == Ongoing
    requires s.rentals[id].carId in s.cars
    ensures var r := Complete(s, id);
      var c := s.rentals[id].carId;
      && r.after.rentals.Keys == s.rentals.Keys
      && r.after.rentals[id] == s.rentals[id].(status := Completed)
      && (forall k :: k in s.rentals && k != id ==> r.after.rentals[k] == s.rentals[k])
      && r.after.cars.Keys == s.cars.Keys
      && r.after.cars[c] == s.cars[c].(status := Available)
      && (forall k :: k in s.cars && k != c ==> r.after.cars[k] == s.cars[k])
  {
  }

  /** Returning the same rental twice succeeds once; the second attempt fails and changes nothing. */
  lemma CompleteTwice(s: Store, id: RentalId)
    requires Complete(s, id).result.Ok?
    ensures var s1 := Complete(s, id).after;
      Complete(s1, id) == Step(Err(InvalidOrCompleted), s1)
  {
  }

  /** A booking preserves the invariant, provided the new id is not already taken. */
  lemma RentPreservesConsistency(s: Store, req: RentRequest, id: RentalId)
    requires Consistent(s) && id !in s.rentals
    ensures Consistent(Rent(s, req, id).after)
  {
    var r := Rent(s, req, id);
    if r.result.Ok? {
      var c := req.carId.value;
      var t := r.after;
      assert OngoingFor(s.rentals, c) == {} by {
        if k :| k in OngoingFor(s.rentals, c) {
          OngoingRentalHoldsItsCar(s, k);
        }
      }
      assert OngoingFor(t.rentals, c) == {id};
      forall k | k in t.cars && k != c
        ensures OngoingFor(t.rentals, k) == OngoingFor(s.rentals, k)
      {
      }
    }
  }

  /** A return preserves the invariant. */
  lemma CompletePreservesConsistency(s: Store, id: RentalId)
    requires Consistent(s)
    ensures Consistent(Complete(s, id).after)
  {
    var r := Complete(s, id);
    if r.result.Ok? {
      var c := s.rentals[id].carId;
      var t := r.after;
      OngoingRentalHoldsItsCar(s, id);
      assert t.rentals == s.rentals[id := s.rentals[id].(status := Completed)];
      assert OngoingFor(t.rentals, c) == {} by {
        forall k | k in t.rentals && k != id && t.rentals[k].carId == c
          ensures t.rentals[k].status != Ongoing
        {
          assert k !in OngoingFor(s.rentals, c);
        }
      }
      forall k | k in t.cars && k != c
        ensures OngoingFor(t.rentals, k) == OngoingFor(s.rentals, k)
      {
      }
    }
  }

  /**
   * Booking a car and then returning that rental puts the car back to
   * Available: the Cars table is exactly as before, and the only trace left
   * is one Completed rental that keeps the booked cost.
   */
  lemma RentThenComplete(s: Store, req: RentRequest, id: RentalId)
    requires Rent(s, req, id).result.Ok?
    ensures var s1 := Rent(s, req, id).after;
      var s2 := Complete(s1, id).after;
      && Complete(s1, id).result.Ok?
      && s2.cars == s.cars
      && s2.rentals == s.rentals[id := Rental(req.customerId.value, req.carId.value,
           req.startDate.value, req.endDate.value, Rent(s, req, id).result.value, Completed)]
  {
    var c := req.carId.value;
    var s2 := Complete(Rent(s, req, id).after, id).after;
    assert s2.cars[c] == s.cars[c];
  }

  /**
   * No double booking: in any state that keeps the invariant, while a rental
   * `rid` is still Ongoing, every booking of its car that passes validation
   * fails with CarUnavailable. A successful booking leaves such a state
   * (`RentSucceeds`, `RentPreservesConsistency`), and other bookings and
   * returns keep `rid` Ongoing until it is itself returned.
   */
  lemma NoDoubleBooking(s: Store, rid: RentalId, req: RentRequest, id: RentalId)
    requires Consistent(s)
    requires rid in s.rentals && s.rentals[rid].status == Ongoing
    requires HasAllFields(req) && req.carId.value == s.rentals[rid].carId
    requires ValidDate(req.startDate.value) && ValidDate(req.endDate.value)
    requires Before(req.startDate.value, req.endDate.value)
    ensures Rent(s, req, id).result == Err(CarUnavailable)
  {
    OngoingRentalHoldsItsCar(s, rid);
    RentErrors(s, req, id);
  }

  /** Splitting a stay at a date in between splits its cost: each day is charged once. */
  lemma SplitStayCost(pricePerDay: nat, a: Date, b: Date, c: Date)
    requires ValidDate(a) && ValidDate(b) && ValidDate(c)
    requires Before(a, b) && Before(b, c)
    ensures DaysBetween(a, c) >= 1 && DaysBetween(a, b) >= 1 && DaysBetween(b, c) >= 1
    ensures Cost(pricePerDay, DaysBetween(a, c))
      == Cost(pricePerDay, DaysBetween(a, b)) + Cost(pricePerDay, DaysBetween(b, c))
  {
    DaysBetweenPositive(a, b);
    DaysBetweenPositive(b, c);
    var x, y := DaysBetween(a, b), DaysBetween(b, c);
    assert DaysBetween(a, c) == x + y;
    CostAdds(pricePerDay, x, y);
  }

  lemma CostAdds(pricePerDay: nat, x: nat, y: nat)
    ensures Cost(pricePerDay, x + y) == Cost(pricePerDay, x) + Cost(pricePerDay, y)
  {
  }

  /** The worked example: three days at 50 a day costs 150. */
  lemma RentExample(s: Store, id: RentalId)
    requires 7 in s.cars && s.cars[7].status == Available && s.cars[7].pricePerDay == 50
    ensures Rent(s, RentRequest(Some(7), Some(1), Some(Date(2024, 1, 1)), Some(Date(2024, 1, 4))), id).result
      == Ok(150)
  {
    ThreeDayExample();
  }

  /**
   * The reservation coordinator over the Cars and Rentals tables, which its
   * two workflows update in place. `nextRentalId` is the auto-increment
   * counter of the Rentals table.
   */
  class RentalDesk {
    var cars: map<CarId, Car>
    var rentals: map<RentalId, Rental>
    var nextRentalId: RentalId

    /** Every rental id in use is below the auto-increment counter. */
    ghost predicate Valid()
      reads this
    {
      forall id :: id in rentals ==> id < nextRentalId
    }

    function State(): Store
      reads this
    {
      Store(cars, rentals)
    }

    /** A desk over an existing Cars table and an empty Rentals table. */
    constructor (cars: map<CarId, Car>)
      ensures Valid()
      ensures State() == Store(cars, map[])
      ensures (forall c :: c in cars ==> cars[c].status != Rented) ==> Consistent(State())
    {
      this.cars := cars;
      this.rentals := map[];
      this.nextRentalId := 1;
      new;
      assert forall c :: OngoingFor(map[], c) == {};
    }

    /** `rent_car`: the answer and the committed tables are those `Rent` gives. */
    method RentCar(req: RentRequest) returns (res: Result<nat>)
      requires Valid()
      modifies this
      ensures Valid()
      ensures Step(res, State()) == Rent(old(State()), req, old(nextRentalId))
      ensures old(Consistent(State())) ==> Consistent(State())
    {
      ghost var before := State();
      ghost var id := nextRentalId;
      if req.carId.None? || req.customerId.None? || req.startDate.None? || req.endDate.None? {
        return Err(MissingFields);
      }
      var start, end := req.startDate.value, req.endDate.value;
      if !ValidDate(start) || !ValidDate(end) {
        return Err(InvalidDateFormat);
      }
      var days := Ordinal(end) - Ordinal(start);
      if days < 1 {
        return Err(InvalidDateRange);
      }
      // From here on the car's row is locked until commit or rollback.
      var carId := req.carId.value;
      if carId !in cars {
        return Err(CarNotFound);
      }
      var car := cars[carId];
      if car.status != Available {
        return Err(CarUnavailable);
      }
      var totalCost := Cost(car.pricePerDay, days);
      rentals := rentals[nextRentalId := Rental(req.customerId.value, carId, start, end, totalCost, Ongoing)];
      nextRentalId := nextRentalId + 1;
      cars := cars[carId := car.(status := Rented)];
      res := Ok(totalCost);
      if Consistent(before) {
        RentPreservesConsistency(before, req, id);
      }
    }

    /** `complete_rental`: the answer and the committed tables are those `Complete` gives. */
    method CompleteRental(id: RentalId) returns (res: Result<()>)
      requires Valid()
      modifies this
      ensures Valid() && nextRentalId == old(nextRentalId)
      ensures Step(res, State()) == Complete(old(State()), id)
      ensures old(Consistent(State())) ==> Consistent(State())
    {
      ghost var before := State();
      if id !in rentals || rentals[id].status != Ongoing {
        return Err(InvalidOrCompleted);
      }
      var rental := rentals[id];
      rentals := rentals[id := rental.(status := Completed)];
      var carId := rentals[id].carId;
      if carId in cars {
        cars := cars[carId := cars[carId].(status := Available)];
      }
      res := Ok(());
      if Consistent(before) {
        CompletePreservesConsistency(before, id);
      }
    }
  }
}
