/**
 * The two tables the reservation workflows read and write, held as maps
 * from primary key to row, and the invariant that ties them together:
 * a car is Rented exactly when one Ongoing rental references it.
 */
module Inventory {
  import opened Calendar

  /** Car and rental ids come from auto-increment columns, so they are never negative. */
  type CarId = nat
  type RentalId = nat
  type CustomerId = int

  /** A status string other than the two the workflows write; the comparison is exact. */
  type OtherStatus = name: string | name != "Available" && name != "Rented" witness "Maintenance"

  /**
   * The status column of a car. The workflows only ever write Available and
   * Rented; `Other` stands for any other value an administrator stored,
   * which renting treats like Rented (not Available). Each status string has
   * exactly one representation.
   */
  datatype CarStatus = Available | Rented | Other(name: OtherStatus)

  datatype RentalStatus = Ongoing | Completed

  /** A Cars row; prices are whole currency units (for example cents). */
  datatype Car = Car(model: string, year: int, pricePerDay: nat, status: CarStatus)

  /** A Rentals row; the cost is fixed when the rental is booked. */
  datatype Rental = Rental(
    customerId: CustomerId,
    carId: CarId,
    startDate: Date,
    endDate: Date,
    totalCost: nat,
    status: RentalStatus)

  /** The committed contents of the Cars and Rentals tables. */
  datatype Store = Store(cars: map<CarId, Car>, rentals: map<RentalId, Rental>)

  /** The ids of the Ongoing rentals that reference car `c`. */
  function OngoingFor(rentals: map<RentalId, Rental>, c: CarId): set<RentalId> {
    set id | id in rentals && rentals[id].status == Ongoing && rentals[id].carId == c
  }

  /**
   * The global invariant: every rental references an existing car (the
   * foreign key), and each car is referenced by exactly one Ongoing rental
   * if its status is Rented and by none otherwise.
   */
  ghost predicate Consistent(s: Store) {
    && (forall id :: id in s.rentals ==> s.rentals[id].carId in s.cars)
    && (forall c :: c in s.cars ==>
          |OngoingFor(s.rentals, c)| == (if s.cars[c].status == Rented then 1 else 0))
  }

  /** Under the invariant, an Ongoing rental is the only one on its car, and that car is Rented. */
  lemma OngoingRentalHoldsItsCar(s: Store, id: RentalId)
    requires Consistent(s)
    requires id in s.rentals && s.rentals[id].status == Ongoing
    ensures s.rentals[id].carId in s.cars
    ensures s.cars[s.rentals[id].carId].status == Rented
    ensures OngoingFor(s.rentals, s.rentals[id].carId) == {id}
  {
    var c := s.rentals[id].carId;
    var refs := OngoingFor(s.rentals, c);
    assert id in refs;
    assert |refs - {id}| == |refs| - 1;
    assert refs - {id} == {};
  }
}
