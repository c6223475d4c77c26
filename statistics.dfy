/**
 * The read-only queries over the tables: the listing of cars open for
 * booking (`get_available_cars`) and the three aggregates of the
 * statistics page (completed revenue, Ongoing rentals, Available cars),
 * with how the two workflows move each of them.
 */
module Statistics {
  import opened Inventory
  import opened Reservations

  /** A row of the listing: the car's id with its columns. */
  datatype CarRow = CarRow(id: CarId, car: Car)

  predicate SortedByPrice(rows: seq<CarRow>) {
    forall i, j :: 0 <= i < j < |rows| ==> rows[i].car.pricePerDay <= rows[j].car.pricePerDay
  }

  predicate DistinctIds(rows: seq<CarRow>) {
    forall i, j :: 0 <= i < j < |rows| ==> rows[i].id != rows[j].id
  }

  /** Places `row` into a price-ordered listing, keeping it ordered. */
  function InsertByPrice(row: CarRow, rows: seq<CarRow>): (r: seq<CarRow>)
    ensures SortedByPrice(rows) ==> SortedByPrice(r)
    ensures |r| == |rows| + 1
    ensures forall x :: x in r <==> x == row || x in rows
  {
    if rows == [] || row.car.pricePerDay <= rows[0].car.pricePerDay then
      [row] + rows
    else
      var rest := InsertByPrice(row, rows[1..]);
      HeadIsCheapest(rows);
      [rows[0]] + rest
  }

  /** Inserting adds exactly that row: the old rows and the new one, counted with multiplicity. */
  lemma {:induction false} InsertAddsRow(row: CarRow, rows: seq<CarRow>)
    ensures multiset(InsertByPrice(row, rows)) == multiset(rows) + multiset{row}
  {
    if rows != [] && row.car.pricePerDay > rows[0].car.pricePerDay {
      InsertAddsRow(row, rows[1..]);
      assert rows == [rows[0]] + rows[1..];
    }
  }

  /** In a price-ordered listing no later row is cheaper than the first. */
  lemma HeadIsCheapest(rows: seq<CarRow>)
    requires rows != []
    ensures SortedByPrice(rows) ==> forall x :: x in rows[1..] ==> rows[0].car.pricePerDay <= x.car.pricePerDay
  {
  }

  /** Inserting a row whose id is new keeps the ids of a listing distinct. */
  lemma {:induction false} InsertKeepsDistinct(row: CarRow, rows: seq<CarRow>)
    requires DistinctIds(rows)
    requires forall x :: x in rows ==> x.id != row.id
    ensures DistinctIds(InsertByPrice(row, rows))
  {
    if rows != [] && row.car.pricePerDay > rows[0].car.pricePerDay {
      var rest := InsertByPrice(row, rows[1..]);
      InsertKeepsDistinct(row, rows[1..]);
      forall x | x in rest ensures x.id != rows[0].id {
        if x != row {
          var j :| 0 <= j < |rows[1..]| && rows[1..][j] == x;
          assert rows[j + 1] == x;
        }
      }
      var r := [rows[0]] + rest;
      forall i, j | 0 <= i < j < |r| ensures r[i].id != r[j].id {
        if i == 0 {
          assert r[j] in rest;
        } else {
          assert r[i] == rest[i - 1] && r[j] == rest[j - 1];
        }
      }
    }
  }

  /** The rows of the cars `ids`, inserted one by one into a price-ordered listing. */
  ghost function RowsOf(cars: map<CarId, Car>, ids: set<CarId>): seq<CarRow>
    requires ids <= cars.Keys
    decreases ids
  {
    if ids == {} then []
    else
      var id :| id in ids;
      InsertByPrice(CarRow(id, cars[id]), RowsOf(cars, ids - {id}))
  }

  /** The listing built from `ids` holds the rows of those cars, each once, in non-decreasing price order. */
  lemma {:induction false} RowsOfListing(cars: map<CarId, Car>, ids: set<CarId>)
    requires ids <= cars.Keys
    ensures var r := RowsOf(cars, ids);
      && SortedByPrice(r) && DistinctIds(r) && |r| == |ids|
      && (forall x :: x in r <==> x.id in ids && x.car == cars[x.id])
    decreases ids
  {
    if ids != {} {
      var id :| id in ids && RowsOf(cars, ids) == InsertByPrice(CarRow(id, cars[id]), RowsOf(cars, ids - {id}));
      var rest := RowsOf(cars, ids - {id});
      RowsOfListing(cars, ids - {id});
      InsertKeepsDistinct(CarRow(id, cars[id]), rest);
    }
  }

  /** A subset is no larger than its superset, and it is empty exactly when it has no member. */
  lemma {:induction false} SubsetCount(a: set<nat>, b: set<nat>)
    requires a <= b
    ensures |a| <= |b|
    ensures |a| == 0 <==> forall x :: x in b ==> x !in a
    decreases a
  {
    if a != {} {
      var x :| x in a;
      SubsetCount(a - {x}, b - {x});
    }
  }

  function AvailableIds(cars: map<CarId, Car>): set<CarId> {
    set id | id in cars && cars[id].status == Available
  }

  /** The statistics page's number of cars whose status is Available: 0 exactly when there is none, and never more than there are cars. */
  function AvailableCount(cars: map<CarId, Car>): (r: nat)
    ensures r <= |cars.Keys|
    ensures r == 0 <==> forall id :: id in cars ==> cars[id].status != Available
  {
    SubsetCount(AvailableIds(cars), cars.Keys);
    |AvailableIds(cars)|
  }

  /**
   * `get_available_cars`: exactly the Available cars, each once, ordered by
   * daily price. Cars of equal price may come in any order.
   */
  ghost function AvailableCars(cars: map<CarId, Car>): (r: seq<CarRow>)
    ensures forall x :: x in r <==> x.id in cars && cars[x.id] == x.car && x.car.status == Available
    ensures DistinctIds(r)
    ensures SortedByPrice(r)
    ensures |r| == AvailableCount(cars)
  {
    RowsOfListing(cars, AvailableIds(cars));
    RowsOf(cars, AvailableIds(cars))
  }

  /** The statistics page's number of Ongoing rentals: 0 exactly when there is none, and never more than there are rentals. */
  function OngoingCount(rentals: map<RentalId, Rental>): (r: nat)
    ensures r <= |rentals.Keys|
    ensures r == 0 <==> forall id :: id in rentals ==> rentals[id].status != Ongoing
  {
    SubsetCount(OngoingIds(rentals), rentals.Keys);
    |OngoingIds(rentals)|
  }

  function OngoingIds(rentals: map<RentalId, Rental>): set<RentalId> {
    set id | id in rentals && rentals[id].status == Ongoing
  }

  /** What one rental contributes to revenue: its cost once it is Completed. */
  function Earned(r: Rental): nat {
    if r.status == Completed then r.totalCost else 0
  }

  /** The sum of `Earned` over the rentals `ids`. */
  ghost function EarnedOver(rentals: map<RentalId, Rental>, ids: set<RentalId>): nat
    requires ids <= rentals.Keys
    decreases ids
  {
    if ids == {} then 0
    else
      var id :| id in ids;
      Earned(rentals[id]) + EarnedOver(rentals, ids - {id})
  }

  /**
   * The statistics page's revenue: the total cost of all Completed rentals.
   * It is 0 when there are none and at least the cost of each one.
   */
  ghost function Revenue(rentals: map<RentalId, Rental>): (r: nat)
    ensures (forall k :: k in rentals ==> rentals[k].status != Completed) ==> r == 0
    ensures forall k :: k in rentals && rentals[k].status == Completed ==> rentals[k].totalCost <= r
  {
    EarnedOverNone(rentals, rentals.Keys);
    forall k | k in rentals && rentals[k].status == Completed
      ensures rentals[k].totalCost <= EarnedOver(rentals, rentals.Keys)
    {
      EarnedOverRemove(rentals, rentals.Keys, k);
    }
    EarnedOver(rentals, rentals.Keys)
  }

  /** Rentals none of which is Completed earn nothing. */
  lemma {:induction false} EarnedOverNone(rentals: map<RentalId, Rental>, ids: set<RentalId>)
    requires ids <= rentals.Keys
    ensures (forall k :: k in ids ==> rentals[k].status != Completed) ==> EarnedOver(rentals, ids) == 0
    decreases ids
  {
    if ids != {} && forall k :: k in ids ==> rentals[k].status != Completed {
      var x :| x in ids && EarnedOver(rentals, ids) == Earned(rentals[x]) + EarnedOver(rentals, ids - {x});
      EarnedOverNone(rentals, ids - {x});
      assert Earned(rentals[x]) == 0;
    }
  }

  /** The sum does not depend on the order in which rentals are added up. */
  lemma {:induction false} EarnedOverRemove(rentals: map<RentalId, Rental>, ids: set<RentalId>, k: RentalId)
    requires ids <= rentals.Keys && k in ids
    ensures EarnedOver(rentals, ids) == Earned(rentals[k]) + EarnedOver(rentals, ids - {k})
    decreases ids
  {
    var x :| x in ids && EarnedOver(rentals, ids) == Earned(rentals[x]) + EarnedOver(rentals, ids - {x});
    if x != k {
      EarnedOverRemove(rentals, ids - {x}, k);
      EarnedOverRemove(rentals, ids - {k}, x);
      assert ids - {x} - {k} == ids - {k} - {x};
    }
  }

  /** Two tables whose rentals earn the same over `ids` sum to the same. */
  lemma {:induction false} EarnedOverAgree(a: map<RentalId, Rental>, b: map<RentalId, Rental>, ids: set<RentalId>)
    requires ids <= a.Keys && ids <= b.Keys
    requires forall k :: k in ids ==> Earned(a[k]) == Earned(b[k])
    ensures EarnedOver(a, ids) == EarnedOver(b, ids)
    decreases ids
  {
    if ids != {} {
      var x :| x in ids && EarnedOver(a, ids) == Earned(a[x]) + EarnedOver(a, ids - {x});
      EarnedOverRemove(b, ids, x);
      EarnedOverAgree(a, b, ids - {x});
    }
  }

  /**
   * A successful booking leaves revenue as it was (the new rental is not yet
   * Completed), adds one Ongoing rental and takes one car out of the
   * Available count.
   */
  lemma RentEffectOnStatistics(s: Store, req: RentRequest, id: RentalId)
    requires Rent(s, req, id).result.Ok? && id !in s.rentals
    ensures var t := Rent(s, req, id).after;
      && Revenue(t.rentals) == Revenue(s.rentals)
      && OngoingCount(t.rentals) == OngoingCount(s.rentals) + 1
      && AvailableCount(t.cars) == AvailableCount(s.cars) - 1
  {
    RentSucceeds(s, req, id);
    var t := Rent(s, req, id).after;
    RentKeepsRevenue(s, t, id);
    RentAddsOngoing(s, t, id);
    var c := req.carId.value;
    assert c in AvailableIds(s.cars);
    assert AvailableIds(t.cars) == AvailableIds(s.cars) - {c};
  }

  lemma RentKeepsRevenue(s: Store, t: Store, id: RentalId)
    requires id !in s.rentals && t.rentals.Keys == s.rentals.Keys + {id}
    requires t.rentals[id].status == Ongoing
    requires forall k :: k in s.rentals ==> t.rentals[k] == s.rentals[k]
    ensures Revenue(t.rentals) == Revenue(s.rentals)
  {
    assert t.rentals.Keys - {id} == s.rentals.Keys;
    EarnedOverRemove(t.rentals, t.rentals.Keys, id);
    EarnedOverAgree(t.rentals, s.rentals, s.rentals.Keys);
  }

  lemma RentAddsOngoing(s: Store, t: Store, id: RentalId)
    requires id !in s.rentals && t.rentals.Keys == s.rentals.Keys + {id}
    requires t.rentals[id].status == Ongoing
    requires forall k :: k in s.rentals ==> t.rentals[k] == s.rentals[k]
    ensures OngoingCount(t.rentals) == OngoingCount(s.rentals) + 1
  {
    assert OngoingIds(t.rentals) == OngoingIds(s.rentals) + {id};
    assert id !in OngoingIds(s.rentals);
  }

  /**
   * A successful return adds that rental's cost to revenue and removes one
   * Ongoing rental; under the invariant it also adds one Available car.
   */
  lemma CompleteEffectOnStatistics(s: Store, id: RentalId)
    requires Complete(s, id).result.Ok?
    ensures var t := Complete(s, id).after;
      && Revenue(t.rentals) == Revenue(s.rentals) + s.rentals[id].totalCost
      && OngoingCount(t.rentals) == OngoingCount(s.rentals) - 1
      && (Consistent(s) ==> AvailableCount(t.cars) == AvailableCount(s.cars) + 1)
  {
    var t := Complete(s, id).after;
    assert t.rentals == s.rentals[id := s.rentals[id].(status := Completed)];
    CompleteAddsRevenue(s.rentals, id);
    CompleteRemovesOngoing(s.rentals, id);
    if Consistent(s) {
      OngoingRentalHoldsItsCar(s, id);
      var c := s.rentals[id].carId;
      assert t.cars == s.cars[c := s.cars[c].(status := Available)];
      assert c !in AvailableIds(s.cars);
      assert AvailableIds(t.cars) == AvailableIds(s.cars) + {c};
    }
  }

  lemma CompleteAddsRevenue(rentals: map<RentalId, Rental>, id: RentalId)
    requires id in rentals && rentals[id].status == Ongoing
    ensures Revenue(rentals[id := rentals[id].(status := Completed)]) == Revenue(rentals) + rentals[id].totalCost
  {
    var after := rentals[id := rentals[id].(status := Completed)];
    assert after.Keys == rentals.Keys;
    EarnedOverRemove(after, after.Keys, id);
    EarnedOverRemove(rentals, rentals.Keys, id);
    EarnedOverAgree(after, rentals, rentals.Keys - {id});
  }

  lemma CompleteRemovesOngoing(rentals: map<RentalId, Rental>, id: RentalId)
    requires id in rentals && rentals[id].status == Ongoing
    ensures OngoingCount(rentals[id := rentals[id].(status := Completed)]) == OngoingCount(rentals) - 1
  {
    var after := rentals[id := rentals[id].(status := Completed)];
    assert id in OngoingIds(rentals);
    assert OngoingIds(after) == OngoingIds(rentals) - {id};
  }

  function RentedIds(cars: map<CarId, Car>): set<CarId> {
    set id | id in cars && cars[id].status == Rented
  }

  /** The Ongoing rentals whose car is one of `cs`. */
  function OngoingOn(rentals: map<RentalId, Rental>, cs: set<CarId>): set<RentalId> {
    set id | id in rentals && rentals[id].status == Ongoing && rentals[id].carId in cs
  }

  /** Under the invariant, the cars `cs` carry as many Ongoing rentals as there are Rented cars among them. */
  lemma {:induction false} OngoingOnCount(s: Store, cs: set<CarId>)
    requires Consistent(s) && cs <= s.cars.Keys
    ensures |OngoingOn(s.rentals, cs)| == |RentedIds(s.cars) * cs|
    decreases cs
  {
    if cs == {} {
      assert OngoingOn(s.rentals, cs) == {};
    } else {
      var c :| c in cs;
      var rest := cs - {c};
      assert cs == rest + {c};
      OngoingOnCount(s, rest);
      OngoingOnSplit(s.rentals, rest, c);
      RentedSplit(s.cars, rest, c);
    }
  }

  /** Adding car `c` to `cs` adds exactly the Ongoing rentals of `c`. */
  lemma OngoingOnSplit(rentals: map<RentalId, Rental>, cs: set<CarId>, c: CarId)
    requires c !in cs
    ensures |OngoingOn(rentals, cs + {c})| == |OngoingOn(rentals, cs)| + |OngoingFor(rentals, c)|
  {
    var mine := OngoingFor(rentals, c);
    assert OngoingOn(rentals, cs + {c}) == OngoingOn(rentals, cs) + mine;
    assert OngoingOn(rentals, cs) * mine == {};
  }

  /** Adding car `c` to `cs` adds one Rented car exactly when `c` is Rented. */
  lemma RentedSplit(cars: map<CarId, Car>, cs: set<CarId>, c: CarId)
    requires c !in cs && c in cars
    ensures |RentedIds(cars) * (cs + {c})| == |RentedIds(cars) * cs| + (if cars[c].status == Rented then 1 else 0)
  {
    if cars[c].status == Rented {
      assert RentedIds(cars) * (cs + {c}) == RentedIds(cars) * cs + {c};
    } else {
      assert RentedIds(cars) * (cs + {c}) == RentedIds(cars) * cs;
    }
  }

  /**
   * Under the invariant, the statistics page's count of Ongoing rentals
   * equals the number of cars whose status is Rented.
   */
  lemma OngoingMatchesRented(s: Store)
    requires Consistent(s)
    ensures OngoingCount(s.rentals) == |RentedIds(s.cars)|
  {
    OngoingOnCount(s, s.cars.Keys);
    assert OngoingOn(s.rentals, s.cars.Keys) == OngoingIds(s.rentals);
    assert RentedIds(s.cars) * s.cars.Keys == RentedIds(s.cars);
  }
}
