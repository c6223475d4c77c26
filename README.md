# Car-rental reservation core, modelled in Dafny

This project models the rental state machine of a car-rental booking
service (a Flask application over MySQL). The model covers the handlers
that book a car (`rent_car`) and return it (`complete_rental`), the listing
of cars open for booking (`get_available_cars`), and the three aggregates of
the statistics page. The two tables are held as maps from primary key to
row:

- **Cars**: `car_id -> (model, year, price_per_day, status)`
- **Rentals**: `rental_id -> (customer_id, car_id, start_date, end_date, total_cost, status)`

Each handler runs as one transaction. It either commits all its writes or
rolls back to the state it started from. The model states each handler
twice:

- as a function of the committed tables, `Reservations.Rent` and
  `Reservations.Complete`, which every property below is proved about;
- as a method of the class `Reservations.RentalDesk`, which updates the two
  maps in place step by step. Each method is proved to end in exactly the
  state the function gives.

Files:

- `calendar.dfy` (module `Calendar`): calendar dates and the whole-day
  difference `(end_date - start_date).days`. It is computed as Python's
  `datetime` does, as the difference of proleptic-Gregorian day ordinals.
- `inventory.dfy` (module `Inventory`): the rows, the two tables, and the
  global invariant `Consistent`. The invariant says every rental references
  an existing car, and a car is Rented exactly when one Ongoing rental
  references it (otherwise none does).
- `reservations.dfy` (module `Reservations`): the request and result types,
  `Rent`, `Complete`, their lemmas, and the class `RentalDesk`.
- `statistics.dfy` (module `Statistics`): the available-cars listing,
  revenue, the Ongoing and Available counts, and how the two workflows move
  them.

Modelling choices:

- Prices and costs are non-negative integers (for example cents), not
  decimals.
- Car and rental ids are auto-increment keys, so they are `nat`. The car id
  in a request is taken as sent (`int`): a negative id is simply not found.
- The car status column is `Available`, `Rented` or `Other(name)`. The
  admin handlers can store any status string (app.py:414-417, 425-427), so
  `Other` stands for any other string an administrator stored; its name is
  never exactly "Available" or "Rented", so each status string has one
  representation. Booking treats it like any status that is not
  `Available`.
- A request field that is absent from the JSON body is `None`. A date
  field holds the parsed `(year, month, day)` triple. A triple that is not a
  real calendar date (month 13, 30 February, year 0) is the
  "Invalid date format" answer that `strptime`'s `ValueError` produces.
- The Rentals table's auto-increment counter is the field
  `RentalDesk.nextRentalId`. `Rent` takes the fresh id as a parameter.
- The listing is a ghost function. It enumerates the Cars map in an
  arbitrary order. The query orders by `price_per_day` alone (app.py:126),
  so the model promises nothing about the order of cars of equal price.
- Every exception a handler does not catch is turned into a rolled-back
  "Database error occurred" answer by `db_connection` (app.py:34-37). There
  is no separate lock-timeout or retry answer, so none is modelled.

## Model

| member | source | states |
|---|---|---|
| `Calendar.Ordinal` | app.py:141 | The day ordinal that `date` subtraction uses lies between 1 (0001-01-01) and 3652059 (9999-12-31) for every date `strptime` accepts. `OrdinalIncreasing` states that it follows calendar order. |
| `Calendar.DaysBetween` | app.py:141 | `(end - start).days` is 0 exactly when the two dates are equal, and its size never exceeds the calendar's range. Its sign is stated by `DaysBetweenPositive` and its unit step by `NextDayIsOneDay`. |
| `Calendar.DaysBetweenPositive` | app.py:139-143 | The day count `(end - start).days` is at least 1 exactly when the end date is strictly later in the calendar. So equal dates (0 days) and an end before the start (negative) are the dates the range check rejects. |
| `Calendar.OrdinalIncreasing` | app.py:141 | The day ordinal that the subtraction uses strictly increases with calendar order, across month and year boundaries and leap years. |
| `Calendar.NextDayIsOneDay` | app.py:141 | Consecutive calendar dates, including across a month end, a year end and 29 February, are exactly one day apart. So the difference counts whole days with no gaps. |
| `Calendar.ThreeDayExample` | app.py:141 | 2024-01-01 to 2024-01-04 is 3 days. |
| `Inventory.OngoingRentalHoldsItsCar` | app.py:177-190 | Under the invariant, an Ongoing rental's car exists and is Rented, and that rental is the only Ongoing one on its car. |
| `Reservations.Rent` | app.py:130-170 | Booking fails with no change to either table on every error path. It succeeds exactly when all four fields are present, both dates are real dates, the end is after the start, the car exists and the car is Available. On success it answers `price_per_day * days`. |
| `Reservations.Complete` | app.py:172-191 | Returning a rental fails with no change to either table unless the rental exists and is Ongoing, and succeeds whenever it is. |
| `Reservations.RentErrors` | app.py:134-155 | The error answers, in the handler's order. A missing field gives MissingFields. Else a date that is not a real calendar date gives InvalidDateFormat. Else an end not after the start gives InvalidDateRange, and only then. Else a missing car gives CarNotFound, and only then. Else a car that is not Available gives CarUnavailable, and only then. |
| `Reservations.RentSucceeds` | app.py:157-166 | A successful booking adds exactly one rental under the fresh id: the request's customer, car and dates, the computed cost, and status Ongoing. It sets that car's status to Rented. No other rental, no other car and no other column changes. |
| `Reservations.CompleteSucceeds` | app.py:183-190 | A successful return sets that rental to Completed, keeping its cost and other columns, and sets its car to Available. Every other row is unchanged. |
| `Reservations.CompleteTwice` | app.py:177-181 | After a successful return, returning the same rental again fails with InvalidOrCompleted and changes nothing. |
| `Reservations.RentPreservesConsistency` | app.py:148-166 | Booking under a fresh id preserves the invariant: every car is Rented iff exactly one Ongoing rental references it (otherwise none), and every rental's car exists. |
| `Reservations.CompletePreservesConsistency` | app.py:177-190 | Returning a rental preserves the same invariant. |
| `Reservations.RentThenComplete` | app.py:157-190 | A successful booking followed by returning that rental succeeds. It leaves the Cars table exactly as it was before the booking, and one extra rental, Completed, carrying the booked cost. |
| `Reservations.NoDoubleBooking` | app.py:148-155 | In any state that keeps the invariant, while a rental is still Ongoing, every request for its car that passes validation fails with CarUnavailable. A successful booking leaves such a state, and only returning that rental ends it. |
| `Reservations.RentExample` | app.py:141-157 | Booking an Available car priced 50 a day from 2024-01-01 to 2024-01-04 answers a total cost of 150. |
| `Reservations.Cost` | app.py:157 | The total cost is the daily price times the day count, so a booking of at least one day costs at least one day's price. `SplitStayCost` states that each day is charged once. |
| `Reservations.SplitStayCost` | app.py:141-157 | For any daily price, a stay from a to c costs exactly what a stay from a to b plus a stay from b to c cost, for any date b strictly between them. So each night is charged once. |
| `Reservations.RentalDesk.RentCar` | app.py:130-170 | The in-place booking answers and commits exactly what `Rent` gives for the old tables and the next auto-increment id. It keeps every rental id below that counter and preserves the invariant. |
| `Reservations.RentalDesk.CompleteRental` | app.py:172-191 | The in-place return answers and commits exactly what `Complete` gives. It leaves the counter alone and preserves the invariant. |
| `Statistics.AvailableCars` | app.py:120-128 | The listing holds exactly the cars whose status is Available, each once with its current columns, in non-decreasing `price_per_day` order. Its length is the Available count. |
| `Statistics.InsertByPrice` | app.py:126 | Inserting a row into a price-ordered listing keeps it ordered, grows it by one, and the result holds exactly the old rows and the new one. |
| `Statistics.InsertAddsRow` | app.py:126 | Inserting adds exactly that row: the result's multiset is the old rows' multiset plus the new row, so no row is lost or repeated. |
| `Statistics.RowsOfListing` | app.py:123-127 | The listing built from a set of car ids holds each of those cars once with its row, ordered by price. |
| `Statistics.AvailableCount` | app.py:261-263 | The count of cars whose status is Available is 0 exactly when no car is Available, and never exceeds the number of cars. The workflow lemmas below state how it moves. |
| `Statistics.OngoingCount` | app.py:257-259 | The count of Ongoing rentals is 0 exactly when no rental is Ongoing, and never exceeds the number of rentals. `OngoingMatchesRented` ties it to the Rented cars. |
| `Statistics.Revenue` | app.py:253-255 | The sum of `total_cost` over Completed rentals is 0 when no rental is Completed, as the COALESCE gives, and at least the cost of each Completed rental. `EarnedOverRemove` makes the sum independent of order, and the workflow lemmas below state how it moves. |
| `Statistics.RentEffectOnStatistics` | app.py:254-263 | A successful booking leaves completed revenue unchanged, raises the Ongoing count by 1 and lowers the Available count by 1. |
| `Statistics.CompleteEffectOnStatistics` | app.py:254-263 | A successful return raises completed revenue by that rental's `total_cost` and lowers the Ongoing count by 1. Under the invariant it also raises the Available count by 1. |
| `Statistics.CompleteAddsRevenue` | app.py:254-255 | Turning one Ongoing rental into Completed adds exactly its cost to the sum of `total_cost` over Completed rentals. |
| `Statistics.CompleteRemovesOngoing` | app.py:258-259 | Turning one Ongoing rental into Completed lowers the Ongoing count by exactly 1. |
| `Statistics.EarnedOverRemove` | app.py:254 | The revenue sum does not depend on the order in which rentals are added up. |
| `Statistics.OngoingMatchesRented` | app.py:258-259 | Under the invariant, the statistics page's count of Ongoing rentals equals the number of cars whose status is Rented. |

## Left out

- Locking and concurrency (`START TRANSACTION`, `SELECT ... FOR UPDATE`, the connection pool). Each handler is one indivisible step, which is what the row locks are there to ensure.
- Database, HTTP and rendering plumbing (cursors, `jsonify`, status codes, templates, sessions). Only the kind of answer is kept.
- The generic rollback in `db_connection`, when it fires on an exception the handlers do not catch. Two such cases are a date field that is present but not a string (`strptime` raises `TypeError`) and a `customer_id` with no Customers row (the insert fails its foreign key). Both roll back and answer a database error, so neither changes the tables. The Customers table is not part of this model, and `customer_id` is opaque.
- `strptime` leniency about the text form of a date. Dates arrive already parsed as triples.
- The `rental_id` that `rent_car` returns. It is read from `cursor.lastrowid` after the `UPDATE` and `COMMIT`, so it is not reliably the inserted id. The model allocates a fresh id but does not return it.
- The admin car handlers in `manage_cars`. Adding a car is a plain insert. Updating can set any status and deleting can drop a car that has an Ongoing rental, so both bypass the state machine.
- Authentication, accounts and customer CRUD (`login`, `admin_login`, `register`, `logout`, `admin_required`, `rent_page`, `manage_customers`). These are credential checks and single-row inserts with no invariant.
- `admin_search`, because SQL `LIKE` depends on collation and wildcards. Also left out: the popular-cars query and the ordering of the admin rental views, which are reporting only.
- Integer width. Prices, day counts and costs are unbounded integers, and the database's DECIMAL precision is not modelled.
- Collation of the status column. The listing and the Available count compare `status = 'Available'` in SQL (app.py:125, 262), which under MySQL's default collation ignores case and trailing spaces. `rent_car` compares with Python's exact `!=` (app.py:153). An administrator-stored `'available'` would therefore be listed and counted but not bookable. The model compares exactly everywhere, so it does not capture that difference.
