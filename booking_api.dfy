/** The booking and seat-inventory rules of the flight-booking REST backend
    (backend/main.py): creating and deleting flights, booking and cancelling
    seats, and the flight, booking and city listings, over in-memory tables
    of flights, bookings and payments.

    Each state-changing endpoint is a method of FlightBookingService that
    updates the tables step by step, as the endpoint does, and is proved equal
    to a pure transition function on a Tables value (CreateFlight, Book,
    Cancel, DeleteFlight). The lemmas about those functions state what the
    endpoints promise: the order of their checks, what a success stores, that
    a failure changes nothing, that booking and then cancelling gives the seats
    back, and the seat-accounting invariant every endpoint preserves.

    Instants are seconds from the epoch, calendar dates are day numbers
    (Clock.DayOf), "today" is a parameter, money is an integer, and the current
    user (whom the bearer token identifies) is an input. */
module BookingApi {
  import opened Wrappers
  import opened Text
  import opened Clock

  /** The authenticated caller: the user id and user type carried by the token. */
  datatype User = User(userId: int, userType: string)

  /** A row of the flights table. Time-of-day strings and the duration are set for daily flights only. */
  datatype Flight = Flight(
    flightNumber: string,
    airlineId: int,
    sourceCity: string,
    destinationCity: string,
    departureTime: int,
    arrivalTime: int,
    totalSeats: int,
    availableSeats: int,
    price: int,
    flightStatus: string,
    isDaily: bool,
    departureTimeOnly: Option<string>,
    arrivalTimeOnly: Option<string>,
    durationMinutes: Option<int>,
    createdBy: int)

  /** The body of POST /flights. */
  datatype FlightCreate = FlightCreate(
    flightNumber: string,
    airlineId: int,
    sourceCity: string,
    destinationCity: string,
    departureTime: int,
    arrivalTime: int,
    totalSeats: int,
    price: int,
    isDaily: bool)

  /** A row of the bookings table; the travel date is an instant, kept for daily
      flights only. The flight id is None once the flight has been deleted: the
      flight's bookings relationship (backend/database.py:99) has no delete
      cascade, so deleting the flight clears the foreign key of its bookings. */
  datatype Booking = Booking(
    userId: int,
    flightId: Option<int>,
    travelDate: Option<int>,
    passengersCount: int,
    totalAmount: int,
    bookingStatus: string,
    paymentStatus: string,
    pnrNumber: string)

  /** The body of POST /bookings. */
  datatype BookingCreate = BookingCreate(flightId: int, passengersCount: int, paymentMethod: string, travelDate: Option<int>)

  /** A row of the payments table. */
  datatype Payment = Payment(bookingId: int, paymentAmount: int, paymentMethod: string, transactionId: string, paymentStatus: string)

  /** The HTTP error an endpoint raises. */
  datatype ApiError = ApiError(statusCode: int, detail: string)

  /** The answer of DELETE /bookings/{id}. */
  datatype CancelReceipt = CancelReceipt(bookingId: int, refundAmount: int)

  /** The three tables. Booking k (0-based) has booking_id k + 1, as the table's
      row ids are handed out; nextFlightId is the id the next flight row gets. */
  datatype Tables = Tables(flights: map<int, Flight>, bookings: seq<Booking>, payments: seq<Payment>, nextFlightId: int)

  const Confirmed := "confirmed"
  const Pending := "pending"
  const Cancelled := "cancelled"
  const Completed := "completed"
  const Refunded := "refunded"
  const Scheduled := "scheduled"
  const Admin := "admin"

  const NotAuthorized := ApiError(403, "Not authorized")
  /** flight_number is a unique column: the commit of a second flight with the
      same number raises an integrity error, which the server answers with 500. */
  const DuplicateFlightNumber := ApiError(500, "Internal Server Error")
  const FlightNotFound := ApiError(404, "Flight not found")
  const TravelDateRequired := ApiError(400, "Travel date is required for daily flights")
  const TravelDateNotFuture := ApiError(400, "Travel date must be in the future")
  const NotEnoughSeats := ApiError(400, "Not enough seats available")
  const BookingNotFound := ApiError(404, "Booking not found or not authorized")
  const PastTravelDate := ApiError(400, "Cannot cancel booking for past or current travel date")
  const PastFlight := ApiError(400, "Cannot cancel booking for past or current flight")
  const AlreadyCancelled := ApiError(400, "Booking is already cancelled")

  function ActiveBookingsExist(count: int): ApiError
  {
    ApiError(400, "Cannot delete flight. " + IntToString(count) + " active booking(s) exist for this flight.")
  }

  // ---------------------------------------------------------------------------
  // POST /flights

  /** The row create_flight stores: seats start full; a daily flight also gets its
      duration in whole minutes (rounded toward zero) and its two times of day. */
  function NewFlight(req: FlightCreate, user: User): (f: Flight)
    ensures f.flightNumber == req.flightNumber && f.sourceCity == req.sourceCity && f.destinationCity == req.destinationCity
    ensures f.availableSeats == f.totalSeats == req.totalSeats && f.createdBy == user.userId
    ensures f.isDaily == req.isDaily
    ensures f.durationMinutes.Some? == f.departureTimeOnly.Some? == f.arrivalTimeOnly.Some? == req.isDaily
  {
    Flight(
      req.flightNumber, req.airlineId, req.sourceCity, req.destinationCity,
      req.departureTime, req.arrivalTime, req.totalSeats, req.totalSeats, req.price, Scheduled, req.isDaily,
      if req.isDaily then Some(FormatHms(req.departureTime)) else None,
      if req.isDaily then Some(FormatHms(req.arrivalTime)) else None,
      if req.isDaily then Some(TruncDiv(req.arrivalTime - req.departureTime, SecondsPerMinute)) else None,
      user.userId)
  }

  /** Some stored flight already has this flight number. */
  predicate FlightNumberTaken(flights: map<int, Flight>, flightNumber: string)
  {
    exists id :: id in flights && flights[id].flightNumber == flightNumber
  }

  /** create_flight: administrators only; the row is refused at commit when its
      flight number is taken. A stored flight adds exactly one row, under a new id. */
  function CreateFlight(t: Tables, user: User, req: FlightCreate): (r: (Result<int, ApiError>, Tables))
    ensures r.0.Err? ==> r.1 == t
    ensures r.0.Ok? ==> r.1.flights.Keys == t.flights.Keys + {r.0.value} && r.1.bookings == t.bookings && r.1.payments == t.payments
  {
    if user.userType != Admin then (Err(NotAuthorized), t)
    else if FlightNumberTaken(t.flights, req.flightNumber) then (Err(DuplicateFlightNumber), t)
    else (Ok(t.nextFlightId), t.(flights := t.flights[t.nextFlightId := NewFlight(req, user)], nextFlightId := t.nextFlightId + 1))
  }

  // ---------------------------------------------------------------------------
  // POST /bookings

  /** The booking row as it ends up once its payment is recorded. */
  function NewBooking(f: Flight, user: User, req: BookingCreate, pnr: string): (b: Booking)
    ensures b.userId == user.userId && b.flightId == Some(req.flightId) && b.pnrNumber == pnr
    ensures b.totalAmount == f.price * req.passengersCount && b.passengersCount == req.passengersCount
    ensures b.bookingStatus == Confirmed && b.paymentStatus == Completed
    ensures b.travelDate.Some? ==> f.isDaily
  {
    Booking(user.userId, Some(req.flightId), if f.isDaily then req.travelDate else None,
            req.passengersCount, f.price * req.passengersCount, Confirmed, Completed, pnr)
  }

  /** create_booking: a success appends one booking, with the next id, and its payment. */
  function Book(t: Tables, user: User, req: BookingCreate, today: int, pnr: string, txn: string): (r: (Result<int, ApiError>, Tables))
    ensures r.0.Err? ==> r.1 == t
    ensures r.0.Ok? ==> r.0.value == |t.bookings| + 1 && |r.1.bookings| == r.0.value && r.1.bookings[..|t.bookings|] == t.bookings
    ensures r.0.Ok? ==> |r.1.payments| == |t.payments| + 1 && r.1.payments[..|t.payments|] == t.payments
  {
    if req.flightId !in t.flights then (Err(FlightNotFound), t)
    else
      var f := t.flights[req.flightId];
      if f.isDaily && req.travelDate.None? then (Err(TravelDateRequired), t)
      else if f.isDaily && DayOf(req.travelDate.value) <= today then (Err(TravelDateNotFuture), t)
      else if f.availableSeats < req.passengersCount then (Err(NotEnoughSeats), t)
      else
        var id := |t.bookings| + 1;
        var b := NewBooking(f, user, req, pnr);
        var flights := if f.isDaily then t.flights
                       else t.flights[req.flightId := f.(availableSeats := f.availableSeats - req.passengersCount)];
        (Ok(id), t.(flights := flights, bookings := t.bookings + [b],
                    payments := t.payments + [Payment(id, b.totalAmount, req.paymentMethod, txn, Completed)]))
  }

  // ---------------------------------------------------------------------------
  // DELETE /bookings/{id}

  /** The caller's own booking with this id, if there is one. */
  predicate OwnsBooking(t: Tables, user: User, bookingId: int)
  {
    1 <= bookingId <= |t.bookings| && t.bookings[bookingId - 1].userId == user.userId
  }

  /** The flight row a booking refers to, if it still refers to one that exists. */
  predicate HasFlight(t: Tables, b: Booking)
  {
    b.flightId.Some? && b.flightId.value in t.flights
  }

  /** The date checks of delete_user_booking, in main.py's order: a daily
      booking's travel date, otherwise the flight's departure date (when the
      flight still exists), must be after today. */
  function CancelDateError(t: Tables, b: Booking, today: int): Option<ApiError>
  {
    if b.travelDate.Some? then
      if DayOf(b.travelDate.value) <= today then Some(PastTravelDate) else None
    else if HasFlight(t, b) && DayOf(t.flights[b.flightId.value].departureTime) <= today then Some(PastFlight)
    else None
  }

  /** delete_user_booking: a success rewrites the one booking in place and keeps every payment. */
  function Cancel(t: Tables, user: User, bookingId: int, today: int): (r: (Result<CancelReceipt, ApiError>, Tables))
    ensures r.0.Err? ==> r.1 == t
    ensures r.0.Ok? ==> 1 <= bookingId <= |t.bookings| == |r.1.bookings| && r.1.bookings[bookingId - 1].bookingStatus == Cancelled && r.1.payments == t.payments
  {
    if !OwnsBooking(t, user, bookingId) then (Err(BookingNotFound), t)
    else
      var b := t.bookings[bookingId - 1];
      if CancelDateError(t, b, today).Some? then (Err(CancelDateError(t, b, today).value), t)
      else if b.bookingStatus == Cancelled then (Err(AlreadyCancelled), t)
      else
        var flights := if HasFlight(t, b) && !t.flights[b.flightId.value].isDaily
                       then t.flights[b.flightId.value := t.flights[b.flightId.value].(availableSeats := t.flights[b.flightId.value].availableSeats + b.passengersCount)]
                       else t.flights;
        (Ok(CancelReceipt(bookingId, b.totalAmount)),
         t.(flights := flights, bookings := t.bookings[bookingId - 1 := b.(bookingStatus := Cancelled, paymentStatus := Refunded)]))
  }

  // ---------------------------------------------------------------------------
  // DELETE /admin/flights/{id}

  /** A booking that still holds its seats in the eyes of delete_flight. */
  predicate IsActiveFor(b: Booking, flightId: int)
  {
    b.flightId == Some(flightId) && (b.bookingStatus == Confirmed || b.bookingStatus == Pending)
  }

  /** The number of confirmed or pending bookings of a flight. */
  function ActiveBookingCount(bs: seq<Booking>, flightId: int): (n: nat)
    ensures n <= |bs|
    ensures n == 0 <==> forall k :: 0 <= k < |bs| ==> !IsActiveFor(bs[k], flightId)
  {
    if bs == [] then 0
    else ActiveBookingCount(bs[..|bs| - 1], flightId) + (if IsActiveFor(bs[|bs| - 1], flightId) then 1 else 0)
  }

  /** The indices of a flight's confirmed or pending bookings. */
  function ActiveIndices(bs: seq<Booking>, flightId: int): set<int>
  {
    set k | 0 <= k < |bs| && IsActiveFor(bs[k], flightId)
  }

  /** A booking as deleting flight flightId leaves it: its flight id cleared if it was that flight's. */
  function Unlink(b: Booking, flightId: int): Booking
  {
    if b.flightId == Some(flightId) then b.(flightId := None) else b
  }

  function Unlinked(bs: seq<Booking>, flightId: int): seq<Booking>
  {
    seq(|bs|, k requires 0 <= k < |bs| => Unlink(bs[k], flightId))
  }

  /** delete_flight: a success removes the flight row and leaves no booking referring to it. */
  function DeleteFlight(t: Tables, user: User, flightId: int): (r: (Result<int, ApiError>, Tables))
    ensures r.0.Err? ==> r.1 == t
    ensures r.0.Ok? ==> r.1.flights.Keys == t.flights.Keys - {flightId} && |r.1.bookings| == |t.bookings|
    ensures r.0.Ok? ==> forall k :: 0 <= k < |r.1.bookings| ==> r.1.bookings[k].flightId != Some(flightId)
  {
    if user.userType != Admin then (Err(NotAuthorized), t)
    else if flightId !in t.flights then (Err(FlightNotFound), t)
    else if ActiveBookingCount(t.bookings, flightId) > 0 then (Err(ActiveBookingsExist(ActiveBookingCount(t.bookings, flightId))), t)
    else (Ok(flightId), t.(flights := t.flights - {flightId}, bookings := Unlinked(t.bookings, flightId)))
  }

  // ---------------------------------------------------------------------------
  // GET /flights, GET /bookings, GET /cities

  /** A query parameter counts only when present and non-empty. */
  predicate Given(p: Option<string>) { p.Some? && p.value != "" }

  /** The filter of get_flights: seats left, and the source, destination and
      earliest departure date when given (the date as a day number). */
  predicate MatchesSearch(f: Flight, source: Option<string>, destination: Option<string>, date: Option<int>)
  {
    && f.availableSeats > 0
    && (Given(source) ==> f.sourceCity == source.value)
    && (Given(destination) ==> f.destinationCity == destination.value)
    && (date.Some? ==> f.departureTime >= date.value * SecondsPerDay)
  }

  function SearchFlights(flights: map<int, Flight>, source: Option<string>, destination: Option<string>, date: Option<int>): (r: map<int, Flight>)
    ensures forall id :: id in r <==> id in flights && MatchesSearch(flights[id], source, destination, date)
    ensures forall id :: id in r ==> r[id] == flights[id]
  {
    map id | id in flights && MatchesSearch(flights[id], source, destination, date) :: flights[id]
  }

  /** The ids of the caller's bookings, in table order. */
  function UserBookingIds(bs: seq<Booking>, userId: int): (ids: seq<int>)
    ensures forall i :: 0 <= i < |ids| ==> 1 <= ids[i] <= |bs| && bs[ids[i] - 1].userId == userId
    ensures forall id :: 1 <= id <= |bs| && bs[id - 1].userId == userId ==> id in ids
    ensures forall i, j :: 0 <= i < j < |ids| ==> ids[i] < ids[j]
  {
    if bs == [] then []
    else
      var earlier := UserBookingIds(bs[..|bs| - 1], userId);
      if bs[|bs| - 1].userId == userId then earlier + [|bs|] else earlier
  }

  /** The distinct source cities and the distinct destination cities of all flights. */
  function Cities(flights: map<int, Flight>): (r: (set<string>, set<string>))
    ensures forall c :: c in r.0 <==> exists id :: id in flights && flights[id].sourceCity == c
    ensures forall c :: c in r.1 <==> exists id :: id in flights && flights[id].destinationCity == c
  {
    (set id | id in flights :: flights[id].sourceCity, set id | id in flights :: flights[id].destinationCity)
  }

  // ---------------------------------------------------------------------------
  // Seat accounting

  /** Seats a booking holds on a flight: its passengers while it is not cancelled. */
  function Held(b: Booking, flightId: int): int
  {
    if b.flightId == Some(flightId) && b.bookingStatus != Cancelled then b.passengersCount else 0
  }

  /** Seats held on a flight by all bookings. */
  function Reserved(bs: seq<Booking>, flightId: int): int
  {
    if bs == [] then 0 else Reserved(bs[..|bs| - 1], flightId) + Held(bs[|bs| - 1], flightId)
  }

  /** What every endpoint keeps true of the tables:
      - flight ids are below the next id to hand out, and no two flights share a number;
      - a booking is confirmed or cancelled, and a booking that is not cancelled
        belongs to a flight that exists;
      - each booking has one payment, of the booking's amount;
      - for a non-daily flight, the seats left plus the seats its bookings hold
        are the flight's total. */
  ghost predicate Invariant(t: Tables)
  {
    && (forall id :: id in t.flights ==> id < t.nextFlightId)
    && (forall i, j :: i in t.flights && j in t.flights && i != j ==> t.flights[i].flightNumber != t.flights[j].flightNumber)
    && (forall k :: 0 <= k < |t.bookings| ==> t.bookings[k].bookingStatus == Confirmed || t.bookings[k].bookingStatus == Cancelled)
    && (forall k :: 0 <= k < |t.bookings| && t.bookings[k].bookingStatus != Cancelled ==> HasFlight(t, t.bookings[k]))
    && |t.payments| == |t.bookings|
    && (forall k :: 0 <= k < |t.payments| ==> t.payments[k].bookingId == k + 1 && t.payments[k].paymentAmount == t.bookings[k].totalAmount)
    && (forall id :: id in t.flights && !t.flights[id].isDaily ==>
          t.flights[id].availableSeats + Reserved(t.bookings, id) == t.flights[id].totalSeats)
  }

  lemma ReservedAppend(bs: seq<Booking>, b: Booking, flightId: int)
    ensures Reserved(bs + [b], flightId) == Reserved(bs, flightId) + Held(b, flightId)
  {
    assert (bs + [b])[..|bs|] == bs;
  }

  lemma {:induction false} ReservedUpdate(bs: seq<Booking>, k: int, b: Booking, flightId: int)
    requires 0 <= k < |bs|
    ensures Reserved(bs[k := b], flightId) == Reserved(bs, flightId) - Held(bs[k], flightId) + Held(b, flightId)
    decreases |bs|
  {
    var n := |bs| - 1;
    if k == n {
      assert bs[k := b][..n] == bs[..n];
    } else {
      ReservedUpdate(bs[..n], k, b, flightId);
      assert bs[k := b][..n] == bs[..n][k := b];
    }
  }

  lemma {:induction false} ReservedNone(bs: seq<Booking>, flightId: int)
    requires forall k :: 0 <= k < |bs| ==> Held(bs[k], flightId) == 0
    ensures Reserved(bs, flightId) == 0
    decreases |bs|
  {
    if bs != [] {
      ReservedNone(bs[..|bs| - 1], flightId);
    }
  }

  /** Two booking lists whose bookings hold the same seats one by one reserve the same total. */
  lemma {:induction false} ReservedSameHeld(bs: seq<Booking>, cs: seq<Booking>, flightId: int)
    requires |bs| == |cs|
    requires forall k :: 0 <= k < |bs| ==> Held(bs[k], flightId) == Held(cs[k], flightId)
    ensures Reserved(bs, flightId) == Reserved(cs, flightId)
    decreases |bs|
  {
    if bs != [] {
      ReservedSameHeld(bs[..|bs| - 1], cs[..|cs| - 1], flightId);
    }
  }

  lemma EmptyTablesInvariant()
    ensures Invariant(Tables(map[], [], [], 1))
  {
  }

  /** create_flight keeps the invariant: the new flight starts with every seat free
      and no booking refers to it yet. */
  lemma CreateFlightPreservesInvariant(t: Tables, user: User, req: FlightCreate)
    requires Invariant(t)
    ensures Invariant(CreateFlight(t, user, req).1)
  {
    if CreateFlight(t, user, req).0.Ok? {
      var id := t.nextFlightId;
      forall k | 0 <= k < |t.bookings| ensures Held(t.bookings[k], id) == 0 {
      }
      ReservedNone(t.bookings, id);
    }
  }

  /** create_booking keeps the invariant: a non-daily flight loses exactly the
      seats the new booking holds, and the new booking gets its one payment. */
  lemma BookPreservesInvariant(t: Tables, user: User, req: BookingCreate, today: int, pnr: string, txn: string)
    requires Invariant(t)
    ensures Invariant(Book(t, user, req, today, pnr, txn).1)
  {
    var (r, t') := Book(t, user, req, today, pnr, txn);
    if r.Ok? {
      var b := t'.bookings[|t.bookings|];
      forall id | id in t'.flights && !t'.flights[id].isDaily
        ensures t'.flights[id].availableSeats + Reserved(t'.bookings, id) == t'.flights[id].totalSeats
      {
        ReservedAppend(t.bookings, b, id);
      }
    }
  }

  /** delete_user_booking keeps the invariant: the seats the booking held go back to its flight. */
  lemma CancelPreservesInvariant(t: Tables, user: User, bookingId: int, today: int)
    requires Invariant(t)
    ensures Invariant(Cancel(t, user, bookingId, today).1)
  {
    var (r, t') := Cancel(t, user, bookingId, today);
    if r.Ok? {
      var k := bookingId - 1;
      var b := t.bookings[k];
      forall id | id in t'.flights && !t'.flights[id].isDaily
        ensures t'.flights[id].availableSeats + Reserved(t'.bookings, id) == t'.flights[id].totalSeats
      {
        ReservedUpdate(t.bookings, k, t'.bookings[k], id);
      }
    }
  }

  /** delete_flight keeps the invariant: a flight is deleted only when no booking
      holds seats on it. */
  lemma DeleteFlightPreservesInvariant(t: Tables, user: User, flightId: int)
    requires Invariant(t)
    ensures Invariant(DeleteFlight(t, user, flightId).1)
  {
    var (r, t') := DeleteFlight(t, user, flightId);
    if r.Ok? {
      forall k | 0 <= k < |t.bookings| && t.bookings[k].bookingStatus != Cancelled
        ensures t.bookings[k].flightId != Some(flightId) && t'.bookings[k] == t.bookings[k]
      {
        assert !IsActiveFor(t.bookings[k], flightId);
      }
      forall id | id in t'.flights && !t'.flights[id].isDaily
        ensures t'.flights[id].availableSeats + Reserved(t'.bookings, id) == t'.flights[id].totalSeats
      {
        ReservedSameHeld(t'.bookings, t.bookings, id);
      }
    }
  }

  // ---------------------------------------------------------------------------
  // Properties of the endpoints

  /** Every failure of create_flight, create_booking, delete_user_booking and
      delete_flight leaves all three tables as they were. */
  lemma FailuresChangeNothing(t: Tables, user: User, fc: FlightCreate, bc: BookingCreate, id: int, today: int, pnr: string, txn: string)
    ensures CreateFlight(t, user, fc).0.Err? ==> CreateFlight(t, user, fc).1 == t
    ensures Book(t, user, bc, today, pnr, txn).0.Err? ==> Book(t, user, bc, today, pnr, txn).1 == t
    ensures Cancel(t, user, id, today).0.Err? ==> Cancel(t, user, id, today).1 == t
    ensures DeleteFlight(t, user, id).0.Err? ==> DeleteFlight(t, user, id).1 == t
  {
  }

  /** create_flight is for administrators only, and the database refuses a
      flight number that is already stored. An accepted flight gets a fresh id
      and leaves every other row alone; it starts with all seats available, and
      only a daily flight gets a duration in minutes (rounded toward zero) and
      departure and arrival times of day, which read back as the times of day
      of the given instants. */
  lemma CreateFlightOutcome(t: Tables, user: User, req: FlightCreate)
    requires Invariant(t)
    ensures CreateFlight(t, user, req).0.Ok? <==> user.userType == Admin && !FlightNumberTaken(t.flights, req.flightNumber)
    ensures user.userType != Admin ==> CreateFlight(t, user, req).0 == Err(NotAuthorized)
    ensures user.userType == Admin && FlightNumberTaken(t.flights, req.flightNumber) ==> CreateFlight(t, user, req).0 == Err(DuplicateFlightNumber)
    ensures CreateFlight(t, user, req).0.Ok? ==>
      var (r, t') := CreateFlight(t, user, req);
      && r.value !in t.flights
      && t'.flights.Keys == t.flights.Keys + {r.value}
      && (forall id :: id in t.flights ==> t'.flights[id] == t.flights[id])
      && t'.bookings == t.bookings && t'.payments == t.payments
      && t'.flights[r.value].availableSeats == t'.flights[r.value].totalSeats == req.totalSeats
      && t'.flights[r.value].createdBy == user.userId
      && t'.flights[r.value].isDaily == req.isDaily
      && (req.isDaily ==>
            && t'.flights[r.value].durationMinutes == Some(TruncDiv(req.arrivalTime - req.departureTime, SecondsPerMinute))
            && t'.flights[r.value].departureTimeOnly.Some? && t'.flights[r.value].arrivalTimeOnly.Some?
            && ParseHms(t'.flights[r.value].departureTimeOnly.value) == Some(req.departureTime % SecondsPerDay)
            && ParseHms(t'.flights[r.value].arrivalTimeOnly.value) == Some(req.arrivalTime % SecondsPerDay))
      && (!req.isDaily ==>
            t'.flights[r.value].durationMinutes.None? && t'.flights[r.value].departureTimeOnly.None? && t'.flights[r.value].arrivalTimeOnly.None?)
  {
    HmsRoundTrip(req.departureTime);
    HmsRoundTrip(req.arrivalTime);
  }

  /** create_booking checks, in this order: the flight exists (404); a daily
      flight has a travel date (400); that date is after today, so today itself
      is refused (400); enough seats are left (400). Passing all four is the only
      way to succeed, and nothing bounds the passenger count from below. */
  lemma BookChecks(t: Tables, user: User, req: BookingCreate, today: int, pnr: string, txn: string)
    ensures req.flightId !in t.flights ==> Book(t, user, req, today, pnr, txn).0 == Err(FlightNotFound)
    ensures req.flightId in t.flights && t.flights[req.flightId].isDaily ==>
      && (req.travelDate.None? ==> Book(t, user, req, today, pnr, txn).0 == Err(TravelDateRequired))
      && (req.travelDate.Some? && DayOf(req.travelDate.value) <= today ==> Book(t, user, req, today, pnr, txn).0 == Err(TravelDateNotFuture))
    ensures Book(t, user, req, today, pnr, txn).0.Ok? <==>
      && req.flightId in t.flights
      && (t.flights[req.flightId].isDaily ==> req.travelDate.Some? && DayOf(req.travelDate.value) > today)
      && t.flights[req.flightId].availableSeats >= req.passengersCount
    ensures req.flightId in t.flights && (t.flights[req.flightId].isDaily ==> req.travelDate.Some? && DayOf(req.travelDate.value) > today)
            && t.flights[req.flightId].availableSeats < req.passengersCount
            ==> Book(t, user, req, today, pnr, txn).0 == Err(NotEnoughSeats)
  {
  }

  /** A successful booking gets the next booking id and stores, for the caller,
      the amount price * passengers, status "confirmed", payment "completed" and
      the travel date only for a daily flight; one payment of the same amount is
      recorded; a non-daily flight loses exactly the booked seats, a daily flight
      keeps its count, and no other flight changes. */
  lemma BookSuccess(t: Tables, user: User, req: BookingCreate, today: int, pnr: string, txn: string)
    requires Book(t, user, req, today, pnr, txn).0.Ok?
    ensures
      var (r, t') := Book(t, user, req, today, pnr, txn);
      var f := t.flights[req.flightId];
      && r.value == |t.bookings| + 1
      && |t'.bookings| == |t.bookings| + 1 && t'.bookings[..|t.bookings|] == t.bookings
      && t'.bookings[|t.bookings|].userId == user.userId
      && t'.bookings[|t.bookings|].flightId == Some(req.flightId)
      && t'.bookings[|t.bookings|].pnrNumber == pnr
      && t'.bookings[|t.bookings|].totalAmount == f.price * req.passengersCount
      && t'.bookings[|t.bookings|].passengersCount == req.passengersCount
      && t'.bookings[|t.bookings|].bookingStatus == Confirmed
      && t'.bookings[|t.bookings|].paymentStatus == Completed
      && t'.bookings[|t.bookings|].travelDate == (if f.isDaily then req.travelDate else None)
      && t'.payments == t.payments + [Payment(r.value, f.price * req.passengersCount, req.paymentMethod, txn, Completed)]
      && t'.flights.Keys == t.flights.Keys
      && t'.flights[req.flightId].availableSeats == (if f.isDaily then f.availableSeats else f.availableSeats - req.passengersCount)
      && t'.flights[req.flightId] == f.(availableSeats := t'.flights[req.flightId].availableSeats)
      && (forall id :: id in t.flights && id != req.flightId ==> t'.flights[id] == t.flights[id])
  {
    var t' := Book(t, user, req, today, pnr, txn).1;
    assert (t.bookings + [t'.bookings[|t.bookings|]])[..|t.bookings|] == t.bookings;
  }

  /** Nothing stops a zero or negative passenger count: on a non-daily flight
      with 10 seats left, booking -2 passengers at price 100 succeeds, charges
      -200 and leaves 12 seats. */
  lemma NegativePassengersAccepted(t: Tables, user: User, fid: int, today: int, pnr: string, txn: string)
    requires fid in t.flights && !t.flights[fid].isDaily
    requires t.flights[fid].availableSeats == 10 && t.flights[fid].price == 100
    ensures
      var (r, t') := Book(t, user, BookingCreate(fid, -2, "card", None), today, pnr, txn);
      r.Ok? && t'.bookings[|t.bookings|].totalAmount == -200 && t'.flights[fid].availableSeats == 12
  {
  }

  /** delete_user_booking finds only the caller's own booking (404 otherwise),
      then refuses a travel date or, for a non-daily booking, a departure date on
      or before today, and only after those date checks refuses a booking that
      is already cancelled. Passing all of them is the only way to succeed. */
  lemma CancelChecks(t: Tables, user: User, bookingId: int, today: int)
    ensures !OwnsBooking(t, user, bookingId) ==> Cancel(t, user, bookingId, today).0 == Err(BookingNotFound)
    ensures OwnsBooking(t, user, bookingId) ==>
      var b := t.bookings[bookingId - 1];
      && (b.travelDate.Some? && DayOf(b.travelDate.value) <= today ==> Cancel(t, user, bookingId, today).0 == Err(PastTravelDate))
      && (b.travelDate.None? && HasFlight(t, b) && DayOf(t.flights[b.flightId.value].departureTime) <= today ==>
            Cancel(t, user, bookingId, today).0 == Err(PastFlight))
      && (CancelDateError(t, b, today).None? && b.bookingStatus == Cancelled ==> Cancel(t, user, bookingId, today).0 == Err(AlreadyCancelled))
      && (Cancel(t, user, bookingId, today).0.Ok? <==> CancelDateError(t, b, today).None? && b.bookingStatus != Cancelled)
  {
  }

  /** A successful cancellation marks the booking "cancelled" and its payment
      "refunded", refunds the booking's total amount, gives the passengers' seats
      back to a non-daily flight, and touches no other booking, flight or payment. */
  lemma CancelSuccess(t: Tables, user: User, bookingId: int, today: int)
    requires Cancel(t, user, bookingId, today).0.Ok?
    ensures
      var (r, t') := Cancel(t, user, bookingId, today);
      var b := t.bookings[bookingId - 1];
      && r.value == CancelReceipt(bookingId, b.totalAmount)
      && t'.bookings == t.bookings[bookingId - 1 := b.(bookingStatus := Cancelled, paymentStatus := Refunded)]
      && t'.payments == t.payments
      && t'.flights.Keys == t.flights.Keys
      && (forall id :: id in t.flights && b.flightId != Some(id) ==> t'.flights[id] == t.flights[id])
      && (HasFlight(t, b) ==>
            var f := t.flights[b.flightId.value];
            t'.flights[b.flightId.value] == f.(availableSeats := f.availableSeats + (if f.isDaily then 0 else b.passengersCount)))
  {
  }

  /** Booking and then cancelling, on the same day and by the same user, refunds
      the whole amount and restores every flight exactly, seat counts included,
      provided a non-daily flight departs after that day. A daily booking needs
      nothing more: its travel date is already known to be after today. */
  lemma {:induction false} BookThenCancelRestoresSeats(t: Tables, user: User, req: BookingCreate, today: int, pnr: string, txn: string)
    requires Book(t, user, req, today, pnr, txn).0.Ok?
    requires !t.flights[req.flightId].isDaily ==> DayOf(t.flights[req.flightId].departureTime) > today
    ensures
      var (r, t1) := Book(t, user, req, today, pnr, txn);
      var (c, t2) := Cancel(t1, user, r.value, today);
      && c == Ok(CancelReceipt(r.value, t.flights[req.flightId].price * req.passengersCount))
      && t2.flights == t.flights
      && t2.payments == t1.payments
  {
    var (r, t1) := Book(t, user, req, today, pnr, txn);
    var f := t.flights[req.flightId];
    assert t1.bookings[r.value - 1] == NewBooking(f, user, req, pnr);
    assert OwnsBooking(t1, user, r.value);
    assert CancelDateError(t1, t1.bookings[r.value - 1], today).None?;
    var t2 := Cancel(t1, user, r.value, today).1;
    if f.isDaily {
      assert t2.flights == t1.flights == t.flights;
    } else {
      assert t2.flights == t.flights[req.flightId := f];
    }
  }

  /** A cancelled booking cannot be cancelled again, on any later or earlier day:
      the second call fails and changes nothing. */
  lemma SecondCancelFails(t: Tables, user: User, bookingId: int, today: int, later: int)
    requires Cancel(t, user, bookingId, today).0.Ok?
    ensures
      var t1 := Cancel(t, user, bookingId, today).1;
      Cancel(t1, user, bookingId, later).0.Err? && Cancel(t1, user, bookingId, later).1 == t1
  {
    var t1 := Cancel(t, user, bookingId, today).1;
    assert t1.bookings[bookingId - 1].bookingStatus == Cancelled;
  }

  /** delete_flight is for administrators; an existing flight is deleted exactly
      when it has no confirmed or pending booking. Then its row goes, and each of
      its remaining (cancelled) bookings keeps everything but its flight id,
      which is cleared; every other booking and all payments stay as they were. */
  lemma DeleteFlightOutcome(t: Tables, user: User, flightId: int)
    ensures user.userType != Admin ==> DeleteFlight(t, user, flightId).0 == Err(NotAuthorized)
    ensures user.userType == Admin && flightId !in t.flights ==> DeleteFlight(t, user, flightId).0 == Err(FlightNotFound)
    ensures DeleteFlight(t, user, flightId).0.Ok? <==>
      && user.userType == Admin && flightId in t.flights
      && forall k :: 0 <= k < |t.bookings| ==> !IsActiveFor(t.bookings[k], flightId)
    ensures DeleteFlight(t, user, flightId).0.Ok? ==>
      var t' := DeleteFlight(t, user, flightId).1;
      && t'.flights == t.flights - {flightId}
      && t'.payments == t.payments && t'.nextFlightId == t.nextFlightId
      && |t'.bookings| == |t.bookings|
      && (forall k :: 0 <= k < |t.bookings| && t.bookings[k].flightId == Some(flightId) ==>
            t.bookings[k].bookingStatus != Confirmed && t.bookings[k].bookingStatus != Pending)
      && (forall k :: 0 <= k < |t.bookings| ==>
            t'.bookings[k] == if t.bookings[k].flightId == Some(flightId) then t.bookings[k].(flightId := None) else t.bookings[k])
  {
    if DeleteFlight(t, user, flightId).0.Ok? {
      forall k | 0 <= k < |t.bookings| && t.bookings[k].flightId == Some(flightId)
        ensures t.bookings[k].bookingStatus != Confirmed && t.bookings[k].bookingStatus != Pending
      {
        assert !IsActiveFor(t.bookings[k], flightId);
      }
    }
  }

  /** ActiveBookingCount counts one for each index of a confirmed or pending booking of the flight. */
  lemma {:induction false} ActiveBookingCountIsSize(bs: seq<Booking>, flightId: int)
    ensures ActiveBookingCount(bs, flightId) == |ActiveIndices(bs, flightId)|
    decreases |bs|
  {
    if bs == [] {
      assert ActiveIndices(bs, flightId) == {};
    } else {
      var n := |bs| - 1;
      var init := bs[..n];
      ActiveBookingCountIsSize(init, flightId);
      var before := ActiveIndices(init, flightId);
      assert n !in before;
      if IsActiveFor(bs[n], flightId) {
        assert ActiveIndices(bs, flightId) == before + {n};
      } else {
        assert ActiveIndices(bs, flightId) == before;
      }
    }
  }

  /** The refusal of delete_flight names the number of confirmed or pending
      bookings of that flight, whatever else the table holds. */
  lemma DeleteFlightReportsCount(t: Tables, user: User, flightId: int)
    requires user.userType == Admin && flightId in t.flights
    ensures |ActiveIndices(t.bookings, flightId)| > 0 ==>
      DeleteFlight(t, user, flightId).0 == Err(ActiveBookingsExist(|ActiveIndices(t.bookings, flightId)|))
    ensures |ActiveIndices(t.bookings, flightId)| == 0 <==> DeleteFlight(t, user, flightId).0.Ok?
  {
    ActiveBookingCountIsSize(t.bookings, flightId);
  }

  /** Every flight get_flights lists has a seat left, so on a non-daily flight it
      lists, a booking for one passenger goes through. */
  lemma ListedFlightTakesOnePassenger(t: Tables, user: User, source: Option<string>, destination: Option<string>, date: Option<int>,
                                      flightId: int, paymentMethod: string, today: int, pnr: string, txn: string)
    requires flightId in SearchFlights(t.flights, source, destination, date)
    requires !t.flights[flightId].isDaily
    ensures Book(t, user, BookingCreate(flightId, 1, paymentMethod, None), today, pnr, txn).0 == Ok(|t.bookings| + 1)
  {
  }

  /** A daily flight keeps the departure instant it was created with, so a
      search with a date after its creation day never lists it. */
  lemma DailyFlightMissingFromLaterDates(flights: map<int, Flight>, id: int, source: Option<string>, destination: Option<string>, day: int)
    requires id in flights && day > DayOf(flights[id].departureTime)
    ensures id !in SearchFlights(flights, source, destination, Some(day))
  {
  }

  /** A booking appears in its owner's list, at the end, and in nobody else's. */
  lemma NewBookingListedForOwner(t: Tables, user: User, other: int, req: BookingCreate, today: int, pnr: string, txn: string)
    requires Book(t, user, req, today, pnr, txn).0.Ok?
    requires other != user.userId
    ensures
      var (r, t') := Book(t, user, req, today, pnr, txn);
      && UserBookingIds(t'.bookings, user.userId) == UserBookingIds(t.bookings, user.userId) + [r.value]
      && UserBookingIds(t'.bookings, other) == UserBookingIds(t.bookings, other)
  {
    var t' := Book(t, user, req, today, pnr, txn).1;
    assert t'.bookings[..|t'.bookings| - 1] == t.bookings;
  }

  /** get_cities after create_flight: the new flight's two cities are listed,
      and every city listed before still is. */
  lemma CreatedFlightCitiesListed(t: Tables, user: User, req: FlightCreate)
    requires Invariant(t)
    requires CreateFlight(t, user, req).0.Ok?
    ensures var (before, after) := (Cities(t.flights), Cities(CreateFlight(t, user, req).1.flights));
      && req.sourceCity in after.0 && req.destinationCity in after.1
      && before.0 <= after.0 && before.1 <= after.1
  {
    var t' := CreateFlight(t, user, req).1;
    var id := CreateFlight(t, user, req).0.value;
    assert id in t'.flights && t'.flights[id].sourceCity == req.sourceCity && t'.flights[id].destinationCity == req.destinationCity;
    forall c | c in Cities(t.flights).0 ensures c in Cities(t'.flights).0 {
      var i :| i in t.flights && t.flights[i].sourceCity == c;
      assert i in t'.flights && t'.flights[i] == t.flights[i];
    }
    forall c | c in Cities(t.flights).1 ensures c in Cities(t'.flights).1 {
      var i :| i in t.flights && t.flights[i].destinationCity == c;
      assert i in t'.flights && t'.flights[i] == t.flights[i];
    }
  }

  // ---------------------------------------------------------------------------
  // The service: the tables as fields, updated in place by the endpoints

  class FlightBookingService {
    var flights: map<int, Flight>
    var bookings: seq<Booking>
    var payments: seq<Payment>
    var nextFlightId: int

    function State(): Tables
      reads this
    {
      Tables(flights, bookings, payments, nextFlightId)
    }

    ghost predicate Valid()
      reads this
    {
      Invariant(State())
    }

    constructor ()
      ensures Valid()
      ensures State() == Tables(map[], [], [], 1)
    {
      flights, bookings, payments, nextFlightId := map[], [], [], 1;
    }

    /** POST /flights */
    method CreateFlightEndpoint(user: User, req: FlightCreate) returns (r: Result<int, ApiError>)
      requires Valid()
      modifies this
      ensures Valid()
      ensures (r, State()) == CreateFlight(old(State()), user, req)
    {
      CreateFlightPreservesInvariant(State(), user, req);
      if user.userType != Admin {
        return Err(NotAuthorized);
      }
      var durationMinutes: Option<int> := None;
      var departureTimeOnly: Option<string> := None;
      var arrivalTimeOnly: Option<string> := None;
      if req.isDaily {
        durationMinutes := Some(TruncDiv(req.arrivalTime - req.departureTime, SecondsPerMinute));
        departureTimeOnly := Some(FormatHms(req.departureTime));
        arrivalTimeOnly := Some(FormatHms(req.arrivalTime));
      }
      var flight := Flight(
        req.flightNumber, req.airlineId, req.sourceCity, req.destinationCity,
        req.departureTime, req.arrivalTime, req.totalSeats, req.totalSeats, req.price, Scheduled, req.isDaily,
        departureTimeOnly, arrivalTimeOnly, durationMinutes, user.userId);
      assert flight == NewFlight(req, user);
      if FlightNumberTaken(flights, flight.flightNumber) {
        return Err(DuplicateFlightNumber);
      }
      var id := nextFlightId;
      flights := flights[id := flight];
      nextFlightId := nextFlightId + 1;
      r := Ok(id);
    }

    /** POST /bookings */
    method CreateBookingEndpoint(user: User, req: BookingCreate, today: int, pnr: string, txn: string) returns (r: Result<int, ApiError>)
      requires Valid()
      modifies this
      ensures Valid()
      ensures (r, State()) == Book(old(State()), user, req, today, pnr, txn)
    {
      BookPreservesInvariant(State(), user, req, today, pnr, txn);
      if req.flightId !in flights {
        return Err(FlightNotFound);
      }
      var flight := flights[req.flightId];
      if flight.isDaily && req.travelDate.None? {
        return Err(TravelDateRequired);
      }
      if flight.isDaily && req.travelDate.Some? {
        if DayOf(req.travelDate.value) <= today {
          return Err(TravelDateNotFuture);
        }
      }
      if flight.availableSeats < req.passengersCount {
        return Err(NotEnoughSeats);
      }
      var totalAmount := flight.price * req.passengersCount;
      var booking := Booking(user.userId, Some(req.flightId), if flight.isDaily then req.travelDate else None,
                             req.passengersCount, totalAmount, Confirmed, Pending, pnr);
      if !flight.isDaily {
        flights := flights[req.flightId := flight.(availableSeats := flight.availableSeats - req.passengersCount)];
      }
      ghost var before := bookings;
      bookings := bookings + [booking];
      var bookingId := |bookings|;
      payments := payments + [Payment(bookingId, totalAmount, req.paymentMethod, txn, Completed)];
      bookings := bookings[bookingId - 1 := booking.(paymentStatus := Completed)];
      assert bookings == before + [NewBooking(flight, user, req, pnr)];
      r := Ok(bookingId);
    }

    /** DELETE /bookings/{id} */
    method DeleteUserBookingEndpoint(user: User, bookingId: int, today: int) returns (r: Result<CancelReceipt, ApiError>)
      requires Valid()
      modifies this
      ensures Valid()
      ensures (r, State()) == Cancel(old(State()), user, bookingId, today)
    {
      CancelPreservesInvariant(State(), user, bookingId, today);
      if !(1 <= bookingId <= |bookings| && bookings[bookingId - 1].userId == user.userId) {
        return Err(BookingNotFound);
      }
      var booking := bookings[bookingId - 1];
      if booking.travelDate.Some? {
        if DayOf(booking.travelDate.value) <= today {
          return Err(PastTravelDate);
        }
      } else {
        if booking.flightId.Some? && booking.flightId.value in flights && DayOf(flights[booking.flightId.value].departureTime) <= today {
          return Err(PastFlight);
        }
      }
      if booking.bookingStatus == Cancelled {
        return Err(AlreadyCancelled);
      }
      booking := booking.(bookingStatus := Cancelled);
      if booking.flightId.Some? && booking.flightId.value in flights && !flights[booking.flightId.value].isDaily {
        var flight := flights[booking.flightId.value];
        flights := flights[booking.flightId.value := flight.(availableSeats := flight.availableSeats + booking.passengersCount)];
      }
      booking := booking.(paymentStatus := Refunded);
      bookings := bookings[bookingId - 1 := booking];
      r := Ok(CancelReceipt(bookingId, booking.totalAmount));
    }

    /** DELETE /admin/flights/{id}: removes the row, and the ORM clears the
        flight id of the flight's remaining bookings. */
    method DeleteFlightEndpoint(user: User, flightId: int) returns (r: Result<int, ApiError>)
      requires Valid()
      modifies this
      ensures Valid()
      ensures (r, State()) == DeleteFlight(old(State()), user, flightId)
    {
      DeleteFlightPreservesInvariant(State(), user, flightId);
      if user.userType != Admin {
        return Err(NotAuthorized);
      }
      if flightId !in flights {
        return Err(FlightNotFound);
      }
      var existing := ActiveBookingCount(bookings, flightId);
      if existing > 0 {
        return Err(ActiveBookingsExist(existing));
      }
      flights := flights - {flightId};
      // the flight's remaining bookings lose their foreign key, one row at a time
      for k := 0 to |bookings|
        invariant flights == old(flights) - {flightId} && payments == old(payments) && nextFlightId == old(nextFlightId)
        invariant |bookings| == |old(bookings)|
        invariant forall j :: 0 <= j < k ==> bookings[j] == Unlink(old(bookings)[j], flightId)
        invariant forall j :: k <= j < |bookings| ==> bookings[j] == old(bookings)[j]
      {
        if bookings[k].flightId == Some(flightId) {
          bookings := bookings[k := bookings[k].(flightId := None)];
        }
      }
      assert bookings == Unlinked(old(bookings), flightId);
      r := Ok(flightId);
    }
  }
}
