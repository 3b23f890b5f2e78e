# Flight booking: seat inventory, tickets and admin tools, in Dafny

This project models the booking rules of a small flight-booking service and the
helpers around them:

- **The booking API** (`backend/main.py`) is modelled as a service object holding three tables:
  - flights, keyed by flight id;
  - bookings, where booking k has id k + 1;
  - payments.

  Its endpoints are:
  - creating a flight (administrators only; a flight number already stored is refused; seats start full; a daily flight also stores its times of day and its duration in minutes);
  - booking seats (flight exists, a daily flight needs a travel date after today, enough seats left);
  - cancelling a booking (own bookings only, not on or after the travel or departure date, not twice);
  - deleting a flight (refused while confirmed or pending bookings exist; the flight's remaining bookings lose their flight id);
  - the read-only flight search, booking list and city list.

  Each endpoint method is proved equal to a pure transition function on the tables. The lemmas about those functions state the checks, their order, the error each raises and the rows each changes. The main invariant is seat conservation: for a non-daily flight, the seats left plus the seats held by its uncancelled bookings always equal its capacity. Every endpoint preserves it. Booking and then cancelling restores the flight exactly.
- **The booking ticket** (`BookingTicket.jsx`):
  - departure and arrival on the travel date;
  - the duration in hours and minutes;
  - the status badge class;
  - the fare rows.
- **The admin dashboard** (`AdminDashboard.jsx`):
  - the new-flight form and its setters;
  - the date added to a daily flight's times before posting;
  - the duration label;
  - the seat count shown per flight.
- **`simple_table`** (`backend/view_database_features.py`): the text-table formatter, with an in-place column-width array.
- **`execute_sql_file`** (`backend/setup_advanced_features.py`): splitting a script on `;`, filtering out empty pieces and comment pieces, and executing the rest.

Time is integer seconds in the backend and milliseconds in the browser. A calendar date is a day number (instant / 86400, floored). "Today" is always a parameter. Money is an integer. Python's `int()` truncation and JavaScript's sign-keeping `%` are written out in `Clock`, because Dafny's `/` and `%` are Euclidean. `Text` holds what the program takes from Python and JavaScript string handling:
- decimal rendering;
- `str.split` and `str.join`;
- `str.strip`, with Python's `isspace` set;
- `strftime("%H:%M:%S")`, paired with a parser for the ticket's time strings.

Two behaviours one might expect are absent from the code, and the model follows the code:
- The code has no weekday recurrence. The `weekdays` column is declared but never read, so daily flights operate every day.
- The code has no next-day rollover for overnight flights, neither in `BookingTicket.jsx` nor in the dashboard. The missing rollover is logged under Findings, with the corrected behaviour proved beside it.

Files: `wrappers.dfy`, `text.dfy`, `clock.dfy`, `booking_api.dfy`, `ticket.dfy`, `admin_dashboard.dfy`, `table_format.dfy`, `sql_script.dfy`.

## Model

| member | source | states |
|---|---|---|
| Text.NatToStringRoundTrip | backend/main.py:317 | the decimal rendering of a count reads back as that count |
| Text.Pad2 | backend/main.py:125-126 | a %H/%M/%S field is two digits whose value is the number |
| Text.Repeat | backend/view_database_features.py:29 | `c * n` has n copies of c, and none when n <= 0 |
| Text.JoinLength | backend/view_database_features.py:24 | a join is as long as its parts plus one separator between each neighbouring pair |
| Text.SplitJoinRoundTrip | backend/setup_advanced_features.py:18 | splitting on ';' loses and adds nothing: rejoining the pieces with ';' gives back the script |
| Text.SplitPiecesAvoid | backend/setup_advanced_features.py:18 | no piece of a split contains the separator, so no statement sent contains a ';' |
| Text.JoinSplitRoundTrip | backend/view_database_features.py:33 | lines joined with "\n" split back into the same lines when none contains a line break |
| Text.TrimStartShape | backend/setup_advanced_features.py:20 | stripping the start keeps a suffix, drops only whitespace and stops at the first other character |
| Text.TrimEndShape | backend/setup_advanced_features.py:20 | stripping the end keeps a prefix, drops only whitespace and stops at the last other character |
| Text.StripShape | backend/setup_advanced_features.py:20 | a stripped statement has no whitespace at either end, and every character of it comes from the piece |
| Text.StripIdempotent | backend/setup_advanced_features.py:20 | stripping twice is stripping once |
| Clock.DayOf | backend/main.py:169 | `.date()` of an instant is the day that contains it |
| Clock.TruncDiv | backend/main.py:122 | `int(a / b)` rounds toward zero, for either sign of a |
| Clock.JsRem | frontend/src/components/BookingTicket.jsx:53 | JavaScript's `%` takes the dividend's sign, and quotient times divisor plus remainder is the dividend |
| Clock.FormatHms | backend/main.py:125-126 | strftime("%H:%M:%S") writes eight characters with colons at positions 2 and 5 |
| Clock.ParseHms | frontend/src/components/BookingTicket.jsx:43 | a parsed time of day is within one day |
| Clock.HmsRoundTrip | backend/main.py:125-126 | reading back a stored time of day gives the instant's seconds after midnight |
| BookingApi.EmptyTablesInvariant | backend/database.py:74-125 | empty tables satisfy the store invariant |
| BookingApi.CreateFlightPreservesInvariant | backend/main.py:128-146 | a new flight starts with every seat free and no booking on it, so the invariant holds |
| BookingApi.BookPreservesInvariant | backend/main.py:176-214 | a non-daily flight loses exactly the seats the new booking holds, and the booking gets its one payment |
| BookingApi.CancelPreservesInvariant | backend/main.py:262-275 | a cancellation gives the held seats back to a non-daily flight |
| BookingApi.DeleteFlightPreservesInvariant | backend/main.py:308-322 | a flight is deleted only when none of its bookings holds seats |
| BookingApi.FailuresChangeNothing | backend/main.py:157-173 | every refusal of the four writing endpoints leaves all three tables unchanged |
| BookingApi.NewFlight | backend/main.py:114-143 | the stored row copies the number and cities, starts with every seat free, records the creator, and has a duration and two times of day exactly when the flight is daily |
| BookingApi.CreateFlight | backend/main.py:111-148 | a refusal changes nothing; a success adds exactly one flight id and touches no booking or payment |
| BookingApi.NewBooking | backend/main.py:176-189 | the stored booking belongs to the caller and the requested flight, carries the PNR, costs price × passengers, is confirmed with its payment completed, and has a travel date only for a daily flight |
| BookingApi.Book | backend/main.py:157-217 | a refusal changes nothing; a success appends one booking under the next id and exactly one payment, keeping every earlier row |
| BookingApi.Cancel | backend/main.py:233-281 | a refusal changes nothing; a success marks the caller's booking with that id cancelled and keeps the number of bookings and every payment |
| BookingApi.DeleteFlight | backend/main.py:300-324 | a refusal changes nothing; a success removes exactly that flight id, keeps the number of bookings and leaves no booking referring to the deleted flight |
| BookingApi.CreateFlightOutcome | backend/main.py:111-148 | a flight is created exactly when the caller is an administrator and no stored flight has its number: 403 otherwise, and a taken number is refused (the unique flight_number column of backend/database.py:78 fails the commit); it gets a fresh id, full seats and the creator's id, and no other row changes; only a daily flight gets a duration rounded toward zero and HH:MM:SS times of day, which read back as the given instants' times of day |
| BookingApi.BookChecks | backend/main.py:157-173 | the checks run in order: 404 for no flight, then 400 for a daily flight without a travel date, then 400 for a travel date on or before today, then 400 for too few seats; a booking succeeds exactly when all four pass |
| BookingApi.BookSuccess | backend/main.py:175-217 | a booking gets the next id, the flight id and the generated PNR; the amount is price × passengers; status is confirmed and payment completed; the travel date is kept only for a daily flight; one payment of that amount is recorded; a non-daily flight loses exactly the booked seats, and nothing else changes |
| BookingApi.NegativePassengersAccepted | backend/main.py:172-176 | nothing bounds the passenger count from below: booking -2 passengers succeeds, charges a negative amount and adds seats |
| BookingApi.CancelChecks | backend/main.py:233-260 | only the caller's booking is found (404); the travel-date or departure-date check comes before the already-cancelled check; a cancellation succeeds exactly when both pass |
| BookingApi.CancelSuccess | backend/main.py:262-281 | a cancellation sets cancelled/refunded, refunds the total amount, keeps every payment and flight id, leaves every flight but the booking's own row as it was, and changes that row only by giving a non-daily flight its seats back |
| BookingApi.BookThenCancelRestoresSeats | backend/main.py:193-270 | booking then cancelling on the same day refunds the whole amount and leaves every flight exactly as before, for a daily flight always and for a dated flight whenever it departs after that day |
| BookingApi.SecondCancelFails | backend/main.py:258-260 | a cancelled booking cannot be cancelled again on any day, and the second attempt changes nothing |
| BookingApi.ActiveBookingCount | backend/main.py:309-312 | the count is zero exactly when no booking of the flight is confirmed or pending |
| BookingApi.ActiveBookingCountIsSize | backend/main.py:309-312 | the count of confirmed or pending bookings of a flight is the number of table positions holding one |
| BookingApi.DeleteFlightOutcome | backend/main.py:300-324 | deletion is admin-only (403), needs an existing flight (404), and succeeds exactly when no booking of the flight is confirmed or pending; on success exactly that flight row goes, each of its remaining bookings keeps everything but its flight id, which is cleared (the relationship of backend/database.py:99 nulls the foreign key), and every other booking and all payments stay |
| BookingApi.DeleteFlightReportsCount | backend/main.py:308-318 | for an administrator and an existing flight, the refusal message names the number of indices of confirmed or pending bookings of that flight, whatever else the table holds, and the deletion goes through exactly when that number is zero |
| BookingApi.SearchFlights | backend/main.py:94-103 | a flight is listed exactly when it has a seat left and matches the source, destination and earliest date that are given |
| BookingApi.ListedFlightTakesOnePassenger | backend/main.py:94 | every listed non-daily flight accepts a one-passenger booking |
| BookingApi.DailyFlightMissingFromLaterDates | backend/main.py:100-101 | a daily flight keeps its creation instant, so a search dated after it never lists it |
| BookingApi.UserBookingIds | backend/main.py:224 | the list holds exactly the caller's bookings, in table order |
| BookingApi.NewBookingListedForOwner | backend/main.py:219-224 | a new booking shows up at the end of its owner's list and in no one else's |
| BookingApi.Cities | backend/main.py:337-345 | the sources and destinations are exactly the cities some flight starts from or flies to |
| BookingApi.CreatedFlightCitiesListed | backend/main.py:337-345 | after a flight is created, its source and destination are listed, and every city listed before still is |
| BookingApi.FlightBookingService.constructor | backend/database.py:74-125 | the service starts with empty tables that satisfy the invariant |
| BookingApi.FlightBookingService.CreateFlightEndpoint | backend/main.py:111-148 | create_flight's answer and new tables are CreateFlight's, a taken flight number included; the invariant, unique flight numbers among it, is kept |
| BookingApi.FlightBookingService.CreateBookingEndpoint | backend/main.py:157-217 | create_booking first stores the booking as pending, then records the payment, then marks it completed; the answer and final tables are Book's, and the invariant is kept |
| BookingApi.FlightBookingService.DeleteUserBookingEndpoint | backend/main.py:233-281 | delete_user_booking's answer and new tables are Cancel's; the invariant is kept |
| BookingApi.FlightBookingService.DeleteFlightEndpoint | backend/main.py:300-324 | delete_flight's answer and new tables are DeleteFlight's: the row goes and the bookings that referred to it have their flight id cleared, one by one; the invariant is kept |
| Ticket.OnTravelDay | frontend/src/components/BookingTicket.jsx:43 | a time of day combined with the travel date falls within that day |
| Ticket.DepartureInstant | frontend/src/components/BookingTicket.jsx:42-44 | without a travel date the flight's stored departure is shown; with one, the departure falls within the travel day |
| Ticket.ArrivalInstant | frontend/src/components/BookingTicket.jsx:46-48 | without a travel date the flight's stored arrival is shown; with one, the arrival falls within the travel day |
| Ticket.TicketInstants | frontend/src/components/BookingTicket.jsx:42-48 | without a travel date the stored instants are shown unchanged; with one, both fall on that day, and a missing time of day is midnight |
| Ticket.SplitNonNegative | frontend/src/components/BookingTicket.jsx:51-53 | for a non-negative duration, hours × 60 + minutes is the duration in whole minutes |
| Ticket.SplitDuration | frontend/src/components/BookingTicket.jsx:51-53 | a non-negative duration splits into whole hours and 0-59 minutes that add up to its minutes; a negative one gives negative hours and minutes between -60 and 0 |
| Ticket.TicketDurationAsWritten | frontend/src/components/BookingTicket.jsx:42-53 | a duration is shown exactly when both instants are valid; a non-negative difference shows whole hours and 0-59 minutes adding up to its minutes, and a negative one shows negative hours |
| Ticket.OvernightDurationAsWritten | frontend/src/components/BookingTicket.jsx:42-53 | departing 23:30 and arriving 01:00 shows -23 h -30 min; any arrival before departure on the travel day shows negative hours |
| Ticket.RolledArrivalAfterDeparture | frontend/src/components/BookingTicket.jsx:42-48 | with the next-day rule, arrival is after departure by at most one day |
| Ticket.TicketDuration | frontend/src/components/BookingTicket.jsx:42-53 | with the next-day rule, a duration is shown exactly when both instants are valid, and on a travel day it is 0 to 24 hours and 0 to 59 minutes |
| Ticket.TicketDurationCorrected | frontend/src/components/BookingTicket.jsx:42-53 | with the next-day rule, the duration is never negative and at most 24 h, and it matches BookingTicket.jsx when the flight lands the same day |
| Ticket.OvernightDurationCorrected | frontend/src/components/BookingTicket.jsx:42-53 | with the next-day rule, 23:30 to 01:00 shows 1 h 30 min |
| Ticket.DailyTicketKeepsCreatedTimes | frontend/src/components/BookingTicket.jsx:42-48 | a daily flight's ticket departs and arrives on the travel day at the times of day the flight was created with |
| Ticket.StatusClass | frontend/src/components/BookingTicket.jsx:56-67 | the three known statuses map to "status-" plus the status; anything else maps to "status-default" |
| Ticket.StatusClassSeparatesKnown | frontend/src/components/BookingTicket.jsx:56-67 | the badge class of a known status belongs to no other status |
| Ticket.BackendBookingsHaveKnownBadge | frontend/src/components/BookingTicket.jsx:56-67 | no booking the backend stores gets the default badge |
| Ticket.Fares | frontend/src/components/BookingTicket.jsx:207-215 | both fare rows show the stored total, and the label says "passengers" exactly when the count is over one |
| AdminDashboard.WithTime | frontend/src/components/AdminDashboard.jsx:167-172 | handleTimeChange sets the named time field to the value and changes no other field |
| AdminDashboard.Toggled | frontend/src/components/AdminDashboard.jsx:268-275 | ticking or clearing Daily sets is_daily and empties both times, changing no other field |
| AdminDashboard.TimeChangeTouchesOnlyItsField | frontend/src/components/AdminDashboard.jsx:167-172 | a time change sets the named field and keeps every other field |
| AdminDashboard.TimeChangesCommute | frontend/src/components/AdminDashboard.jsx:167-172 | changes to the two time fields commute, and the last value written to a field wins |
| AdminDashboard.ToggleDiscardsTimes | frontend/src/components/AdminDashboard.jsx:268-275 | the Daily checkbox sets is_daily and clears both times, forgetting any time entered before |
| AdminDashboard.PreparedTime | frontend/src/components/AdminDashboard.jsx:119-131 | a prepared value always carries a 'T', and a value that already has one is left alone |
| AdminDashboard.Prepared | frontend/src/components/AdminDashboard.jsx:112-131 | a non-daily form is posted as it is; a daily form's two times both carry a 'T'; no field other than the two times changes |
| AdminDashboard.PreparedTimeSplits | frontend/src/components/AdminDashboard.jsx:119-131 | splitting a prepared bare value at 'T' gives today's date and the value with ":00" appended |
| AdminDashboard.PreparedTimeOfDay | frontend/src/components/AdminDashboard.jsx:114-131 | a time input's "HH:MM" reaches the backend as HH:MM:00 on today's date |
| AdminDashboard.PreparedIdempotent | frontend/src/components/AdminDashboard.jsx:114-131 | preparing already-prepared data changes nothing |
| AdminDashboard.PreparedKeepsOtherFields | frontend/src/components/AdminDashboard.jsx:112-131 | a non-daily flight is posted untouched; other fields are never changed; a daily flight's two times both carry a date |
| AdminDashboard.PrepareFlightData | frontend/src/components/AdminDashboard.jsx:112-131 | the copy with its time fields overwritten in turn is the prepared form |
| AdminDashboard.Dashboard.constructor | frontend/src/components/AdminDashboard.jsx:11-22 | the form starts as the initial record, closed |
| AdminDashboard.Dashboard.HandleTimeChange | frontend/src/components/AdminDashboard.jsx:167-172 | the form becomes the old form with the named time set |
| AdminDashboard.Dashboard.ToggleDaily | frontend/src/components/AdminDashboard.jsx:268-275 | the form becomes the old form with is_daily set and both times cleared |
| AdminDashboard.Dashboard.AddFlight | frontend/src/components/AdminDashboard.jsx:112-150 | it posts the prepared form; on acceptance the form closes and equals the initial record exactly; on refusal nothing changes |
| AdminDashboard.DurationLabelAsWritten | frontend/src/components/AdminDashboard.jsx:432-436 | the label is "N/A" exactly when the duration is missing or 0 |
| AdminDashboard.DurationLabel | frontend/src/components/AdminDashboard.jsx:432-436 | with the next-day rule, the label is "N/A" exactly when the duration is missing, 0 or a whole day back |
| AdminDashboard.DurationLabelRoundTrip | frontend/src/components/AdminDashboard.jsx:432-436 | a positive duration's "<h>h <m>m" label reads back as that many minutes |
| AdminDashboard.NegativeDurationLabelAsWritten | frontend/src/components/AdminDashboard.jsx:432-436 | a stored duration of -90 is labelled "-2h -30m", which is not a readable duration |
| AdminDashboard.DurationLabelCorrected | frontend/src/components/AdminDashboard.jsx:432-436 | with the next-day rule, every daily duration gets a readable label of its true length, the same label as before for a same-day flight |
| AdminDashboard.CreatedDailyDurationInRange | backend/main.py:119-122 | a daily flight created from two times on one date has a duration of under a day either way; it is negative exactly for an overnight flight |
| AdminDashboard.SeatsShown | frontend/src/components/AdminDashboard.jsx:454-474 | every flight shows its capacity; a dated flight, and only a dated one, also shows its seats left |
| AdminDashboard.SeatsShownMatchBookings | frontend/src/components/AdminDashboard.jsx:454-474 | a daily flight shows its capacity; a dated flight shows capacity minus the seats its live bookings hold, out of capacity |
| TableFormat.ColumnWidthIsLongest | backend/view_database_features.py:18-21 | a column's width is the length of its longest entry among the header and the cells present |
| TableFormat.ColumnWidthStep | backend/view_database_features.py:19-21 | measuring one more row widens a column to that row's cell, if it has one |
| TableFormat.ColumnFitsWidest | backend/view_database_features.py:18-21 | in a well-shaped table every cell fits its column, and the width equals the header or some cell |
| TableFormat.PadRight | backend/view_database_features.py:24 | `{:<w}` keeps the text, pads it with spaces to width w, and never truncates |
| TableFormat.FormattedRows | backend/view_database_features.py:30-31 | one formatted line per row, in order |
| TableFormat.Table | backend/view_database_features.py:12-33 | no rows give "No data"; otherwise the table fails exactly when some row's cell count differs from the number of headers |
| TableFormat.MeasureColumns | backend/view_database_features.py:18-21 | the widths are updated in place to the column maxima; a row with more cells than headers raises |
| TableFormat.AppendRows | backend/view_database_features.py:30-31 | given rows no longer than the columns (measuring has refused the others), one formatted line per row is appended, in order; a row with fewer cells than columns raises, since `format` has no value for a field |
| TableFormat.SimpleTable | backend/view_database_features.py:12-33 | the result is "No data" for no rows, raises for a row with more cells than headers (while measuring) or fewer (while formatting), and otherwise is the header, separator and row lines joined by "\n" |
| TableFormat.RowAsLongAsSeparator | backend/view_database_features.py:24-31 | a line whose cells fit their columns is exactly as long as the dashes |
| TableFormat.TableLinesAligned | backend/view_database_features.py:27-31 | the table has len(data) + 2 lines, all of the same length |
| TableFormat.TableSplitsIntoLines | backend/view_database_features.py:27-33 | when no cell has a line break, the output splits back into exactly those len(data) + 2 lines |
| SqlScript.KeptComesFromPieces | backend/setup_advanced_features.py:18-21 | each executed statement is one stripped piece that is neither empty nor a comment |
| SqlScript.Statements | backend/setup_advanced_features.py:18-21 | a script runs at most one statement per ';'-separated piece, and none of them is empty or starts with a comment marker |
| SqlScript.Failures | backend/setup_advanced_features.py:22-27 | only executed statements are reported as errors |
| SqlScript.ExecuteSqlScript | backend/setup_advanced_features.py:12-27 | exactly the kept pieces are executed, once each, in order; the rejected ones are reported and the loop goes on |
| SqlScript.ExecutedStatementsAreClean | backend/setup_advanced_features.py:18-21 | an executed statement has no ';', no outer whitespace, and is neither empty nor a comment |
| SqlScript.StatementsConcat | backend/setup_advanced_features.py:18-19 | a script cut in two at a ';' runs the first half's statements, then the second's |
| SqlScript.RejectionsDoNotStopTheScript | backend/setup_advanced_features.py:22-27 | errors never stop the loop: with no rejections nothing is reported, and with all rejected every statement is |
| SqlScript.CommentSwallowsStatement | backend/setup_advanced_features.py:21 | a piece that opens with a comment is skipped whole, including the SQL after the comment line |

## Left out

- Authentication is not modelled: JWT decoding, password hashing, token expiry. The caller and their user type are given as inputs.
- SQLAlchemy sessions and commits are not modelled. Each endpoint runs as one atomic step over the tables. The intermediate commits of create_booking are shown only as the order of the in-place updates.
- PNR numbers and transaction ids come from a random source, so they are parameters.
- BookingApi.Book: a PNR equal to a stored one would fail the commit (the pnr_number column is unique, backend/database.py:113); the model takes the PNR as given and does not model that collision.
- Auto-increment ids are modelled as a counter for flights and as positions for bookings. Bookings are never deleted.
- BookingApi.CreateFlight: the new id is the next value of a counter that never goes back. SQLite's INTEGER PRIMARY KEY without AUTOINCREMENT hands out the largest id in use plus one, so an id can be reused: with flights 1 and 2, deleting 2 and creating a flight gives id 2 there and id 3 in the model.
- BookingApi.DeleteFlight: a booking whose flight id has been cleared cannot be serialised by the booking list (`flight_id: int` in backend/models.py:69); the model keeps the cleared booking and does not model that response failure.
- Prices and amounts are Float columns; the model uses integers. Occupancy percentages and SQL rounding are left out.
- Time zones, locale formatting (`toLocaleString`) and the browser's general `Date` parsing are left out.
  - Clock.ParseHms: accepts only the "HH:MM:SS" form that the backend writes. Other strings count as an invalid date.
  - Ticket: the travel date is taken to be a calendar date. The ticket's booking-detail endpoint is not part of this model, so the exact text of `travel_date` is not known.
- BookingApi.SearchFlights: the `date` query parameter is a string compared against stored datetimes. It is modelled as a day number, so "departs on or after that day" is an integer comparison.
- The `weekdays` column is not modelled, because no code in the core reads it.
- SQL triggers, views, indexes and migrations are not modelled. They are DDL run by SQLite, and the triggers would double the seat updates the endpoints already make.
- The admin listing endpoints (get_all_flights, get_all_bookings) and the airlines list are not modelled. They are unfiltered reads of a table.
- Console output is not modelled: the printed tables, the "Executed"/"Error" lines and `print_section`.
- SqlScript.ExecuteSqlScript: reading the script file is left to the caller. The database's verdict on each statement is a parameter, judged given the statements sent before it.
- TableFormat.SimpleTable: cells are given already converted to text, since `str()` of arbitrary values is not modelled. The IndexError of a badly shaped row is the None result.
- FetchFlights, deleteFlight, the alert messages and the rest of the dashboard's HTTP plumbing are not modelled: they are network calls and rendering.

## Findings

| source | as written | input that shows it | evidently intended | confidence | as-written member | corrected member |
|---|---|---|---|---|---|---|
| frontend/src/components/BookingTicket.jsx:42-53 | arrival minus departure, both put on the travel date, with no next-day adjustment | a booking whose travel_date reaches the ticket as a bare "YYYY-MM-DD" date (the booking-detail endpoint the ticket reads is not part of this model; a full serialised datetime would instead make `new Date` invalid and show no duration at all), on a daily flight with departure_time_only "23:30:00" and arrival_time_only "01:00:00", shows durationHours -23 and durationMinutes -30 | the arrival rolls to the next day, so the ticket shows 1 h 30 min and never a negative duration | not executed | Ticket.OvernightDurationAsWritten | Ticket.TicketDurationCorrected |
| frontend/src/components/AdminDashboard.jsx:432-436 | Math.floor(d / 60) hours with d % 60 minutes, applied to the stored duration_minutes, which is negative for an overnight daily flight (both times are put on the same date before posting) | duration_minutes -90 is labelled "-2h -30m" | the flight's true length, 22h 30m | not executed | AdminDashboard.NegativeDurationLabelAsWritten | AdminDashboard.DurationLabelCorrected |
