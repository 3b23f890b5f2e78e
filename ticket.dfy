/** The computed parts of the booking ticket (BookingTicket.jsx): the departure
    and arrival instants shown on the ticket, the flight duration split into
    hours and minutes, the status badge class and the fare rows.

    Instants are milliseconds from the epoch, as JavaScript's Date holds them;
    the travel date is a day number; None stands for the browser's Invalid Date. */
module Ticket {
  import opened Wrappers
  import opened Text
  import opened Clock
  import BookingApi

  /** The flight fields of a booking's detail that the ticket reads. */
  datatype TicketFlight = TicketFlight(
    departureTime: int,
    arrivalTime: int,
    departureTimeOnly: Option<string>,
    arrivalTimeOnly: Option<string>)

  /** `time || "00:00:00"`: a missing or empty time of day means midnight. */
  function TimeOrMidnight(time: Option<string>): string
  {
    if time.None? || time.value == "" then "00:00:00" else time.value
  }

  /** new Date(`${travel_date}T${time}`): that time of day on the travel day. */
  function OnTravelDay(day: int, time: string): (r: Option<int>)
    ensures r.Some? ==> day * MsPerDay <= r.value < (day + 1) * MsPerDay
  {
    match ParseHms(time)
    case None => None
    case Some(secs) => Some(day * MsPerDay + secs * MsPerSecond)
  }

  /** departureTime: the travel day at the flight's departure time of day, or else the flight's own departure instant. */
  function DepartureInstant(travelDay: Option<int>, f: TicketFlight): (r: Option<int>)
    ensures travelDay.None? ==> r == Some(f.departureTime)
    ensures travelDay.Some? && r.Some? ==> travelDay.value * MsPerDay <= r.value < (travelDay.value + 1) * MsPerDay
  {
    if travelDay.Some? then OnTravelDay(travelDay.value, TimeOrMidnight(f.departureTimeOnly)) else Some(f.departureTime)
  }

  /** arrivalTime: the travel day at the flight's arrival time of day, or else the flight's own arrival instant. */
  function ArrivalInstant(travelDay: Option<int>, f: TicketFlight): (r: Option<int>)
    ensures travelDay.None? ==> r == Some(f.arrivalTime)
    ensures travelDay.Some? && r.Some? ==> travelDay.value * MsPerDay <= r.value < (travelDay.value + 1) * MsPerDay
  {
    if travelDay.Some? then OnTravelDay(travelDay.value, TimeOrMidnight(f.arrivalTimeOnly)) else Some(f.arrivalTime)
  }

  /** Without a travel date the ticket shows the flight's stored instants unchanged;
      with one, both instants fall on the travel day, and a missing or empty time
      of day is midnight. */
  lemma TicketInstants(travelDay: Option<int>, f: TicketFlight)
    ensures travelDay.None? ==> DepartureInstant(travelDay, f) == Some(f.departureTime) && ArrivalInstant(travelDay, f) == Some(f.arrivalTime)
    ensures travelDay.Some? && (f.departureTimeOnly.None? || f.departureTimeOnly.value == "") ==>
      DepartureInstant(travelDay, f) == Some(travelDay.value * MsPerDay)
    ensures travelDay.Some? && (f.arrivalTimeOnly.None? || f.arrivalTimeOnly.value == "") ==>
      ArrivalInstant(travelDay, f) == Some(travelDay.value * MsPerDay)
    ensures travelDay.Some? && DepartureInstant(travelDay, f).Some? ==>
      travelDay.value * MsPerDay <= DepartureInstant(travelDay, f).value < (travelDay.value + 1) * MsPerDay
    ensures travelDay.Some? && ArrivalInstant(travelDay, f).Some? ==>
      travelDay.value * MsPerDay <= ArrivalInstant(travelDay, f).value < (travelDay.value + 1) * MsPerDay
  {
    assert ParseHms("00:00:00") == Some(0) by {
      var s := "00:00:00";
      assert s[..2] == "00" && s[3..5] == "00" && s[6..] == "00";
      assert DigitsValue("0") == 0 by { assert "0"[..0] == []; }
      assert "00"[..1] == "0";
    }
  }

  lemma SplitNonNegative(durationMs: int)
    requires durationMs >= 0
    ensures durationMs / MsPerHour * 60 + durationMs % MsPerHour / MsPerMinute == durationMs / MsPerMinute
  {
    var h, r := durationMs / MsPerHour, durationMs % MsPerHour;
    var m, q := r / MsPerMinute, r % MsPerMinute;
    assert durationMs == (h * 60 + m) * MsPerMinute + q;
  }

  /** durationHours and durationMinutes: Math.floor(ms / 3600000) and
      Math.floor((ms % 3600000) / 60000), with JavaScript's remainder. A
      non-negative duration splits into whole hours and 0 to 59 minutes that
      add up to its whole minutes; a negative one gives negative hours and
      minutes between -60 and 0. */
  function SplitDuration(durationMs: int): (hm: (int, int))
    ensures durationMs >= 0 ==> hm.0 >= 0 && 0 <= hm.1 <= 59 && hm.0 * 60 + hm.1 == durationMs / MsPerMinute
    ensures durationMs < 0 ==> hm.0 < 0 && -60 <= hm.1 <= 0
  {
    if durationMs >= 0 then SplitNonNegative(durationMs); (durationMs / MsPerHour, JsRem(durationMs, MsPerHour) / MsPerMinute)
    else (durationMs / MsPerHour, JsRem(durationMs, MsPerHour) / MsPerMinute)
  }

  /** The duration the ticket displays, as written: arrival minus departure, with
      no next-day adjustment. */
  function TicketDurationAsWritten(travelDay: Option<int>, f: TicketFlight): (r: Option<(int, int)>)
    ensures r.Some? <==> DepartureInstant(travelDay, f).Some? && ArrivalInstant(travelDay, f).Some?
    ensures r.Some? ==> var d := ArrivalInstant(travelDay, f).value - DepartureInstant(travelDay, f).value;
      (d >= 0 ==> r.value.0 >= 0 && 0 <= r.value.1 <= 59 && r.value.0 * 60 + r.value.1 == d / MsPerMinute)
      && (d < 0 ==> r.value.0 < 0)
  {
    var dep := DepartureInstant(travelDay, f);
    var arr := ArrivalInstant(travelDay, f);
    if dep.Some? && arr.Some? then Some(SplitDuration(arr.value - dep.value)) else None
  }

  /** As written, an overnight daily flight's ticket shows a negative duration:
      departing 23:30 and arriving 01:00 shows "-23h -30m" instead of "1h 30m",
      and whenever the arrival time of day comes before the departure time of day
      the hours shown are negative. */
  lemma OvernightDurationAsWritten(day: int, depMs: int, arrMs: int)
    ensures TicketDurationAsWritten(Some(day), TicketFlight(depMs, arrMs, Some("23:30:00"), Some("01:00:00"))) == Some((-23, -30))
    ensures forall f: TicketFlight ::
      DepartureInstant(Some(day), f).Some? && ArrivalInstant(Some(day), f).Some? &&
      ArrivalInstant(Some(day), f).value < DepartureInstant(Some(day), f).value ==>
        TicketDurationAsWritten(Some(day), f).value.0 < 0
  {
    OvernightInstants(day, depMs, arrMs);
    var d := day * MsPerDay + 3600000 - (day * MsPerDay + 84600000);
    assert d == -81000000;
    assert SplitDuration(d) == (-23, -30) by {
      assert JsRem(d, MsPerHour) == -1800000;
    }
  }

  /** On the travel day, 23:30:00 and 01:00:00 are these instants. */
  lemma OvernightInstants(day: int, depMs: int, arrMs: int)
    ensures DepartureInstant(Some(day), TicketFlight(depMs, arrMs, Some("23:30:00"), Some("01:00:00"))) == Some(day * MsPerDay + 84600000)
    ensures ArrivalInstant(Some(day), TicketFlight(depMs, arrMs, Some("23:30:00"), Some("01:00:00"))) == Some(day * MsPerDay + 3600000)
  {
    ParseHalfPastEleven();
    ParseOneAm();
  }

  lemma ParseHalfPastEleven()
    ensures ParseHms("23:30:00") == Some(84600)
  {
    var s := "23:30:00";
    assert s[..2] == "23" && s[3..5] == "30" && s[6..] == "00";
    assert "23"[..1] == "2" && "30"[..1] == "3" && "00"[..1] == "0";
    assert "2"[..0] == [] && "3"[..0] == [] && "0"[..0] == [];
  }

  lemma ParseOneAm()
    ensures ParseHms("01:00:00") == Some(3600)
  {
    var s := "01:00:00";
    assert s[..2] == "01" && s[3..5] == "00" && s[6..] == "00";
    assert "01"[..1] == "0" && "00"[..1] == "0";
    assert "0"[..0] == [];
  }

  /** The arrival instant with the overnight rule: on a travel day, an arrival at
      or before the departure lands on the next day. */
  function RolledArrivalInstant(travelDay: Option<int>, f: TicketFlight): Option<int>
  {
    var dep := DepartureInstant(travelDay, f);
    var arr := ArrivalInstant(travelDay, f);
    if travelDay.Some? && dep.Some? && arr.Some? && arr.value <= dep.value then Some(arr.value + MsPerDay) else arr
  }

  /** The duration the ticket is evidently meant to display: arrival, rolled
      over to the next day when needed, minus departure. */
  function TicketDuration(travelDay: Option<int>, f: TicketFlight): (r: Option<(int, int)>)
    ensures r.Some? <==> DepartureInstant(travelDay, f).Some? && ArrivalInstant(travelDay, f).Some?
    ensures travelDay.Some? && r.Some? ==> 0 <= r.value.0 <= 24 && 0 <= r.value.1 <= 59
  {
    var dep := DepartureInstant(travelDay, f);
    var arr := RolledArrivalInstant(travelDay, f);
    if dep.Some? && arr.Some? then Some(SplitDuration(arr.value - dep.value)) else None
  }

  /** With the overnight rule the arrival on a travel day comes after the
      departure, by at most one day. */
  lemma RolledArrivalAfterDeparture(day: int, f: TicketFlight)
    requires DepartureInstant(Some(day), f).Some? && ArrivalInstant(Some(day), f).Some?
    ensures 0 < RolledArrivalInstant(Some(day), f).value - DepartureInstant(Some(day), f).value <= MsPerDay
  {
  }

  /** With the overnight rule a daily flight's ticket never shows a negative
      duration: whole hours and 0 to 59 minutes, at most 24 hours in all; and a
      flight that lands later the same day shows what BookingTicket.jsx shows. */
  lemma TicketDurationCorrected(day: int, f: TicketFlight)
    requires DepartureInstant(Some(day), f).Some? && ArrivalInstant(Some(day), f).Some?
    ensures TicketDuration(Some(day), f).Some?
    ensures var hm := TicketDuration(Some(day), f).value; 0 <= hm.0 && 0 <= hm.1 <= 59 && hm.0 * 60 + hm.1 <= 24 * 60
    ensures ArrivalInstant(Some(day), f).value > DepartureInstant(Some(day), f).value ==>
      TicketDuration(Some(day), f) == TicketDurationAsWritten(Some(day), f)
  {
    RolledArrivalAfterDeparture(day, f);
    var d := RolledArrivalInstant(Some(day), f).value - DepartureInstant(Some(day), f).value;
    assert d / MsPerMinute <= MsPerDay / MsPerMinute;
  }

  /** With the overnight rule, departing 23:30 and arriving 01:00 shows 1h 30m. */
  lemma OvernightDurationCorrected(day: int, depMs: int, arrMs: int)
    ensures TicketDuration(Some(day), TicketFlight(depMs, arrMs, Some("23:30:00"), Some("01:00:00"))) == Some((1, 30))
  {
    OvernightInstants(day, depMs, arrMs);
    var d := day * MsPerDay + 3600000 + MsPerDay - (day * MsPerDay + 84600000);
    assert d == 5400000;
    assert SplitDuration(d) == (1, 30);
  }

  /** The ticket view of a stored flight: the backend's seconds become milliseconds. */
  function TicketFlightOf(f: BookingApi.Flight): TicketFlight
  {
    TicketFlight(f.departureTime * MsPerSecond, f.arrivalTime * MsPerSecond, f.departureTimeOnly, f.arrivalTimeOnly)
  }

  /** The ticket of a daily flight departs and arrives on the travel day at the
      times of day of the instants the flight was created with. */
  lemma DailyTicketKeepsCreatedTimes(req: BookingApi.FlightCreate, user: BookingApi.User, day: int)
    requires req.isDaily
    ensures DepartureInstant(Some(day), TicketFlightOf(BookingApi.NewFlight(req, user))) ==
      Some(day * MsPerDay + (req.departureTime % SecondsPerDay) * MsPerSecond)
    ensures ArrivalInstant(Some(day), TicketFlightOf(BookingApi.NewFlight(req, user))) ==
      Some(day * MsPerDay + (req.arrivalTime % SecondsPerDay) * MsPerSecond)
  {
    var f := TicketFlightOf(BookingApi.NewFlight(req, user));
    assert f.departureTimeOnly == Some(FormatHms(req.departureTime));
    assert f.arrivalTimeOnly == Some(FormatHms(req.arrivalTime));
    StoredTimeOnTravelDay(day, req.departureTime);
    StoredTimeOnTravelDay(day, req.arrivalTime);
  }

  /** A time of day the backend stored, put on the travel day. */
  lemma StoredTimeOnTravelDay(day: int, ts: int)
    ensures OnTravelDay(day, TimeOrMidnight(Some(FormatHms(ts)))) == Some(day * MsPerDay + (ts % SecondsPerDay) * MsPerSecond)
  {
    HmsRoundTrip(ts);
  }

  predicate KnownStatus(status: string)
  {
    status == "confirmed" || status == "cancelled" || status == "pending"
  }

  /** getStatusColor: "status-" and the status for the three known statuses, "status-default" for anything else. */
  function StatusClass(status: string): (c: string)
    ensures KnownStatus(status) ==> c == "status-" + status
    ensures !KnownStatus(status) ==> c == "status-default"
  {
    match status
    case "confirmed" => "status-confirmed"
    case "cancelled" => "status-cancelled"
    case "pending" => "status-pending"
    case _ => "status-default"
  }

  /** The badge class tells a known status apart from every other status. */
  lemma StatusClassSeparatesKnown(s: string, other: string)
    requires KnownStatus(s) && StatusClass(s) == StatusClass(other)
    ensures other == s
  {
    var c := StatusClass(s);
    if KnownStatus(other) {
      assert c[7..] == s && StatusClass(other)[7..] == other;
    }
  }

  /** Every booking the backend keeps has a known status, so no ticket shows the default badge. */
  lemma BackendBookingsHaveKnownBadge(t: BookingApi.Tables, k: int)
    requires BookingApi.Invariant(t) && 0 <= k < |t.bookings|
    ensures StatusClass(t.bookings[k].bookingStatus) != "status-default"
  {
  }

  /** The fare section: the base-fare label and the two amounts shown. */
  datatype FareRows = FareRows(baseFareLabel: string, baseFare: int, total: int)

  /** Both rows show the stored total amount, which is never recomputed, and the
      label says "passengers" exactly when there is more than one. */
  function Fares(passengersCount: int, totalAmount: int): (r: FareRows)
    ensures r.baseFare == totalAmount && r.total == totalAmount
    ensures |r.baseFareLabel| >= 2 && (r.baseFareLabel[|r.baseFareLabel| - 2] == 's' <==> passengersCount > 1)
  {
    var caption := "Base Fare (x " + IntToString(passengersCount) + " passenger" + (if passengersCount > 1 then "s" else "") + ")";
    FareRows(caption, totalAmount, totalAmount)
  }
}
