/** The admin dashboard's flight form and flight list: the form record and its
    setters, the preparation of a daily flight's time strings before the form
    is posted, the duration label and the seat count shown for each flight. */
module AdminDashboard {
  import opened Wrappers
  import opened Text
  import opened Clock
  import BookingApi

  /** The newFlight form record; the time fields hold what the time or
      datetime-local inputs produce ("HH:MM" or "YYYY-MM-DDTHH:MM"). */
  datatype FlightForm = FlightForm(
    flightNumber: string,
    airlineId: int,
    sourceCity: string,
    destinationCity: string,
    departureTime: string,
    arrivalTime: string,
    totalSeats: int,
    price: int,
    isDaily: bool)

  /** The form as the dashboard first shows it, and as it is reset after a flight is added. */
  const InitialForm := FlightForm("", 1, "", "", "", "", 180, 0, false)

  /** The two fields handleTimeChange is called with. */
  datatype TimeField = DepartureTime | ArrivalTime

  // ---------------------------------------------------------------------------
  // Form updates

  /** The form after handleTimeChange(field, value). */
  function WithTime(form: FlightForm, field: TimeField, value: string): (r: FlightForm)
    ensures field == DepartureTime ==> r.departureTime == value && r.arrivalTime == form.arrivalTime
    ensures field == ArrivalTime ==> r.arrivalTime == value && r.departureTime == form.departureTime
    ensures r.(departureTime := form.departureTime, arrivalTime := form.arrivalTime) == form
  {
    match field
    case DepartureTime => form.(departureTime := value)
    case ArrivalTime => form.(arrivalTime := value)
  }

  /** The form after the Daily checkbox is set to checked: both times are cleared. */
  function Toggled(form: FlightForm, checked: bool): (r: FlightForm)
    ensures r.isDaily == checked && r.departureTime == "" && r.arrivalTime == ""
    ensures r.(isDaily := form.isDaily, departureTime := form.departureTime, arrivalTime := form.arrivalTime) == form
  {
    form.(isDaily := checked, departureTime := "", arrivalTime := "")
  }

  /** A time change sets the named field to the value and leaves every other field as it was. */
  lemma TimeChangeTouchesOnlyItsField(form: FlightForm, field: TimeField, value: string)
    ensures var g := WithTime(form, field, value);
      (if field == DepartureTime then g.departureTime == value && g.arrivalTime == form.arrivalTime
       else g.arrivalTime == value && g.departureTime == form.departureTime)
      && g.(departureTime := "", arrivalTime := "") == form.(departureTime := "", arrivalTime := "")
  {
  }

  /** Changing one time field never affects a later change of the other, and the last value written wins. */
  lemma TimeChangesCommute(form: FlightForm, u: string, v: string, w: string)
    ensures WithTime(WithTime(form, DepartureTime, u), ArrivalTime, v) == WithTime(WithTime(form, ArrivalTime, v), DepartureTime, u)
    ensures WithTime(WithTime(form, DepartureTime, u), DepartureTime, w) == WithTime(form, DepartureTime, w)
  {
  }

  /** Switching between daily and dated flights forgets whatever times were entered
      before, so a daily flight is never posted with a leftover date-and-time value. */
  lemma ToggleDiscardsTimes(form: FlightForm, field: TimeField, value: string, checked: bool)
    ensures Toggled(WithTime(form, field, value), checked) == Toggled(form, checked)
    ensures Toggled(form, checked).departureTime == "" && Toggled(form, checked).arrivalTime == ""
    ensures Toggled(form, checked).isDaily == checked
  {
  }

  // ---------------------------------------------------------------------------
  // Preparing a daily flight's times

  /** A daily flight's time value as addFlight posts it: a value that already has
      a 'T' is kept; a bare "HH:MM" gets today's date in front and ":00" after. */
  function PreparedTime(value: string, today: string): (r: string)
    ensures 'T' in r
    ensures 'T' in value ==> r == value
  {
    if 'T' in value then value
    else
      var r := today + "T" + value + ":00";
      assert r[|today|] == 'T';
      r
  }

  /** The flight data addFlight posts for a form. */
  function Prepared(form: FlightForm, today: string): (r: FlightForm)
    ensures !form.isDaily ==> r == form
    ensures form.isDaily ==> 'T' in r.departureTime && 'T' in r.arrivalTime
    ensures r.(departureTime := form.departureTime, arrivalTime := form.arrivalTime) == form
  {
    if form.isDaily then
      form.(departureTime := PreparedTime(form.departureTime, today), arrivalTime := PreparedTime(form.arrivalTime, today))
    else form
  }

  /** A bare time value comes back out of the prepared string: splitting it at
      'T' gives today's date and the time with seconds ":00" appended. */
  lemma PreparedTimeSplits(value: string, today: string)
    requires 'T' !in value && 'T' !in today
    ensures Split(PreparedTime(value, today), 'T') == [today, value + ":00"]
  {
    var tail := value + ":00";
    assert 'T' !in tail by {
      forall k | 0 <= k < |tail| ensures tail[k] != 'T' {
        if k >= |value| {
          assert tail[k] == ":00"[k - |value|];
        } else {
          assert tail[k] == value[k];
        }
      }
    }
    assert PreparedTime(value, today) == today + ['T'] + tail;
    SplitAtFirst(today, 'T', tail);
    SplitWithoutSeparator(tail, 'T');
  }

  /** The time of day a time input gives as "HH:MM" reaches the backend as the
      time HH:MM:00 of today's date. */
  lemma PreparedTimeOfDay(h: nat, m: nat, today: string)
    requires h < 24 && m < 60 && 'T' !in today
    ensures var parts := Split(PreparedTime(Pad2(h) + ":" + Pad2(m), today), 'T');
      |parts| == 2 && parts[0] == today && ParseHms(parts[1]) == Some(h * SecondsPerHour + m * SecondsPerMinute)
  {
    var value := Pad2(h) + ":" + Pad2(m);
    assert 'T' !in value by {
      forall k | 0 <= k < |value| ensures value[k] != 'T' {
        if k < 2 { assert IsDigit(Pad2(h)[k]); }
        else if k > 2 { assert IsDigit(Pad2(m)[k - 3]); }
      }
    }
    PreparedTimeSplits(value, today);
    var t := value + ":00";
    assert t[..2] == Pad2(h);
    assert t[3..5] == Pad2(m);
    assert t[6..] == "00";
    assert DigitsValue("00") == 0 by {
      assert "00"[..1] == "0";
      assert "0"[..0] == [];
    }
  }

  /** Preparing is done once: the posted data is already prepared. */
  lemma PreparedIdempotent(form: FlightForm, today: string)
    ensures Prepared(Prepared(form, today), today) == Prepared(form, today)
  {
  }

  /** A dated flight's values are posted untouched, and so is every field other
      than the two times; for a daily flight both times carry a date. */
  lemma PreparedKeepsOtherFields(form: FlightForm, today: string)
    ensures !form.isDaily ==> Prepared(form, today) == form
    ensures Prepared(form, today).(departureTime := "", arrivalTime := "") == form.(departureTime := "", arrivalTime := "")
    ensures form.isDaily ==> 'T' in Prepared(form, today).departureTime && 'T' in Prepared(form, today).arrivalTime
  {
  }

  /** addFlight's copy of the form with the time fields overwritten one after the other. */
  method PrepareFlightData(form: FlightForm, today: string) returns (data: FlightForm)
    ensures data == Prepared(form, today)
  {
    data := form;
    if data.isDaily {
      if 'T' !in data.departureTime {
        data := data.(departureTime := today + "T" + data.departureTime + ":00");
      }
      if 'T' !in data.arrivalTime {
        data := data.(arrivalTime := today + "T" + data.arrivalTime + ":00");
      }
    }
  }

  /** The form state of the dashboard. */
  class Dashboard {
    var newFlight: FlightForm
    var showAddFlight: bool

    constructor ()
      ensures newFlight == InitialForm && !showAddFlight
    {
      newFlight := InitialForm;
      showAddFlight := false;
    }

    /** handleTimeChange(field, value). */
    method HandleTimeChange(field: TimeField, value: string)
      modifies this
      ensures newFlight == WithTime(old(newFlight), field, value)
      ensures showAddFlight == old(showAddFlight)
    {
      match field
      case DepartureTime => newFlight := newFlight.(departureTime := value);
      case ArrivalTime => newFlight := newFlight.(arrivalTime := value);
    }

    /** The Daily checkbox's change handler. */
    method ToggleDaily(checked: bool)
      modifies this
      ensures newFlight == Toggled(old(newFlight), checked)
      ensures showAddFlight == old(showAddFlight)
    {
      newFlight := newFlight.(isDaily := checked, departureTime := "", arrivalTime := "");
    }

    /** addFlight: prepares the data to post; when the server accepts it, the
        form closes and goes back to its initial values; when it refuses, the
        form stays as it was. The server's answer is a parameter. */
    method AddFlight(today: string, accepted: bool) returns (data: FlightForm)
      modifies this
      ensures data == Prepared(old(newFlight), today)
      ensures accepted ==> newFlight == InitialForm && !showAddFlight
      ensures !accepted ==> newFlight == old(newFlight) && showAddFlight == old(showAddFlight)
    {
      data := PrepareFlightData(newFlight, today);
      if accepted {
        showAddFlight := false;
        newFlight := FlightForm("", 1, "", "", "", "", 180, 0, false);
      }
    }
  }

  // ---------------------------------------------------------------------------
  // Duration label

  /** The label shown for a daily flight's duration_minutes: "N/A" when it is
      missing or 0, otherwise Math.floor(d / 60) hours and d % 60 minutes (for a
      positive divisor Dafny's `/` is the floor; `%` is JavaScript's). */
  function DurationLabelAsWritten(duration: Option<int>): (shown: string)
    ensures (shown == "N/A") <==> (duration.None? || duration.value == 0)
  {
    if duration.None? || duration.value == 0 then "N/A"
    else
      var text := IntToString(duration.value / 60) + "h " + IntToString(JsRem(duration.value, 60)) + "m";
      assert text[|text| - 1] == 'm';
      text
  }

  /** Reads a label "<hours>h <minutes>m" with non-negative hours and 0 to 59 minutes back into minutes. */
  function ReadDurationLabel(text: string): Option<int>
  {
    var parts := Split(text, 'h');
    if |parts| == 2 && |parts[1]| >= 2 && parts[1][0] == ' ' && parts[1][|parts[1]| - 1] == 'm' then
      var hours, minutes := ParseNat(parts[0]), ParseNat(parts[1][1..|parts[1]| - 1]);
      if hours.Some? && minutes.Some? && minutes.value < 60 then Some(hours.value * 60 + minutes.value) else None
    else None
  }

  lemma DigitsHaveNoH(s: string)
    requires AllDigits(s)
    ensures 'h' !in s
  {
    forall k | 0 <= k < |s| ensures s[k] != 'h' {
      assert IsDigit(s[k]);
    }
  }

  /** The label of m = 60 * h + r minutes, for h >= 0 and 0 <= r < 60, reads back as m. */
  lemma LabelPartsRoundTrip(h: nat, r: nat)
    requires r < 60
    ensures ReadDurationLabel(NatToString(h) + "h " + NatToString(r) + "m") == Some(h * 60 + r)
  {
    var hs, rs := NatToString(h), NatToString(r);
    LabelSplits(hs, rs);
    var tail := " " + rs + "m";
    assert tail[1..|tail| - 1] == rs;
    NatToStringRoundTrip(h);
    NatToStringRoundTrip(r);
  }

  /** A label built from two digit strings splits at its one 'h'. */
  lemma LabelSplits(hs: string, rs: string)
    requires AllDigits(hs) && AllDigits(rs)
    ensures Split(hs + "h " + rs + "m", 'h') == [hs, " " + rs + "m"]
  {
    var tail := " " + rs + "m";
    DigitsHaveNoH(hs);
    assert 'h' !in tail by {
      DigitsHaveNoH(rs);
      forall k | 0 <= k < |tail| ensures tail[k] != 'h' {
        if 1 <= k <= |rs| { assert tail[k] == rs[k - 1]; }
      }
    }
    assert hs + "h " + rs + "m" == hs + ['h'] + tail;
    SplitAtFirst(hs, 'h', tail);
    SplitWithoutSeparator(tail, 'h');
  }

  /** A positive duration's label reads back as that duration. */
  lemma DurationLabelRoundTrip(d: int)
    requires d > 0
    ensures ReadDurationLabel(DurationLabelAsWritten(Some(d))) == Some(d)
  {
    LabelPartsRoundTrip(d / 60, d % 60);
  }

  /** An overnight daily flight stored with -90 minutes is labelled "-2h -30m":
      the floor of the hours and the sign-keeping remainder together read as
      -150 minutes, and the label is not a duration at all. */
  lemma NegativeDurationLabelAsWritten()
    ensures DurationLabelAsWritten(Some(-90)) == "-2h -30m"
    ensures ReadDurationLabel(DurationLabelAsWritten(Some(-90))) == None
  {
    NegativeLabelText();
    NegativeLabelUnreadable();
  }

  lemma NegativeLabelText()
    ensures DurationLabelAsWritten(Some(-90)) == "-2h -30m"
  {
    assert -90 / 60 == -2 && JsRem(-90, 60) == -30;
    assert IntToString(-2) == "-2" by {
      assert NatToString(2) == "2";
    }
    assert IntToString(-30) == "-30" by {
      assert NatToString(30) == NatToString(3) + [DigitChar(0)] == "30";
    }
  }

  lemma NegativeLabelUnreadable()
    ensures ReadDurationLabel("-2h -30m") == None
  {
    assert "-2h -30m" == "-2" + ['h'] + " -30m";
    SplitAtFirst("-2", 'h', " -30m");
    SplitWithoutSeparator(" -30m", 'h');
    assert !IsDigit('-');
    assert !AllDigits("-2");
  }

  /** A daily flight's duration rolled into the next day when the arrival time of
      day comes before the departure time of day. */
  function RolledMinutes(d: int): int
  {
    if d < 0 then d + 24 * 60 else d
  }

  /** The label with overnight flights shown by their true length. */
  function DurationLabel(duration: Option<int>): (r: string)
    ensures r == "N/A" <==> duration.None? || duration.value == 0 || duration.value == -24 * 60
  {
    if duration.None? then "N/A" else DurationLabelAsWritten(Some(RolledMinutes(duration.value)))
  }

  /** Every duration a daily flight can have (less than a day either way, not 0)
      is labelled with whole hours and 0 to 59 minutes that read back as its
      length, the same label as before for a flight that lands the same day. */
  lemma DurationLabelCorrected(d: int)
    requires -24 * 60 < d < 24 * 60 && d != 0
    ensures ReadDurationLabel(DurationLabel(Some(d))) == Some(RolledMinutes(d))
    ensures 0 < RolledMinutes(d) < 24 * 60
    ensures d > 0 ==> DurationLabel(Some(d)) == DurationLabelAsWritten(Some(d))
  {
    DurationLabelRoundTrip(RolledMinutes(d));
  }

  /** A daily flight the backend creates from two times on the same date has a
      duration that DurationLabelCorrected covers; the overnight case is exactly
      the one with a negative stored duration. */
  lemma CreatedDailyDurationInRange(req: BookingApi.FlightCreate, user: BookingApi.User)
    requires req.isDaily && DayOf(req.departureTime) == DayOf(req.arrivalTime)
    ensures var d := BookingApi.NewFlight(req, user).durationMinutes;
      d.Some? && -24 * 60 < d.value < 24 * 60
      && (d.value < 0 <==> req.arrivalTime - req.departureTime <= -SecondsPerMinute)
  {
  }

  // ---------------------------------------------------------------------------
  // Seats shown in the flight list

  datatype SeatsDisplay =
    | DailySeats(total: int)                 // "<total> seats available daily"
    | SeatsLeft(available: int, total: int)  // "<available> / <total> seats"

  function SeatsShown(f: BookingApi.Flight): (r: SeatsDisplay)
    ensures r.total == f.totalSeats
    ensures r.SeatsLeft? <==> !f.isDaily
    ensures r.SeatsLeft? ==> r.available == f.availableSeats
  {
    if f.isDaily then DailySeats(f.totalSeats) else SeatsLeft(f.availableSeats, f.totalSeats)
  }

  /** In a consistent store a dated flight shows its capacity less what its live
      bookings hold, and a daily flight shows its capacity whatever is booked. */
  lemma SeatsShownMatchBookings(t: BookingApi.Tables, id: int)
    requires BookingApi.Invariant(t) && id in t.flights
    ensures var f := t.flights[id];
      SeatsShown(f) == if f.isDaily then DailySeats(f.totalSeats)
                       else SeatsLeft(f.totalSeats - BookingApi.Reserved(t.bookings, id), f.totalSeats)
  {
  }
}
