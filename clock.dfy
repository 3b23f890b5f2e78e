/** Time arithmetic shared by the backend and the front end. Instants are
    integer counts from the epoch (seconds in the backend, milliseconds in the
    browser), calendar dates are day numbers, and the rounding rules of
    Python's int() and JavaScript's `%` are written out, since Dafny's
    division and remainder are Euclidean. */
module Clock {
  import opened Wrappers
  import opened Text

  const SecondsPerMinute: int := 60
  const SecondsPerHour: int := 3600
  const SecondsPerDay: int := 86400
  const MsPerSecond: int := 1000
  const MsPerMinute: int := 60000
  const MsPerHour: int := 3600000
  const MsPerDay: int := 86400000

  /** The calendar date of an instant given in seconds, as datetime.date() gives it. */
  function DayOf(ts: int): (day: int)
    ensures day * SecondsPerDay <= ts < (day + 1) * SecondsPerDay
  {
    ts / SecondsPerDay
  }

  /** Python's int(a / b) for b > 0: the quotient rounded toward zero. */
  function TruncDiv(a: int, b: int): (q: int)
    requires b > 0
    ensures a >= 0 ==> q >= 0 && q * b <= a < (q + 1) * b
    ensures a < 0 ==> q <= 0 && (q - 1) * b < a <= q * b
  {
    var q := if a >= 0 then a / b else -((-a) / b);
    TruncDivBrackets(a, b, q);
    q
  }

  lemma TruncDivBrackets(a: int, b: int, q: int)
    requires b > 0
    requires q == if a >= 0 then a / b else -((-a) / b)
    ensures a >= 0 ==> q >= 0 && q * b <= a < (q + 1) * b
    ensures a < 0 ==> q <= 0 && (q - 1) * b < a <= q * b
  {
    if a >= 0 {
      DivBounds(a, b);
      assert (q + 1) * b == q * b + b;
    } else {
      var p := (-a) / b;
      DivBounds(-a, b);
      assert q * b == -(p * b);
      assert (q - 1) * b == -(p * b) - b;
    }
  }

  /** Euclidean division of a natural number brackets it between two multiples. */
  lemma DivBounds(n: nat, b: int)
    requires b > 0
    ensures 0 <= n / b && (n / b) * b <= n < (n / b) * b + b
  {
    assert n == (n / b) * b + n % b;
  }

  /** JavaScript's a % b for b > 0: the remainder takes the sign of the dividend. */
  function JsRem(a: int, b: int): (r: int)
    requires b > 0
    ensures a >= 0 ==> 0 <= r < b
    ensures a < 0 ==> -b < r <= 0
    ensures a == TruncDiv(a, b) * b + r
  {
    if a >= 0 then a % b
    else
      assert -a == ((-a) / b) * b + (-a) % b;
      -((-a) % b)
  }

  /** The time of day of an instant in seconds, written as strftime("%H:%M:%S") writes it. */
  function FormatHms(ts: int): (s: string)
    ensures |s| == 8 && s[2] == ':' && s[5] == ':'
  {
    var t := ts % SecondsPerDay;
    Pad2(t / SecondsPerHour) + ":" + Pad2(t % SecondsPerHour / SecondsPerMinute) + ":" + Pad2(t % SecondsPerMinute)
  }

  /** Reads an "HH:MM:SS" time of day into seconds after midnight; any other
      string gives None, the browser's Invalid Date. */
  function ParseHms(s: string): (r: Option<int>)
    ensures r.Some? ==> 0 <= r.value < SecondsPerDay
  {
    if |s| == 8 && s[2] == ':' && s[5] == ':' && AllDigits(s[..2]) && AllDigits(s[3..5]) && AllDigits(s[6..]) then
      var h, m, sec := DigitsValue(s[..2]), DigitsValue(s[3..5]), DigitsValue(s[6..]);
      if h < 24 && m < 60 && sec < 60 then Some(h * SecondsPerHour + m * SecondsPerMinute + sec) else None
    else None
  }

  /** Reading back a formatted time of day gives the instant's seconds after midnight. */
  lemma HmsRoundTrip(ts: int)
    ensures ParseHms(FormatHms(ts)) == Some(ts % SecondsPerDay)
  {
    var t := ts % SecondsPerDay;
    var h, m, sec := t / SecondsPerHour, t % SecondsPerHour / SecondsPerMinute, t % SecondsPerMinute;
    var s := FormatHms(ts);
    assert s[..2] == Pad2(h);
    assert s[3..5] == Pad2(m);
    assert s[6..] == Pad2(sec);
    assert h * SecondsPerHour + m * SecondsPerMinute + sec == t;
  }
}
