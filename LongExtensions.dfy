/**
 * The extension methods on `long` of Epoch.net: a 64-bit count of
 * milliseconds since the Unix epoch turned into a `DateTime`, a `TimeSpan`,
 * or a 32-bit count of seconds, together with the range check on the latter.
 * The extension-method receiver `this long value` is an ordinary parameter.
 */
module LongExtensions {
  import opened Wrappers
  import opened Numerics
  import opened Time
  import opened Constants

  /** What the conversions can throw. */
  datatype Exception =
    | EpochTimeValueException(value: Int64)  // the library's own, carrying the offending input
    | OverflowException                      // thrown by `Convert.ToInt32`

  /** Milliseconds in a second: the divisor of `ToEpochTimestamp`. */
  const MILLISECONDS_PER_SECOND: Int64 := 1000

  /**
   * Whether `epoch`, read as seconds, is within the range of an `EpochTime`.
   * Every value it accepts fits in an `int`.
   */
  predicate IsValidEpochTimestamp(epoch: Int64)
    ensures IsValidEpochTimestamp(epoch) <==> MIN_VALUE_INT <= epoch <= MAX_VALUE_INT
    ensures IsValidEpochTimestamp(epoch) ==> INT32_MIN <= epoch <= INT32_MAX
  {
    epoch >= MIN_VALUE_INT && epoch <= MAX_VALUE_INT
  }

  /** The instant `value` milliseconds after (or, if negative, before) the Unix epoch. */
  function ToDateTime(value: Int64): (t: DateTime)
    ensures t.Subtract(UNIX_EPOCH) == FromMilliseconds(value)
  {
    UNIX_EPOCH.AddMilliseconds(value)
  }

  /** The span lasting `value` milliseconds. */
  function ToTimeSpan(value: Int64): (t: TimeSpan)
    ensures t.TotalMilliseconds() == value
  {
    FromMilliseconds(value)
  }

  /**
   * `value` milliseconds as whole seconds, the fraction dropped toward zero
   * (so -1500 ms is -1 s). Fails with an `EpochTimeValueException` carrying
   * the undivided input when the seconds are out of range; the narrowing to
   * `int` that follows the range check can then never overflow.
   */
  function ToEpochTimestamp(value: Int64): (r: Result<Int32, Exception>)
    ensures r.Success? <==> IsValidEpochTimestamp(Div(value, MILLISECONDS_PER_SECOND))
    ensures r.Success? ==> r.value == Div(value, MILLISECONDS_PER_SECOND)
    ensures r.Success? ==> MIN_VALUE_INT <= r.value <= MAX_VALUE_INT
    ensures r.Failure? ==> r.error == EpochTimeValueException(value)
  {
    var seconds := Div(value, MILLISECONDS_PER_SECOND);
    if IsValidEpochTimestamp(seconds) then
      match ToInt32(seconds)
      case Some(s) => Success(s)
      case None => Failure(OverflowException)
    else
      Failure(EpochTimeValueException(value))
  }

  // ---------------------------------------------------------------------
  // The range check

  /**
   * `Convert.ToInt32` keeps every value that passes the range check; when the
   * bounds are those of `int`, the two accept exactly the same values.
   */
  lemma IsValidEpochTimestampIsNarrowable(n: Int64)
    ensures IsValidEpochTimestamp(n) ==> ToInt32(n) == Some(n)
    ensures BoundsAreInt32Bounds() ==> (IsValidEpochTimestamp(n) <==> ToInt32(n).Some?)
  {
  }

  // ---------------------------------------------------------------------
  // Milliseconds to seconds

  /**
   * The conversion succeeds exactly on the milliseconds in
   * `[MIN_VALUE_INT * 1000 - 999, MAX_VALUE_INT * 1000 + 999]`, and fails
   * carrying the input everywhere else.
   */
  lemma ToEpochTimestampSucceedsIff(value: Int64)
    ensures ToEpochTimestamp(value).Success? <==>
      MIN_VALUE_INT * 1000 - 999 <= value <= MAX_VALUE_INT * 1000 + 999
    ensures ToEpochTimestamp(value).Failure? ==>
      ToEpochTimestamp(value) == Failure(EpochTimeValueException(value))
  {
  }

  /** Whole seconds, within range, convert back to themselves. */
  lemma ToEpochTimestampRoundTrip(s: Int32)
    requires MIN_VALUE_INT <= s <= MAX_VALUE_INT
    ensures ToEpochTimestamp(s * 1000) == Success(s)
  {
    DivOfMultiple(s, MILLISECONDS_PER_SECOND);
  }

  /**
   * The second-resolution timestamps the conversion can return are exactly
   * those in `[MIN_VALUE_INT, MAX_VALUE_INT]`: every one of them is reached.
   */
  lemma ToEpochTimestampRange(s: Int32)
    ensures (exists value: Int64 :: ToEpochTimestamp(value) == Success(s)) <==>
      MIN_VALUE_INT <= s <= MAX_VALUE_INT
  {
    if MIN_VALUE_INT <= s <= MAX_VALUE_INT {
      ToEpochTimestampRoundTrip(s);
      assert ToEpochTimestamp(s * 1000) == Success(s);
    }
  }

  /**
   * Converting the result back to milliseconds and again to seconds changes
   * nothing, and the whole second lies less than a second from the input,
   * on the side of the epoch.
   */
  lemma ToEpochTimestampWholeSecond(value: Int64)
    requires ToEpochTimestamp(value).Success?
    ensures var s := ToEpochTimestamp(value).value;
      && ToEpochTimestamp(s * 1000) == Success(s)
      && (value >= 0 ==> 0 <= value - s * 1000 < 1000)
      && (value <= 0 ==> -1000 < value - s * 1000 <= 0)
  {
    ToEpochTimestampRoundTrip(ToEpochTimestamp(value).value);
  }

  /** Of two inputs that both convert, the larger does not give fewer seconds. */
  lemma ToEpochTimestampMonotone(a: Int64, b: Int64)
    requires a <= b
    requires ToEpochTimestamp(a).Success? && ToEpochTimestamp(b).Success?
    ensures ToEpochTimestamp(a).value <= ToEpochTimestamp(b).value
  {
    DivMonotone(a, b, MILLISECONDS_PER_SECOND);
  }

  /**
   * The quotient is truncated, not floored: for a negative input with a
   * fractional second it is one more than Dafny's (floor) division gives.
   */
  lemma ToEpochTimestampTruncatesTowardZero(value: Int64)
    requires ToEpochTimestamp(value).Success?
    ensures value >= 0 || value % 1000 == 0 ==> ToEpochTimestamp(value).value == value / 1000
    ensures value < 0 && value % 1000 != 0 ==> ToEpochTimestamp(value).value == value / 1000 + 1
  {
    DivVersusEuclidean(value, MILLISECONDS_PER_SECOND);
  }

  /** The inputs on either side of the two bounds. */
  lemma ToEpochTimestampBoundaries()
    ensures ToEpochTimestamp((MAX_VALUE_INT + 1) * 1000)
      == Failure(EpochTimeValueException((MAX_VALUE_INT + 1) * 1000))
    ensures ToEpochTimestamp((MIN_VALUE_INT - 1) * 1000)
      == Failure(EpochTimeValueException((MIN_VALUE_INT - 1) * 1000))
    ensures ToEpochTimestamp(MAX_VALUE_INT * 1000 + 999) == Success(MAX_VALUE_INT)
    ensures ToEpochTimestamp(MIN_VALUE_INT * 1000 - 999) == Success(MIN_VALUE_INT)
  {
    ToEpochTimestampSucceedsIff((MAX_VALUE_INT + 1) * 1000);
    ToEpochTimestampSucceedsIff((MIN_VALUE_INT - 1) * 1000);
    ToEpochTimestampRoundTrip(MAX_VALUE_INT);
    ToEpochTimestampRoundTrip(MIN_VALUE_INT);
  }

  /**
   * Sample inputs, for the bounds of `int`: the epoch, a recent instant, and
   * two fractional seconds, neither of which is rounded away from zero.
   */
  lemma ToEpochTimestampExamples()
    requires BoundsAreInt32Bounds()
    ensures ToEpochTimestamp(0) == Success(0)
    ensures ToEpochTimestamp(1_699_999_999_000) == Success(1_699_999_999)
    ensures ToEpochTimestamp(-1500) == Success(-1)
    ensures ToEpochTimestamp(1999) == Success(1)
  {
    ToEpochTimestampRoundTrip(0);
    ToEpochTimestampRoundTrip(1_699_999_999);
  }

  // ---------------------------------------------------------------------
  // Milliseconds to DateTime and TimeSpan

  /**
   * `ToDateTime` keeps the distances between inputs: two instants lie as
   * many milliseconds apart as their inputs do, and 0 is the epoch itself.
   */
  lemma ToDateTimeDistance(a: Int64, b: Int64)
    ensures ToDateTime(b).Subtract(ToDateTime(a)) == FromMilliseconds(b - a)
    ensures ToDateTime(0) == UNIX_EPOCH
  {
  }

  /**
   * Every instant less than 2^63 ms from the epoch, on either side, is
   * `ToDateTime` of exactly one `long`.
   */
  lemma ToDateTimeBijective(t: DateTime, a: Int64, b: Int64)
    ensures (exists value: Int64 :: ToDateTime(value) == t) <==>
      INT64_MIN <= t.milliseconds - UNIX_EPOCH.milliseconds <= INT64_MAX
    ensures ToDateTime(a) == ToDateTime(b) ==> a == b
  {
    var offset := t.milliseconds - UNIX_EPOCH.milliseconds;
    if INT64_MIN <= offset <= INT64_MAX {
      assert ToDateTime(offset) == t;
    }
  }

  /** The span of `value` ms is the distance of `ToDateTime(value)` from the epoch. */
  lemma ToTimeSpanFromEpoch(value: Int64)
    ensures ToTimeSpan(value) == ToDateTime(value).Subtract(UNIX_EPOCH)
  {
  }

  /** Sample inputs: 0 gives the epoch and `TimeSpan.Zero`, -1500 a span of -1500 ms. */
  lemma ToDateTimeAndTimeSpanExamples()
    ensures ToDateTime(0) == UNIX_EPOCH
    ensures ToTimeSpan(0) == ZERO
    ensures ToTimeSpan(-1500).TotalMilliseconds() == -1500
  {
    ToDateTimeDistance(0, 0);
  }
}
