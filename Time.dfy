/**
 * The two .NET calendar types that `LongExtensions` produces, reduced to
 * whole milliseconds. .NET keeps both as 100-nanosecond ticks and builds
 * them from a `double` number of milliseconds; here every value is an exact
 * integer and no range is imposed.
 */
module Time {

  /** System.TimeSpan: a signed length of time. */
  datatype TimeSpan = TimeSpan(milliseconds: int) {

    /** `TimeSpan.TotalMilliseconds`: the length in milliseconds. */
    function TotalMilliseconds(): int {
      milliseconds
    }
  }

  /** `TimeSpan.Zero`. */
  const ZERO := TimeSpan(0)

  /** `TimeSpan.FromMilliseconds`: the span lasting `ms` milliseconds. */
  function FromMilliseconds(ms: int): (t: TimeSpan)
    ensures t.TotalMilliseconds() == ms
  {
    TimeSpan(ms)
  }

  /**
   * System.DateTime: an instant, as milliseconds after the calendar's
   * origin 0001-01-01T00:00:00 (`DateTime.MinValue`). Time zones are not modelled.
   */
  datatype DateTime = DateTime(milliseconds: int) {

    /** `DateTime.AddMilliseconds`: the instant `ms` milliseconds later. */
    function AddMilliseconds(ms: int): (t: DateTime)
      ensures t.Subtract(this) == FromMilliseconds(ms)
    {
      DateTime(milliseconds + ms)
    }

    /** `DateTime.Subtract(DateTime)`: the span from `other` to this instant. */
    function Subtract(other: DateTime): TimeSpan {
      TimeSpan(milliseconds - other.milliseconds)
    }
  }
}
