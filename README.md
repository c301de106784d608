# Epoch.net long extensions, modelled in Dafny

Epoch.net converts between three representations of time: a 64-bit count of
milliseconds since the Unix epoch (1970-01-01T00:00:00Z), a 32-bit count of
seconds since the same epoch, and the .NET types `DateTime` and `TimeSpan`.
This project models the static class `LongExtensions`, whose extension
methods on `long` do those conversions, and proves what they promise:

- `IsValidEpochTimestamp` accepts exactly the values between the bounds
  `MIN_VALUE_INT` and `MAX_VALUE_INT`, and `Convert.ToInt32` narrows every
  one of them without overflow.
- `ToEpochTimestamp` divides by 1000 with C#'s division, which truncates
  toward zero (-1500 ms gives -1 s, not -2), and either returns those seconds
  as an `int` or fails with an `EpochTimeValueException` that carries the
  undivided input. It succeeds exactly on the inputs in
  `[MIN_VALUE_INT * 1000 - 999, MAX_VALUE_INT * 1000 + 999]`, its narrowing
  never overflows, it reaches every second in `[MIN_VALUE_INT, MAX_VALUE_INT]`,
  it inverts `s * 1000`, and it is monotone.
- `ToDateTime` and `ToTimeSpan` yield the epoch plus `value` milliseconds and
  a span of exactly `value` milliseconds.

Exceptions become the failure variant of a `Result`, whose error is the
datatype `LongExtensions.Exception`: `EpochTimeValueException(value)` for the
library's exception thrown at Epoch.net/LongExtensions.cs:61, and
`OverflowException` for the one `Convert.ToInt32` would throw at line 58
(`ToEpochTimestamp` is proved never to produce the latter). The receiver of an
extension method becomes an ordinary parameter. The model is pure: the class
has no state, and every method is one expression or one `if`.

Files, one module each:

- `Wrappers.dfy`: `Option` and `Result`.
- `Numerics.dfy`: the .NET `int` and `long` ranges as subset types, C#
  division of a `long` by a positive divisor (`Div`, defined through Dafny's
  Euclidean division and specified by the truncation property), and the
  checked narrowing `Convert.ToInt32`.
- `Time.dfy`: `TimeSpan` and `DateTime` as whole milliseconds.
- `Constants.dfy`: `MIN_VALUE_INT`, `MAX_VALUE_INT` and the Unix epoch, which
  the library defines in a `Constants` class that is not part of this model.
  They are declared without values; their types carry the only assumptions,
  `int.MinValue <= MIN_VALUE_INT <= 0 <= MAX_VALUE_INT <= int.MaxValue`, and
  the predicate `BoundsAreInt32Bounds` names the reading that the bounds are
  exactly those of `int`.
- `LongExtensions.dfy`: the four conversions and the lemmas about them.

The doc comment of `ToEpochTimestamp` (Epoch.net/LongExtensions.cs:47) says
the value is "rounded to the next second"; the code divides with truncation
toward zero, and the model follows the code
(`LongExtensions.ToEpochTimestampExamples` shows 1999 ms giving 1 s, not 2,
and -1500 ms giving -1 s). The comment disagrees with the code for positive
inputs as well as negative ones. Which rounding the authors intended is not
evident, so this is recorded as a remark rather than a finding.

## Model

| member | source | states |
|---|---|---|
| `Numerics.Div` | Epoch.net/LongExtensions.cs:54 | `value / 1000` on a `long`: the quotient times the divisor is the multiple nearest the dividend on the side of zero, within one divisor of it, and stays in the `long` range |
| `Numerics.DivUnique` | Epoch.net/LongExtensions.cs:54 | that truncation property determines the quotient: any other quotient satisfying it equals `Div` |
| `Numerics.DivMonotone` | Epoch.net/LongExtensions.cs:54 | division by a positive divisor preserves the order of dividends |
| `Numerics.DivVersusEuclidean` | Epoch.net/LongExtensions.cs:54 | C# division agrees with floor division on non-negative dividends and exact multiples, and is one higher on negative dividends with a remainder |
| `Numerics.DivOfMultiple` | Epoch.net/LongExtensions.cs:54 | dividing `s * d` by `d` gives `s` back |
| `Numerics.ToInt32` | Epoch.net/LongExtensions.cs:58 | `Convert.ToInt32(long)` succeeds exactly on values in the `int` range and then keeps the number; otherwise it is the OverflowException case |
| `Time.FromMilliseconds` | Epoch.net/LongExtensions.cs:39 | `TimeSpan.FromMilliseconds(ms)` lasts exactly `ms` milliseconds |
| `Time.DateTime.AddMilliseconds` | Epoch.net/LongExtensions.cs:29 | the instant after adding `ms` lies exactly `ms` milliseconds after the original |
| `LongExtensions.IsValidEpochTimestamp` | Epoch.net/LongExtensions.cs:17-20 | true iff `MIN_VALUE_INT <= epoch <= MAX_VALUE_INT`; every value it accepts lies in the `int` range |
| `LongExtensions.IsValidEpochTimestampIsNarrowable` | Epoch.net/LongExtensions.cs:17-20 | `Convert.ToInt32(n)` returns `n` unchanged for every `n` that passes the range check; when the bounds are those of `int`, the range check holds iff `Convert.ToInt32(n)` does not overflow |
| `LongExtensions.ToDateTime` | Epoch.net/LongExtensions.cs:27-30 | the result lies exactly `value` milliseconds after the Unix epoch |
| `LongExtensions.ToTimeSpan` | Epoch.net/LongExtensions.cs:37-40 | the result lasts exactly `value` milliseconds |
| `LongExtensions.ToEpochTimestamp` | Epoch.net/LongExtensions.cs:52-62 | succeeds iff the truncated quotient `value / 1000` passes `IsValidEpochTimestamp`; on success returns that quotient, inside `[MIN_VALUE_INT, MAX_VALUE_INT]`; every failure is `EpochTimeValueException(value)` with the undivided input, never an overflow of the narrowing |
| `LongExtensions.ToEpochTimestampSucceedsIff` | Epoch.net/LongExtensions.cs:54-61 | succeeds iff `MIN_VALUE_INT * 1000 - 999 <= value <= MAX_VALUE_INT * 1000 + 999`; otherwise fails carrying `value` |
| `LongExtensions.ToEpochTimestampRoundTrip` | Epoch.net/LongExtensions.cs:54-58 | every `s` in `[MIN_VALUE_INT, MAX_VALUE_INT]` satisfies `ToEpochTimestamp(s * 1000) == s` |
| `LongExtensions.ToEpochTimestampRange` | Epoch.net/LongExtensions.cs:52-62 | an `int` is the result of some successful conversion iff it lies in `[MIN_VALUE_INT, MAX_VALUE_INT]`: the conversion reaches every valid second timestamp and nothing outside the bounds |
| `LongExtensions.ToEpochTimestampWholeSecond` | Epoch.net/LongExtensions.cs:54-58 | a result `s` converts back to itself through `s * 1000`, and `s * 1000` lies less than 1000 ms from the input, between it and the epoch |
| `LongExtensions.ToEpochTimestampMonotone` | Epoch.net/LongExtensions.cs:54 | if `a <= b` and both convert, `ToEpochTimestamp(a) <= ToEpochTimestamp(b)` |
| `LongExtensions.ToEpochTimestampTruncatesTowardZero` | Epoch.net/LongExtensions.cs:47-54 | the result is the floor of `value / 1000` for non-negative inputs and exact multiples, and one more than the floor for negative inputs with a fractional second |
| `LongExtensions.ToEpochTimestampBoundaries` | Epoch.net/LongExtensions.cs:54-61 | `(MAX_VALUE_INT + 1) * 1000` and `(MIN_VALUE_INT - 1) * 1000` fail carrying themselves; `MAX_VALUE_INT * 1000 + 999` gives `MAX_VALUE_INT`; `MIN_VALUE_INT * 1000 - 999` gives `MIN_VALUE_INT` |
| `LongExtensions.ToEpochTimestampExamples` | Epoch.net/LongExtensions.cs:52-62 | with the bounds of `int`: 0 gives 0, 1699999999000 gives 1699999999, -1500 gives -1, 1999 gives 1 |
| `LongExtensions.ToDateTimeDistance` | Epoch.net/LongExtensions.cs:29 | `ToDateTime(b)` lies `b - a` milliseconds after `ToDateTime(a)`, and `ToDateTime(0)` is the Unix epoch |
| `LongExtensions.ToDateTimeBijective` | Epoch.net/LongExtensions.cs:27-30 | an instant is `ToDateTime` of some `long` iff its distance from the epoch fits in a `long`, and distinct inputs give distinct instants |
| `LongExtensions.ToTimeSpanFromEpoch` | Epoch.net/LongExtensions.cs:39 | `ToTimeSpan(value)` equals the distance of `ToDateTime(value)` from the epoch |
| `LongExtensions.ToDateTimeAndTimeSpanExamples` | Epoch.net/LongExtensions.cs:27-40 | 0 gives the epoch and `TimeSpan.Zero`; -1500 gives a span of -1500 ms |

## Left out

- `ToLongEpochTime` (Epoch.net/LongExtensions.cs:69-72): it only wraps the value in a `LongEpochTime`, a type that is not part of this model.
- The message and fields of `EpochTimeValueException` beyond the input value it carries: that class is not part of this model.
- The concrete values of `Constants.MIN_VALUE_INT`, `Constants.MAX_VALUE_INT` and `Constants.UnixEpoch`: the `Constants` class is not part of this model. They are declared without values: the bounds only as lying in `[int.MinValue, 0]` and `[0, int.MaxValue]`, the epoch as some `DateTime`. Facts that hold only when the bounds are exactly `int.MinValue` and `int.MaxValue`, as their names suggest, are stated under `BoundsAreInt32Bounds()`: the converse clause of `IsValidEpochTimestampIsNarrowable` and `ToEpochTimestampExamples`.
- `Numerics.Div`: models C# `long` division only for a positive divisor, so not the negative-divisor case nor the overflow of `long.MinValue / -1`, because the only division in the class is by the constant 1000.
- `LongExtensions.ToDateTime`: does not model that `DateTime.AddMilliseconds` takes a `double` (losing precision above 2^53 ms), rounds to ticks, and throws when the result leaves `DateTime`'s range; this is .NET library behaviour, and the model adds exact integer milliseconds.
- `LongExtensions.ToTimeSpan`: does not model that `TimeSpan.FromMilliseconds` takes a `double` and throws an OverflowException beyond `TimeSpan`'s range; the model is an exact integer span.
- Time zones and `DateTimeKind`: the model has only absolute instants.
