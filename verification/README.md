# round_index: quantizing a time series index

This project models `round_index` from the pecos package (`pecos/utils.py`).
The function moves every timestamp of a time series index onto a grid. The
grid spacing is the expected sampling interval, given in whole seconds. The
rounding method is chosen by name:

- `nearest` (the default) takes the closest grid point;
- `floor` takes the grid point at or below the timestamp;
- `ceiling` takes the grid point at or above it;
- any other name returns the index unchanged.

A timestamp is modelled as an integer count of nanoseconds since the epoch. An
index is a `seq<int>`. The grid width is `g = frequency * 1_000_000_000`
nanoseconds.

Two modules:

- `Quantize` (`quantize.dfy`) rounds one instant. It defines `FloorToGrid`,
  `CeilToGrid` and `NearestToGrid` with exact integer arithmetic. Each has a
  reference predicate written without division: `IsFloor`, `IsCeiling` and
  `IsNearest`. A lemma proves that each function returns the one and only
  value its predicate accepts.
- `Utils` (`utils.dfy`) follows `pecos/utils.py`. It defines the method
  datatype `Mode = Nearest | Floor | Ceiling | Other(name)`, the selection of a
  method by name, and `RoundIndex` over a whole index. It also proves the
  index-level properties.

Tie-break for `nearest`: the source uses `np.round`, which rounds half to
even. An instant exactly half a width from two grid points therefore goes to
the one whose quotient by `g` is even. With a 60 s grid, 30 s goes to 0 s and
90 s goes to 120 s. The model fixes this rule and proves it
(`Quantize.NearestToGrid`, `Utils.HalfWayScenario`).

Two points the source leaves implicit:

- The docstring (pecos/utils.py:27) only says that `nearest` rounds to "the
  nearest expected integer". The tie rule comes from `np.round` at
  pecos/utils.py:40, which rounds half to even.
- The docstring (pecos/utils.py:21-22) describes `frequency` as an int count
  of seconds. The code does not check that it is positive, and the model
  requires `frequency > 0` (see "Left out").

## Model

| member | source | states |
|---|---|---|
| `Quantize.GridWidth` | pecos/utils.py:36-37 | The grid width for `frequency` seconds is a positive whole number of seconds in nanoseconds. Dividing it by 10⁹ gives back `frequency`. |
| `Quantize.FloorToGrid` | pecos/utils.py:41-42 | The floor result is a multiple of `g`. It is at or below the instant and less than one width below it. This holds for negative instants too. |
| `Quantize.FloorIsUnique` | pecos/utils.py:28 | A value is the floor result if and only if it is a grid point `r` with `r <= t < r + g`. |
| `Quantize.FloorIsGreatest` | pecos/utils.py:28 | No grid point at or below the instant is above the floor result: it is the largest such grid point. |
| `Quantize.CeilToGrid` | pecos/utils.py:43-44 | The ceiling result is a multiple of `g`. It is at or above the instant and less than one width above it. |
| `Quantize.CeilingIsUnique` | pecos/utils.py:29 | A value is the ceiling result if and only if it is a grid point `r` with `r - g < t <= r`. |
| `Quantize.CeilingIsLeast` | pecos/utils.py:29 | No grid point at or above the instant is below the ceiling result: it is the smallest such grid point. |
| `Quantize.CeilingRelatesToFloor` | pecos/utils.py:41-44 | Ceiling and floor agree on grid points. Off the grid, the ceiling is exactly one width above the floor. |
| `Quantize.NearestToGrid` | pecos/utils.py:39-40 | The nearest result is a multiple of `g` within half a width of the instant. It is either the floor result or the ceiling result, so it lies between them. At an exact half-way instant, its quotient by `g` is even. |
| `Quantize.NearestIsUnique` | pecos/utils.py:27 | A value is the nearest result if and only if it is a grid point within half a width whose quotient is even whenever it is exactly half a width away. |
| `Quantize.NearestIsClosest` | pecos/utils.py:27 | No grid point is strictly closer to the instant than the nearest result. |
| `Quantize.NearestCommutesWithNegation` | pecos/utils.py:40 | Round half to even is symmetric about zero: negating an instant negates its nearest grid point. |
| `Quantize.GridPointsAreFixed` | pecos/utils.py:39-44 | An instant already on the grid is returned unchanged by floor, ceiling and nearest. |
| `Quantize.RoundingIsIdempotent` | pecos/utils.py:39-44 | Applying floor, ceiling or nearest to its own result changes nothing. |
| `Quantize.RoundingIsMonotone` | pecos/utils.py:39-44 | Under all three policies, a later instant never rounds to an earlier grid point. |
| `Utils.ParseMode` | pecos/utils.py:39-47 | Each of the names `nearest`, `floor` and `ceiling` selects its own policy and no other name does. Every other name selects the pass-through and keeps the name. |
| `Utils.ModeNameRoundTrip` | pecos/utils.py:39-45 | Method selection loses nothing: the selected method's name is the given name. Every method that cannot be confused with a policy is selected by its own name. |
| `Utils.RoundInstant` | pecos/utils.py:39-47 | Under a recognised method, one instant lands on the grid, between its floor and its ceiling, and meets that policy's reference predicate. Under an unrecognised method it is unchanged. |
| `Utils.RoundIndex` | pecos/utils.py:12-49 | The result has the input's length. Element i is the rounding of input element i alone. With a recognised method every element is on the grid. With any other name the input comes back unchanged. |
| `Utils.RoundEach` | pecos/utils.py:40-44 | Applying a policy to the whole index gives a sequence of the same length whose element i is the rounding of input element i, with every other element ignored. |
| `Utils.GridIndexIsFixed` | pecos/utils.py:39-47 | An index whose timestamps all lie on the grid comes back unchanged under every method name. |
| `Utils.RoundIndexIsIdempotent` | pecos/utils.py:39-47 | Rounding an already rounded index again with the same method and frequency gives the same index. |
| `Utils.RoundIndexKeepsSorted` | pecos/utils.py:39-47 | A non-decreasing index stays non-decreasing after rounding. |
| `Utils.RoundIndexDistributesOverConcat` | pecos/utils.py:40-44 | Rounding works element by element: rounding a concatenation equals concatenating the two roundings. |
| `Utils.ModesAreOrdered` | pecos/utils.py:27-29 | At every position, floor ≤ nearest ≤ ceiling. The floor is less than one width below the input, the ceiling less than one width above it, and the nearest result at most half a width away. |
| `Utils.OneMinuteScenario` | pecos/utils.py:39-47 | On a one-minute grid, 00:00:10 and 00:00:50 round to 00:00 and 00:01 under nearest, both to 00:00 under floor and both to 00:01 under ceiling. An unknown method name leaves them unchanged. |
| `Utils.HalfWayScenario` | pecos/utils.py:39-40 | On a one-minute grid, the half-way instants 30 s, 90 s and -30 s round to 0 s, 120 s and 0 s (round half to even). |

## Left out

- `convert_html_to_image` (pecos/utils.py:51-76) is not modelled. It only builds a shell command line for the external `wkhtmltoimage` program and runs it with `os.system`. Its behaviour is process I/O and foreign code, and it ignores the command's result.
- Floating point is not modelled. The source divides the int64 nanosecond values by `float(freq)` and rounds the float64 quotient. Above 2⁵³ ns (about 104 days after the epoch) float64 no longer represents every integer: for present-day instants only multiples of 256 ns are exact, and any other instant is rounded to the nearest one before the division. The model uses exact integer arithmetic throughout. Its proved bounds (floor ≤ t, ceiling ≥ t, nearest within half a width) hold for that exact model. In the source they can fail for an instant within one float spacing of a grid point or a half-way point. For example, with frequency 60, the instant one nanosecond before 2020-01-01 00:01:00 is read as 00:01:00, so `floor` returns a value above the instant.
- int64 range is not modelled. The source casts `round(...) * freq` back to int64, which can overflow. The model uses unbounded `int`.
- The pandas and numpy plumbing is not modelled. This covers `to_offset(...).nanos`, `.asi8` and the rebuilt `DatetimeIndex`. Only the integer-nanosecond values are modelled. The index's time zone, name, frequency attribute and NaT entries are not.
- The informational log message on an unrecognised method (pecos/utils.py:46) is not modelled. It has no effect on the returned value.
- Quantize.GridWidth and Utils.RoundIndex: require `frequency > 0` although the source does not check it. With frequency 0 the source divides by zero in floating point. A negative frequency makes floor and ceiling swap roles. A non-integer frequency (for example 1.5 s) is also left out.
