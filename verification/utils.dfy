/**
 Rounding of a time series index (`round_index`).

 An index is a sequence of instants, each an integer count of nanoseconds.
 The caller gives an expected sampling interval in whole seconds and a
 rounding method by name: "nearest" (the default), "floor" or "ceiling".
 Every instant is moved onto the grid of multiples of that interval by the
 chosen policy; any other method name leaves the index as it was.
 */
module Utils {
  import opened Quantize

  /** The rounding method, as selected by its name. */
  datatype Mode = Nearest | Floor | Ceiling | Other(name: string)

  /** True iff `how` names one of the three rounding policies. */
  predicate IsPolicyName(how: string) {
    how == "nearest" || how == "floor" || how == "ceiling"
  }

  /** Selects the rounding method by exact comparison of its name. */
  function ParseMode(how: string): (m: Mode)
    ensures m == Nearest <==> how == "nearest"
    ensures m == Floor <==> how == "floor"
    ensures m == Ceiling <==> how == "ceiling"
    ensures m.Other? <==> !IsPolicyName(how)
    ensures m.Other? ==> m.name == how
  {
    if how == "nearest" then Nearest
    else if how == "floor" then Floor
    else if how == "ceiling" then Ceiling
    else Other(how)
  }

  /** The name that selects a method. */
  function ModeName(m: Mode): string {
    match m
    case Nearest => "nearest"
    case Floor => "floor"
    case Ceiling => "ceiling"
    case Other(name) => name
  }

  /** A method is canonical unless it is an `Other` that carries a policy's name. */
  predicate Canonical(m: Mode) {
    !(m.Other? && IsPolicyName(m.name))
  }

  /** Parsing forgets nothing about the name, and every canonical method is
      selected by its own name. */
  lemma ModeNameRoundTrip(how: string, m: Mode)
    ensures ModeName(ParseMode(how)) == how
    ensures Canonical(ParseMode(how))
    ensures Canonical(m) ==> ParseMode(ModeName(m)) == m
  {
  }

  /** Rounds one instant onto the grid of width `g` by the selected method;
      an unrecognised method leaves it unchanged. */
  function RoundInstant(m: Mode, t: int, g: int): (r: int)
    requires g > 0
    ensures m.Other? ==> r == t
    ensures !m.Other? ==> OnGrid(r, g) && FloorToGrid(t, g) <= r <= CeilToGrid(t, g)
    ensures m == Floor ==> IsFloor(t, g, r)
    ensures m == Ceiling ==> IsCeiling(t, g, r)
    ensures m == Nearest ==> IsNearest(t, g, r)
  {
    match m
    case Nearest => NearestToGrid(t, g)
    case Floor => FloorToGrid(t, g)
    case Ceiling => CeilToGrid(t, g)
    case Other(_) => t
  }

  /** Rounds every instant of the index `dt` onto the grid of `frequency`
      seconds. The result has the index's length, and its element i is the
      rounding of element i of `dt` alone. With an unrecognised method name
      the index is returned as it is. */
  function RoundIndex(dt: seq<int>, frequency: int, how: string := "nearest"): (rounded: seq<int>)
    requires frequency > 0
    ensures |rounded| == |dt|
    ensures forall i :: 0 <= i < |dt| ==>
      rounded[i] == RoundInstant(ParseMode(how), dt[i], GridWidth(frequency))
    ensures !IsPolicyName(how) ==> rounded == dt
    ensures IsPolicyName(how) ==> forall i :: 0 <= i < |dt| ==> OnGrid(rounded[i], GridWidth(frequency))
  {
    var m := ParseMode(how);
    if m.Other? then dt else RoundEach(m, dt, GridWidth(frequency))
  }

  /** Rounds the instants of `dt` one by one with method `m`: position i of
      the result is the rounding of position i of `dt`. */
  function RoundEach(m: Mode, dt: seq<int>, g: int): (rounded: seq<int>)
    requires g > 0
    ensures |rounded| == |dt|
    ensures forall i :: 0 <= i < |dt| ==> rounded[i] == RoundInstant(m, dt[i], g)
    decreases |dt|
  {
    if dt == [] then [] else [RoundInstant(m, dt[0], g)] + RoundEach(m, dt[1..], g)
  }

  /** True iff every instant of `dt` lies on the grid of width `g`. */
  predicate AllOnGrid(dt: seq<int>, g: int)
    requires g > 0
  {
    forall i :: 0 <= i < |dt| ==> OnGrid(dt[i], g)
  }

  /** True iff `dt` never goes back in time. */
  predicate Sorted(dt: seq<int>) {
    forall i, j :: 0 <= i < j < |dt| ==> dt[i] <= dt[j]
  }

  /** An index whose instants already lie on the grid comes back unchanged,
      whatever the method. */
  lemma GridIndexIsFixed(dt: seq<int>, frequency: int, how: string)
    requires frequency > 0 && AllOnGrid(dt, GridWidth(frequency))
    ensures RoundIndex(dt, frequency, how) == dt
  {
    var g := GridWidth(frequency);
    var r := RoundIndex(dt, frequency, how);
    forall i | 0 <= i < |dt|
      ensures r[i] == dt[i]
    {
      GridPointsAreFixed(dt[i], g);
    }
  }

  /** Rounding a rounded index again with the same method changes nothing. */
  lemma RoundIndexIsIdempotent(dt: seq<int>, frequency: int, how: string)
    requires frequency > 0
    ensures RoundIndex(RoundIndex(dt, frequency, how), frequency, how) == RoundIndex(dt, frequency, how)
  {
    var r := RoundIndex(dt, frequency, how);
    if IsPolicyName(how) {
      GridIndexIsFixed(r, frequency, how);
    }
  }

  /** Rounding keeps a non-decreasing index non-decreasing. */
  lemma RoundIndexKeepsSorted(dt: seq<int>, frequency: int, how: string)
    requires frequency > 0 && Sorted(dt)
    ensures Sorted(RoundIndex(dt, frequency, how))
  {
    var g := GridWidth(frequency);
    var r := RoundIndex(dt, frequency, how);
    forall i, j | 0 <= i < j < |r|
      ensures r[i] <= r[j]
    {
      RoundingIsMonotone(dt[i], dt[j], g);
    }
  }

  /** Rounding works element by element: rounding a concatenation is
      concatenating the roundings. */
  lemma RoundIndexDistributesOverConcat(a: seq<int>, b: seq<int>, frequency: int, how: string)
    requires frequency > 0
    ensures RoundIndex(a + b, frequency, how) == RoundIndex(a, frequency, how) + RoundIndex(b, frequency, how)
  {
    var r := RoundIndex(a + b, frequency, how);
    var ra, rb := RoundIndex(a, frequency, how), RoundIndex(b, frequency, how);
    forall i | 0 <= i < |r|
      ensures r[i] == (ra + rb)[i]
    {
      if i >= |a| {
        assert (a + b)[i] == b[i - |a|];
      }
    }
  }

  /** Position by position, the floor result is at or below the nearest
      result, which is at or below the ceiling result, and each is within one
      grid width of the input (half a width for nearest). */
  lemma ModesAreOrdered(dt: seq<int>, frequency: int)
    requires frequency > 0
    ensures forall i :: 0 <= i < |dt| ==>
      && RoundIndex(dt, frequency, "floor")[i] <= RoundIndex(dt, frequency, "nearest")[i]
      && RoundIndex(dt, frequency, "nearest")[i] <= RoundIndex(dt, frequency, "ceiling")[i]
    ensures forall i :: 0 <= i < |dt| ==>
      && dt[i] - GridWidth(frequency) < RoundIndex(dt, frequency, "floor")[i] <= dt[i]
      && dt[i] <= RoundIndex(dt, frequency, "ceiling")[i] < dt[i] + GridWidth(frequency)
      && 2 * Abs(RoundIndex(dt, frequency, "nearest")[i] - dt[i]) <= GridWidth(frequency)
  {
  }

  /** 2020-01-01 00:00:00 UTC, in nanoseconds since the epoch. */
  const NewYear2020: int := 1_577_836_800 * NanosPerSecond

  /** Instants at 00:00:10 and 00:00:50 on a one-minute grid: nearest goes to
      00:00:00 and 00:01:00, floor takes both to 00:00:00, ceiling takes both
      to 00:01:00, and an unknown method name changes nothing. */
  lemma OneMinuteScenario()
    ensures var dt := [NewYear2020 + 10 * NanosPerSecond, NewYear2020 + 50 * NanosPerSecond];
      && RoundIndex(dt, 60) == [NewYear2020, NewYear2020 + 60 * NanosPerSecond]
      && RoundIndex(dt, 60, "floor") == [NewYear2020, NewYear2020]
      && RoundIndex(dt, 60, "ceiling") == [NewYear2020 + 60 * NanosPerSecond, NewYear2020 + 60 * NanosPerSecond]
      && RoundIndex(dt, 60, "bogus") == dt
  {
  }

  /** Half-way instants go to the even multiple: 30 s rounds down to 0 s,
      90 s rounds up to 120 s, and -30 s rounds up to 0 s. */
  lemma HalfWayScenario()
    ensures RoundIndex([30 * NanosPerSecond, 90 * NanosPerSecond, -30 * NanosPerSecond], 60)
      == [0, 120 * NanosPerSecond, 0]
  {
  }
}
