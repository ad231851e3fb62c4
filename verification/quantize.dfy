/**
 Quantization of a single instant onto a grid of fixed width.

 An instant is an integer count of nanoseconds since the epoch (it may be
 negative). The grid width `g` is a positive number of nanoseconds; the grid
 points are the integer multiples of `g`. Three rounding policies are
 modelled, each with exact integer arithmetic:

 - `FloorToGrid`:   the greatest grid point at or below the instant;
 - `CeilToGrid`:    the least grid point at or above the instant;
 - `NearestToGrid`: the closest grid point, an exact half-way instant going
                    to the grid point whose quotient by `g` is even
                    (round half to even).

 Each policy has a reference predicate (`IsFloor`, `IsCeiling`, `IsNearest`)
 written without division, and a lemma proving that the policy's result is
 the one and only value satisfying it.
 */
module Quantize {

  /** Nanoseconds in one second. */
  const NanosPerSecond: int := 1_000_000_000

  /** The grid width, in nanoseconds, for a sampling interval of `frequency` seconds. */
  function GridWidth(frequency: int): (g: int)
    requires frequency > 0
    ensures g >= NanosPerSecond
    ensures g % NanosPerSecond == 0 && g / NanosPerSecond == frequency
  {
    MultipleIsOnGrid(frequency, NanosPerSecond);
    frequency * NanosPerSecond
  }

  /** True iff instant `t` lies on the grid of width `g`. */
  predicate OnGrid(t: int, g: int)
    requires g > 0
  {
    t % g == 0
  }

  // ---------------------------------------------------------------------
  // Arithmetic facts about Euclidean division by a positive width
  // ---------------------------------------------------------------------

  /** A product of a positive factor and a positive width is at least the width. */
  lemma ProductAtLeastWidth(k: int, g: int)
    requires k >= 1 && g > 0
    ensures k * g >= g
  {
  }

  /** Quotient and remainder are determined by any decomposition `a == q * g + r`
      with `0 <= r < g`. */
  lemma DivModUnique(a: int, g: int, q: int, r: int)
    requires g > 0 && 0 <= r < g && a == q * g + r
    ensures a / g == q && a % g == r
  {
    var q', r' := a / g, a % g;
    assert a == q' * g + r';
    assert (q - q') * g == r' - r;
    if q > q' {
      ProductAtLeastWidth(q - q', g);
    } else if q < q' {
      ProductAtLeastWidth(q' - q, g);
    }
  }

  /** Every multiple of `g` lies on the grid, and dividing it by `g` recovers the factor. */
  lemma MultipleIsOnGrid(k: int, g: int)
    requires g > 0
    ensures OnGrid(k * g, g) && (k * g) / g == k
  {
  }

  /** A grid point is its quotient times the width. */
  lemma OnGridIsMultiple(t: int, g: int)
    requires g > 0 && OnGrid(t, g)
    ensures t == (t / g) * g
  {
  }

  /** Two distinct grid points are at least one width apart. */
  lemma GridGap(a: int, b: int, g: int)
    requires g > 0 && OnGrid(a, g) && OnGrid(b, g) && a < b
    ensures a + g <= b
  {
    OnGridIsMultiple(a, g);
    OnGridIsMultiple(b, g);
    var k := b / g - a / g;
    assert b - a == k * g;
    assert k >= 1;
    ProductAtLeastWidth(k, g);
  }

  /** The grid is closed under negation, and the quotient changes sign with it. */
  lemma NegOnGrid(t: int, g: int)
    requires g > 0 && OnGrid(t, g)
    ensures OnGrid(-t, g) && (-t) / g == -(t / g)
  {
    OnGridIsMultiple(t, g);
    DivModUnique(-t, g, -(t / g), 0);
  }

  // ---------------------------------------------------------------------
  // Reference definitions
  // ---------------------------------------------------------------------

  /** `r` is the greatest grid point at or below `t`. */
  predicate IsFloor(t: int, g: int, r: int)
    requires g > 0
  {
    OnGrid(r, g) && r <= t < r + g
  }

  /** `r` is the least grid point at or above `t`. */
  predicate IsCeiling(t: int, g: int, r: int)
    requires g > 0
  {
    OnGrid(r, g) && r - g < t <= r
  }

  /** `r` is a grid point at most half a width from `t`; when exactly half a
      width away, its quotient by `g` is even. */
  predicate IsNearest(t: int, g: int, r: int)
    requires g > 0
  {
    && OnGrid(r, g)
    && -g <= 2 * (r - t) <= g
    && ((2 * (r - t) == g || 2 * (t - r) == g) ==> (r / g) % 2 == 0)
  }

  // ---------------------------------------------------------------------
  // The three rounding policies
  // ---------------------------------------------------------------------

  /** Round down: the quotient is floored (Euclidean division by a positive
      width floors, also for negative instants), then scaled back. */
  function FloorToGrid(t: int, g: int): (r: int)
    requires g > 0
    ensures OnGrid(r, g)
    ensures r <= t && t - r < g
  {
    var q := t / g;
    MultipleIsOnGrid(q, g);
    q * g
  }

  /** Round up, by flooring the negated instant and negating back. */
  function CeilToGrid(t: int, g: int): (r: int)
    requires g > 0
    ensures OnGrid(r, g)
    ensures t <= r && r - t < g
  {
    var f := FloorToGrid(-t, g);
    NegOnGrid(f, g);
    -f
  }

  /** Round to the closest grid point; an exact half-way instant goes to the
      grid point with an even quotient, as round-half-to-even does. */
  function NearestToGrid(t: int, g: int): (r: int)
    requires g > 0
    ensures OnGrid(r, g)
    ensures -g <= 2 * (r - t) <= g
    ensures r == FloorToGrid(t, g) || r == CeilToGrid(t, g)
    ensures FloorToGrid(t, g) <= r <= CeilToGrid(t, g)
    ensures (2 * (r - t) == g || 2 * (t - r) == g) ==> (r / g) % 2 == 0
  {
    var q, rem := t / g, t % g;
    var k :=
      if 2 * rem < g then q
      else if 2 * rem > g then q + 1
      else if q % 2 == 0 then q
      else q + 1;
    MultipleIsOnGrid(k, g);
    MultipleIsOnGrid(q, g);
    CeilingRelatesToFloor(t, g);
    k * g
  }

  // ---------------------------------------------------------------------
  // Properties
  // ---------------------------------------------------------------------

  /** The ceiling equals the floor on the grid and exceeds it by one width off it. */
  lemma CeilingRelatesToFloor(t: int, g: int)
    requires g > 0
    ensures CeilToGrid(t, g) == (if OnGrid(t, g) then FloorToGrid(t, g) else FloorToGrid(t, g) + g)
  {
    var f, c := FloorToGrid(t, g), CeilToGrid(t, g);
    if OnGrid(t, g) {
      FloorIsUnique(t, g, t);
      CeilingIsUnique(t, g, t);
    } else {
      GridGap(f, c, g);
      MultipleIsOnGrid(t / g + 1, g);
      assert f + g == (t / g + 1) * g;
      CeilingIsLeast(t, g, f + g);
    }
  }

  /** `FloorToGrid` is exactly the value `IsFloor` describes. */
  lemma FloorIsUnique(t: int, g: int, m: int)
    requires g > 0
    ensures IsFloor(t, g, m) <==> m == FloorToGrid(t, g)
  {
    var f := FloorToGrid(t, g);
    if IsFloor(t, g, m) && m != f {
      if m < f { GridGap(m, f, g); } else { GridGap(f, m, g); }
    }
  }

  /** `CeilToGrid` is exactly the value `IsCeiling` describes. */
  lemma CeilingIsUnique(t: int, g: int, m: int)
    requires g > 0
    ensures IsCeiling(t, g, m) <==> m == CeilToGrid(t, g)
  {
    var c := CeilToGrid(t, g);
    if IsCeiling(t, g, m) && m != c {
      if m < c { GridGap(m, c, g); } else { GridGap(c, m, g); }
    }
  }

  /** At most one grid point satisfies `IsNearest`: two distinct candidates
      would both be ties on either side of the instant, with consecutive
      quotients, so they cannot both be even. */
  lemma NearestCandidatesAgree(t: int, g: int, a: int, b: int)
    requires g > 0 && IsNearest(t, g, a) && IsNearest(t, g, b) && a <= b
    ensures a == b
  {
    if a < b {
      GridGap(a, b, g);
      assert b == a + g;
      assert (a / g) % 2 == 0 && (b / g) % 2 == 0;
      var qa := a / g;
      OnGridIsMultiple(a, g);
      assert b == (qa + 1) * g;
      MultipleIsOnGrid(qa + 1, g);
    }
  }

  /** `NearestToGrid` is exactly the value `IsNearest` describes. */
  lemma NearestIsUnique(t: int, g: int, m: int)
    requires g > 0
    ensures IsNearest(t, g, m) <==> m == NearestToGrid(t, g)
  {
    var n := NearestToGrid(t, g);
    assert IsNearest(t, g, n);
    if IsNearest(t, g, m) {
      if m <= n {
        NearestCandidatesAgree(t, g, m, n);
      } else {
        NearestCandidatesAgree(t, g, n, m);
      }
    }
  }

  /** The floor is the greatest grid point not above the instant. */
  lemma FloorIsGreatest(t: int, g: int, m: int)
    requires g > 0 && OnGrid(m, g) && m <= t
    ensures m <= FloorToGrid(t, g)
  {
    var f := FloorToGrid(t, g);
    if f < m {
      GridGap(f, m, g);
    }
  }

  /** The ceiling is the least grid point not below the instant. */
  lemma CeilingIsLeast(t: int, g: int, m: int)
    requires g > 0 && OnGrid(m, g) && t <= m
    ensures CeilToGrid(t, g) <= m
  {
    var c := CeilToGrid(t, g);
    if m < c {
      GridGap(m, c, g);
    }
  }

  /** No grid point is strictly closer to the instant than the nearest one. */
  lemma NearestIsClosest(t: int, g: int, m: int)
    requires g > 0 && OnGrid(m, g)
    ensures Abs(NearestToGrid(t, g) - t) <= Abs(m - t)
  {
    var n := NearestToGrid(t, g);
    if m < n {
      GridGap(m, n, g);
    } else if n < m {
      GridGap(n, m, g);
    }
  }

  /** The distance of `x` from zero. */
  function Abs(x: int): (a: nat)
    ensures a == x || a == -x
  {
    if x < 0 then -x else x
  }

  /** An instant already on the grid is returned unchanged by every policy. */
  lemma GridPointsAreFixed(t: int, g: int)
    requires g > 0 && OnGrid(t, g)
    ensures FloorToGrid(t, g) == t
    ensures CeilToGrid(t, g) == t
    ensures NearestToGrid(t, g) == t
  {
    FloorIsUnique(t, g, t);
    CeilingIsUnique(t, g, t);
    NearestIsUnique(t, g, t);
  }

  /** Rounding twice with the same policy is the same as rounding once. */
  lemma RoundingIsIdempotent(t: int, g: int)
    requires g > 0
    ensures FloorToGrid(FloorToGrid(t, g), g) == FloorToGrid(t, g)
    ensures CeilToGrid(CeilToGrid(t, g), g) == CeilToGrid(t, g)
    ensures NearestToGrid(NearestToGrid(t, g), g) == NearestToGrid(t, g)
  {
  }

  /** Every policy is monotone: a later instant never rounds to an earlier grid point. */
  lemma RoundingIsMonotone(t1: int, t2: int, g: int)
    requires g > 0 && t1 <= t2
    ensures FloorToGrid(t1, g) <= FloorToGrid(t2, g)
    ensures CeilToGrid(t1, g) <= CeilToGrid(t2, g)
    ensures NearestToGrid(t1, g) <= NearestToGrid(t2, g)
  {
    FloorIsGreatest(t2, g, FloorToGrid(t1, g));
    CeilingIsLeast(t1, g, CeilToGrid(t2, g));
    var n1, n2 := NearestToGrid(t1, g), NearestToGrid(t2, g);
    if n2 < n1 {
      GridGap(n2, n1, g);
    }
  }

  /** Round half to even is symmetric about zero: negating the instant negates
      its nearest grid point. */
  lemma NearestCommutesWithNegation(t: int, g: int)
    requires g > 0
    ensures NearestToGrid(-t, g) == -NearestToGrid(t, g)
  {
    var n := NearestToGrid(t, g);
    NegOnGrid(n, g);
    assert IsNearest(-t, g, -n);
    NearestIsUnique(-t, g, -n);
  }
}
