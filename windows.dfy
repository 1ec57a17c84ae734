/**
 * Window-size heuristics of the time-analysis tab: the odd-width coercion used for
 * the STL windows, the display smoother width, the decomposition gate and the
 * residual rolling-window slider.
 */
module Windows {

  function Min(a: int, b: int): int { if a <= b then a else b }
  function Max(a: int, b: int): int { if a >= b then a else b }

  /** The smallest odd integer that is at least 3 and at least k (`_odd`). */
  function Odd(k: int): (r: int)
    ensures r % 2 == 1 && r >= 3 && r >= k
    ensures r <= Max(3, k) + 1
    ensures k >= 3 && k % 2 == 1 ==> r == k
    ensures k >= 3 && k % 2 == 0 ==> r == k + 1
  {
    var k := Max(3, k);
    if k % 2 == 1 then k else k + 1
  }

  /** An odd integer of at least 3 is left alone, so `Odd` is idempotent. */
  lemma OddIdempotent(k: int)
    ensures Odd(Odd(k)) == Odd(k)
  {
  }

  /** `Odd` never maps a larger input below a smaller one. */
  lemma OddMonotonic(j: int, k: int)
    requires j <= k
    ensures Odd(j) <= Odd(k)
  {
  }

  /** Width of the display moving average, from the series length (`_win`). */
  function SmootherWindow(n: nat): (w: nat)
    ensures 3 <= w <= 24
    ensures n < 60 ==> w == 3
    ensures 60 <= n < 500 ==> w == n / 20
    ensures n >= 480 ==> w == 24
  {
    Min(Max(Max(3, n / 20), 3), 24)
  }

  /** The seasonal cycle of hourly traffic, in grid steps. */
  const Period: nat := 24

  /** Fewest hourly points for which any decomposition is attempted. */
  const MinPoints: nat := 48

  /** The STL seasonal smoother width for a series of n points. */
  function SeasonalWindow(n: nat): (w: int)
    ensures w % 2 == 1 && 7 <= w <= 25
    ensures n >= 192 ==> w == 25
  {
    Odd(Min(Max(11, Period), Max(7, n / 8)))
  }

  /** The STL trend smoother width for a series of n points. */
  function TrendWindow(n: nat): (w: int)
    ensures w % 2 == 1 && 7 <= w <= 121
    ensures n >= MinPoints ==> 25 <= w && w > Period
    ensures n >= 240 ==> w == 121
  {
    Odd(Min(Max(35, Period * 5), Max(7, n / 2)))
  }

  /** Both STL windows grow (weakly) with the length of the series. */
  lemma WindowsMonotonic(m: nat, n: nat)
    requires m <= n
    ensures SeasonalWindow(m) <= SeasonalWindow(n)
    ensures TrendWindow(m) <= TrendWindow(n)
  {
    OddMonotonic(Min(Max(11, Period), Max(7, m / 8)), Min(Max(11, Period), Max(7, n / 8)));
    OddMonotonic(Min(Max(35, Period * 5), Max(7, m / 2)), Min(Max(35, Period * 5), Max(7, n / 2)));
  }

  /** The two algorithms offered by the "Method" selector. */
  datatype Algorithm = StlRobust | ClassicalAdditive

  /** What the decomposition section does for a series of a given length. */
  datatype Decomposition =
    | Insufficient(needed: nat)
    | Stl(period: nat, seasonal: int, trend: int, robust: bool)
    | Classical(period: nat)

  /**
   * The gate and the parameters handed to the decomposition routine; the
   * routine itself is not part of this model.
   */
  function PlanDecomposition(n: nat, algo: Algorithm): (d: Decomposition)
    ensures d.Insufficient? <==> n < MinPoints
    ensures d.Insufficient? ==> d.needed == 48
    ensures algo == StlRobust && n >= MinPoints ==>
      d.Stl? && d.period == 24 && d.robust &&
      d.seasonal % 2 == 1 && 7 <= d.seasonal <= 25 &&
      d.trend % 2 == 1 && 25 <= d.trend <= 121 && d.trend > d.period
    ensures algo == ClassicalAdditive && n >= MinPoints ==> d == Classical(24)
  {
    if n >= MinPoints then
      match algo
      case StlRobust => Stl(Period, SeasonalWindow(n), TrendWindow(n), true)
      case ClassicalAdditive => Classical(Period)
    else
      Insufficient(MinPoints)
  }

  /** Neither STL window exceeds its length-derived ceiling by more than the odd adjustment. */
  lemma WindowsBoundedByLength(n: nat)
    ensures SeasonalWindow(n) <= Max(7, n / 8) + 1
    ensures TrendWindow(n) <= Max(7, n / 2) + 1
    ensures n >= 56 ==> SeasonalWindow(n) <= n / 8 + 1
    ensures n >= 16 ==> TrendWindow(n) <= n / 2 + 1
  {
  }

  /** A month of hourly data (744 points): both windows are odd and within n/8 and n/2. */
  lemma MonthOfHours()
    ensures PlanDecomposition(744, StlRobust) == Stl(24, 25, 121, true)
    ensures SeasonalWindow(744) <= 744 / 8 && TrendWindow(744) <= 744 / 2
  {
  }

  /** Forty hourly points are below the floor: no parameters are produced. */
  lemma FortyPointsRefused(algo: Algorithm)
    ensures PlanDecomposition(40, algo) == Insufficient(48)
  {
  }

  /** Bounds and initial value of the residual rolling-window slider. */
  datatype Slider = Slider(lo: int, hi: int, initial: int)

  /** The residual rolling-window slider for a series of n points (at most seven days). */
  function ResidualWindowSlider(n: nat): (s: Slider)
    ensures s.lo == 3 && s.hi == Min(168, n) && s.hi <= 168
    ensures n >= 3 ==> s.lo <= s.initial <= s.hi
    ensures n >= MinPoints ==> s.initial == 24
    ensures s.initial == 24 || s.initial == n
  {
    var maxWin := Min(168, n);
    Slider(3, maxWin, Min(24, maxWin))
  }
}
