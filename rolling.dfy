/**
 * Trailing rolling aggregates with a minimum of one observation per window,
 * as used for the display moving averages and for the residual navigator.
 * Missing entries are skipped; a window holding no observation yields a
 * missing result.
 */
module Rolling {
  import opened Options
  import Windows

  /** The number a cell contributes to a sum: its value, or nothing when missing. */
  function Contribution(x: Option<int>): int { if x.Some? then x.value else 0 }

  /** Whether a cell counts as an observation. */
  function Weight(x: Option<int>): nat { if x.Some? then 1 else 0 }

  /** Sum of the observed values of xs. */
  function PresentSum(xs: seq<Option<int>>): int
  {
    if xs == [] then 0 else PresentSum(xs[..|xs| - 1]) + Contribution(xs[|xs| - 1])
  }

  /** Number of observed values in xs. */
  function PresentCount(xs: seq<Option<int>>): (c: nat)
    ensures c <= |xs|
  {
    if xs == [] then 0 else PresentCount(xs[..|xs| - 1]) + Weight(xs[|xs| - 1])
  }

  /** A window has an observation exactly when one of its cells is observed; with none its sum is 0. */
  lemma {:induction false} CountPositive(xs: seq<Option<int>>)
    ensures PresentCount(xs) > 0 <==> exists k :: 0 <= k < |xs| && xs[k].Some?
    ensures PresentCount(xs) == 0 ==> PresentSum(xs) == 0
  {
    if xs != [] {
      var init := xs[..|xs| - 1];
      CountPositive(init);
      assert forall k :: 0 <= k < |init| ==> init[k] == xs[k];
    }
  }

  /** Skipping missing cells, a sum of non-negative values is non-negative. */
  lemma {:induction false} SumNonNegative(xs: seq<Option<int>>)
    requires forall k :: 0 <= k < |xs| && xs[k].Some? ==> xs[k].value >= 0
    ensures PresentSum(xs) >= 0
  {
    if xs != [] {
      var init := xs[..|xs| - 1];
      assert forall k :: 0 <= k < |init| ==> init[k] == xs[k];
      SumNonNegative(init);
    }
  }

  /** Both totals split at the front as well as at the back. */
  lemma {:induction false} TotalsFront(xs: seq<Option<int>>)
    requires xs != []
    ensures PresentSum(xs) == Contribution(xs[0]) + PresentSum(xs[1..])
    ensures PresentCount(xs) == Weight(xs[0]) + PresentCount(xs[1..])
  {
    if |xs| > 1 {
      var init := xs[..|xs| - 1];
      TotalsFront(init);
      assert init[1..] == xs[1..][..|xs[1..]| - 1];
    } else {
      assert xs[1..] == [];
      assert xs[..0] == [];
    }
  }

  /** Each cell replaced by its absolute value; missing stays missing. */
  function AbsAll(xs: seq<Option<int>>): (r: seq<Option<int>>)
    ensures |r| == |xs|
    ensures forall i :: 0 <= i < |xs| ==>
      (r[i].Some? <==> xs[i].Some?) && (xs[i].Some? ==> r[i].value == if xs[i].value < 0 then -xs[i].value else xs[i].value)
  {
    seq(|xs|, i requires 0 <= i < |xs| =>
      if xs[i].Some? then Some(if xs[i].value < 0 then -xs[i].value else xs[i].value) else None)
  }

  /** Start of the trailing window of width w whose exclusive end is `end`. */
  function Lo(end: nat, w: nat): (lo: nat)
    ensures lo <= end
  {
    if end >= w then end - w else 0
  }

  /** The cells aggregated at position i: indices max(0, i-w+1) through i. */
  function Window(s: seq<Option<int>>, i: nat, w: nat): (win: seq<Option<int>>)
    requires i < |s|
    ensures w >= 1 ==> 1 <= |win| <= w && win[|win| - 1] == s[i]
    ensures i + 1 >= w ==> |win| == w
    ensures i + 1 < w ==> win == s[..i + 1]
  {
    s[Lo(i + 1, w)..i + 1]
  }

  /** The aggregates offered for the residual navigator (the standard deviation is not modelled). */
  datatype Stat = Mean | Sum | AbsSum

  /** One window reduced by an aggregate: missing when it holds no observation. */
  function Reduce(win: seq<Option<int>>, stat: Stat): (r: Option<real>)
    ensures r.Some? <==> PresentCount(win) > 0
  {
    if PresentCount(win) == 0 then None
    else if stat == Mean then Some(PresentSum(win) as real / PresentCount(win) as real)
    else Some(PresentSum(win) as real)
  }

  /** The series the windows run over: `abs_sum` takes absolute values first. */
  function Rolled(s: seq<Option<int>>, stat: Stat): (r: seq<Option<int>>)
    ensures |r| == |s|
  {
    if stat == AbsSum then AbsAll(s) else s
  }

  /** A slice of r holds an observation exactly when one of its cells is observed. */
  lemma SliceObserved(r: seq<Option<int>>, lo: nat, hi: nat)
    requires lo <= hi <= |r|
    ensures PresentCount(r[lo..hi]) > 0 <==> exists k :: lo <= k < hi && r[k].Some?
  {
    var win := r[lo..hi];
    CountPositive(win);
    if exists k :: lo <= k < hi && r[k].Some? {
      var k :| lo <= k < hi && r[k].Some?;
      assert win[k - lo] == r[k];
    }
    if exists j :: 0 <= j < |win| && win[j].Some? {
      var j :| 0 <= j < |win| && win[j].Some?;
      assert win[j] == r[lo + j];
    }
  }

  /**
   * The window cut from the rolled series holds an observation exactly when a
   * cell of the trailing window of s is observed; for `abs_sum` its sum is never negative.
   */
  lemma RolledWindow(s: seq<Option<int>>, i: nat, w: nat, stat: Stat)
    requires i < |s|
    ensures PresentCount(Window(Rolled(s, stat), i, w)) > 0 <==> exists k :: Lo(i + 1, w) <= k <= i && s[k].Some?
    ensures stat == AbsSum ==> PresentSum(Window(Rolled(s, stat), i, w)) >= 0
  {
    var r := Rolled(s, stat);
    SliceObserved(r, Lo(i + 1, w), i + 1);
    assert forall k :: 0 <= k < |s| ==> (r[k].Some? <==> s[k].Some?);
    if stat == AbsSum {
      AbsWindow(s, i, w);
      AbsTotals(Window(s, i, w));
    }
  }

  /**
   * The value at position i of the rolling aggregate: defined exactly when a cell
   * of the trailing window is observed, and never negative for `abs_sum`.
   */
  function RollingAt(s: seq<Option<int>>, i: nat, w: nat, stat: Stat): (r: Option<real>)
    requires i < |s|
    ensures r.Some? <==> exists k :: Lo(i + 1, w) <= k <= i && s[k].Some?
    ensures stat == AbsSum && r.Some? ==> r.value >= 0.0
  {
    RolledWindow(s, i, w, stat);
    Reduce(Window(Rolled(s, stat), i, w), stat)
  }

  /** Moving a trailing window one step: add the entering cell, drop the one that left. */
  lemma Slide(s: seq<Option<int>>, i: nat, w: nat)
    requires i < |s|
    ensures PresentSum(s[Lo(i + 1, w)..i + 1]) ==
      PresentSum(s[Lo(i, w)..i]) + Contribution(s[i]) - (if i >= w then Contribution(s[i - w]) else 0)
    ensures PresentCount(s[Lo(i + 1, w)..i + 1]) ==
      PresentCount(s[Lo(i, w)..i]) + Weight(s[i]) - (if i >= w then Weight(s[i - w]) else 0)
  {
    var grown := s[Lo(i, w)..i + 1];
    assert grown[..|grown| - 1] == s[Lo(i, w)..i];
    if i >= w {
      TotalsFront(grown);
      assert grown[1..] == s[Lo(i + 1, w)..i + 1];
    }
  }

  /**
   * Running window totals by the incremental method: each step adds the
   * entering cell and removes the one that left the window.
   */
  method RollingTotals(s: seq<Option<int>>, w: nat) returns (sums: array<int>, counts: array<int>)
    requires w >= 1
    ensures fresh(sums) && fresh(counts)
    ensures sums.Length == |s| && counts.Length == |s|
    ensures forall i :: 0 <= i < |s| ==>
      sums[i] == PresentSum(Window(s, i, w)) && counts[i] == PresentCount(Window(s, i, w))
  {
    sums := new int[|s|];
    counts := new int[|s|];
    var sum, count := 0, 0;
    for i := 0 to |s|
      invariant sum == PresentSum(s[Lo(i, w)..i]) && count == PresentCount(s[Lo(i, w)..i])
      invariant forall k :: 0 <= k < i ==>
        sums[k] == PresentSum(Window(s, k, w)) && counts[k] == PresentCount(Window(s, k, w))
    {
      Slide(s, i, w);
      sum, count := sum + Contribution(s[i]), count + Weight(s[i]);
      if i >= w {
        sum, count := sum - Contribution(s[i - w]), count - Weight(s[i - w]);
      }
      sums[i], counts[i] := sum, count;
    }
  }

  /** The rolling aggregate of a series (`rolling(w, min_periods=1)` then the statistic). */
  method RollingAggregate(s: seq<Option<int>>, w: nat, stat: Stat) returns (out: array<Option<real>>)
    requires w >= 1
    ensures fresh(out)
    ensures out.Length == |s|
    ensures forall i :: 0 <= i < |s| ==> out[i] == RollingAt(s, i, w, stat)
  {
    var sums, counts := RollingTotals(Rolled(s, stat), w);
    var sum, count := sums[..], counts[..];
    out := new Option<real>[|s|];
    for i := 0 to |s|
      invariant forall k :: 0 <= k < i ==> out[k] == RollingAt(s, k, w, stat)
    {
      if count[i] == 0 {
        out[i] := None;
      } else if stat == Mean {
        out[i] := Some(sum[i] as real / count[i] as real);
      } else {
        out[i] := Some(sum[i] as real);
      }
    }
  }

  /** The display moving average, with the width chosen from the series length. */
  method MovingAverage(s: seq<Option<int>>) returns (ma: array<Option<real>>)
    ensures fresh(ma)
    ensures ma.Length == |s|
    ensures forall i :: 0 <= i < |s| ==>
      ma[i] == Reduce(Window(s, i, Windows.SmootherWindow(|s|)), Mean)
  {
    ma := RollingAggregate(s, Windows.SmootherWindow(|s|), Mean);
  }

  /** Taking absolute values and then the totals never loses an observation and never shrinks the sum below |sum|. */
  lemma {:induction false} AbsTotals(xs: seq<Option<int>>)
    ensures PresentCount(AbsAll(xs)) == PresentCount(xs)
    ensures PresentSum(AbsAll(xs)) >= 0
    ensures PresentSum(AbsAll(xs)) >= PresentSum(xs) && PresentSum(AbsAll(xs)) >= -PresentSum(xs)
  {
    if xs != [] {
      var init := xs[..|xs| - 1];
      AbsTotals(init);
      assert AbsAll(xs)[..|xs| - 1] == AbsAll(init);
    }
  }

  /** Absolute values commute with cutting out a window. */
  lemma AbsWindow(s: seq<Option<int>>, i: nat, w: nat)
    requires i < |s|
    ensures Window(AbsAll(s), i, w) == AbsAll(Window(s, i, w))
  {
  }

  /**
   * At every position, `abs_sum` is defined exactly when `sum` is, and it is at
   * least the absolute value of `sum`: a distinct aggregate, not |sum|.
   */
  lemma AbsSumBoundsSum(s: seq<Option<int>>, i: nat, w: nat)
    requires i < |s|
    ensures RollingAt(s, i, w, AbsSum).Some? <==> RollingAt(s, i, w, Sum).Some?
    ensures RollingAt(s, i, w, AbsSum).Some? ==>
      var a, b := RollingAt(s, i, w, AbsSum).value, RollingAt(s, i, w, Sum).value;
      a >= 0.0 && a >= b && a >= -b
  {
    AbsWindow(s, i, w);
    AbsTotals(Window(s, i, w));
  }

  /** A window over [-5, 5, -3]: `abs_sum` is 13 while the plain sum is -3. */
  lemma AbsSumExample()
    ensures RollingAt([Some(-5), Some(5), Some(-3)], 2, 3, AbsSum) == Some(13.0)
    ensures RollingAt([Some(-5), Some(5), Some(-3)], 2, 3, Sum) == Some(-3.0)
  {
    var s: seq<Option<int>> := [Some(-5), Some(5), Some(-3)];
    var a: seq<Option<int>> := [Some(5), Some(5), Some(3)];
    assert Window(s, 2, 3) == s;
    assert AbsAll(s) == a;
    assert Window(a, 2, 3) == a;
    assert s[..2][..1] == s[..1] && s[..1][..0] == [];
    assert a[..2][..1] == a[..1] && a[..1][..0] == [];
    assert PresentSum(s[..1]) == -5 && PresentSum(s[..2]) == 0 && PresentSum(s) == -3;
    assert PresentCount(s[..1]) == 1 && PresentCount(s[..2]) == 2 && PresentCount(s) == 3;
    assert PresentSum(a[..1]) == 5 && PresentSum(a[..2]) == 10 && PresentSum(a) == 13;
    assert PresentCount(a[..1]) == 1 && PresentCount(a[..2]) == 2 && PresentCount(a) == 3;
  }

  /** Every observed value of xs lies in [lo, hi]. */
  ghost predicate Within(xs: seq<Option<int>>, lo: int, hi: int)
  {
    forall k :: 0 <= k < |xs| && xs[k].Some? ==> lo <= xs[k].value <= hi
  }

  /** One more factor: x * (c + 1) == x * c + x. */
  lemma MulStep(x: int, c: int)
    ensures x * (c + 1) == x * c + x
  {
  }

  /** Totals of values that lie in [lo, hi]. */
  lemma {:induction false} SumWithin(xs: seq<Option<int>>, lo: int, hi: int)
    requires Within(xs, lo, hi)
    ensures lo * PresentCount(xs) <= PresentSum(xs) <= hi * PresentCount(xs)
  {
    if xs != [] {
      var init, last := xs[..|xs| - 1], xs[|xs| - 1];
      assert Within(init, lo, hi) by {
        forall k | 0 <= k < |init| && init[k].Some? ensures lo <= init[k].value <= hi {
          assert init[k] == xs[k];
        }
      }
      SumWithin(init, lo, hi);
      var c := PresentCount(init);
      if last.Some? {
        assert PresentCount(xs) == c + 1 && PresentSum(xs) == PresentSum(init) + last.value;
        assert lo <= last.value <= hi;
        MulStep(lo, c);
        MulStep(hi, c);
      } else {
        assert PresentCount(xs) == c && PresentSum(xs) == PresentSum(init);
      }
    }
  }

  /** Dividing a total by a positive count keeps a bound that holds per element. */
  lemma RatioBounds(total: int, c: int, lo: int, hi: int)
    requires c > 0 && lo * c <= total <= hi * c
    ensures lo as real <= total as real / c as real <= hi as real
  {
    var q := total as real / c as real;
    assert q * c as real == total as real;
    assert (lo * c) as real == lo as real * c as real;
    assert (hi * c) as real == hi as real * c as real;
  }

  /** The rolling mean never leaves the range of the values in its window. */
  lemma MeanWithin(s: seq<Option<int>>, i: nat, w: nat, lo: int, hi: int)
    requires i < |s|
    requires Within(Window(s, i, w), lo, hi)
    ensures RollingAt(s, i, w, Mean).Some? ==>
      lo as real <= RollingAt(s, i, w, Mean).value <= hi as real
  {
    var win := Window(s, i, w);
    assert Rolled(s, Mean) == s;
    assert RollingAt(s, i, w, Mean) == Reduce(win, Mean);
    SumWithin(win, lo, hi);
    if PresentCount(win) > 0 {
      RatioBounds(PresentSum(win), PresentCount(win), lo, hi);
    }
  }

  /** With a window of width one every observed cell is reproduced as it is. */
  lemma WidthOneIsIdentity(s: seq<Option<int>>, i: nat, stat: Stat)
    requires i < |s| && stat != AbsSum
    ensures RollingAt(s, i, 1, stat) == if s[i].Some? then Some(s[i].value as real) else None
  {
    var win := Window(s, i, 1);
    assert Rolled(s, stat) == s;
    assert win == [s[i]];
    assert win[..0] == [];
    assert PresentSum(win) == Contribution(s[i]) && PresentCount(win) == Weight(s[i]);
    assert RollingAt(s, i, 1, stat) == Reduce(win, stat);
    if s[i].Some? {
      assert (s[i].value as real) / (1 as real) == s[i].value as real;
      assert Reduce(win, stat) == Some(s[i].value as real);
    } else {
      assert Reduce(win, stat) == None;
    }
  }
}
