/**
 * Marking of the top-N highs and lows of a resampled series (`_mark`):
 * the N highest and the N lowest cells. Observed values come first, in
 * ranking order with ties by position; while fewer than N cells are observed
 * the leading missing cells follow in series order. Both are empty when
 * N <= 0 or nothing is observed.
 */
module Marks {
  import opened Options

  /** A marked point: its position in the series and its value. */
  datatype Mark = Mark(index: nat, value: int)

  /** The observed points of s, in series order (the series without its missing cells). */
  function Observed(s: seq<Option<int>>): (r: seq<Mark>)
    ensures |r| <= |s|
    ensures forall k :: 0 <= k < |r| ==> r[k].index < |s| && s[r[k].index] == Some(r[k].value)
    ensures forall k, j :: 0 <= k < j < |r| ==> r[k].index < r[j].index
    ensures forall i :: 0 <= i < |s| && s[i].Some? ==> Mark(i, s[i].value) in r
  {
    if s == [] then []
    else
      var init := Observed(s[..|s| - 1]);
      assert forall k :: 0 <= k < |init| ==> s[..|s| - 1][init[k].index] == s[init[k].index];
      if s[|s| - 1].Some? then init + [Mark(|s| - 1, s[|s| - 1].value)] else init
  }

  /** a is ranked before b: the larger value first (the smaller for lows), ties by position. */
  predicate Before(a: Mark, b: Mark, largest: bool)
  {
    if a.value == b.value then a.index < b.index
    else if largest then a.value > b.value
    else a.value < b.value
  }

  /** Every mark of r is ranked before every later one. */
  ghost predicate Ranked(r: seq<Mark>, largest: bool)
  {
    forall k, j :: 0 <= k < j < |r| ==> Before(r[k], r[j], largest)
  }

  /** No two marks of r share a position. */
  ghost predicate DistinctIndices(r: seq<Mark>)
  {
    forall k, j :: 0 <= k < j < |r| ==> r[k].index != r[j].index
  }

  /** m placed in front of the first mark it is ranked before. */
  function Insert(m: Mark, r: seq<Mark>, largest: bool): (r': seq<Mark>)
    ensures multiset(r') == multiset(r) + multiset{m}
  {
    if r == [] || Before(m, r[0], largest) then [m] + r
    else
      assert r == [r[0]] + r[1..];
      [r[0]] + Insert(m, r[1..], largest)
  }

  lemma {:induction false} InsertRanked(m: Mark, r: seq<Mark>, largest: bool)
    requires Ranked(r, largest)
    requires forall k :: 0 <= k < |r| ==> r[k].index != m.index
    ensures Ranked(Insert(m, r, largest), largest)
  {
    if r != [] && !Before(m, r[0], largest) {
      var rest := r[1..];
      InsertRanked(m, rest, largest);
      var t := Insert(m, rest, largest);
      assert Insert(m, r, largest) == [r[0]] + t;
      forall j | 0 <= j < |t| ensures Before(r[0], t[j], largest) {
        assert t[j] in multiset(t);
        if t[j] != m {
          assert t[j] in multiset(rest);
          var k :| 0 <= k < |rest| && rest[k] == t[j];
          assert rest[k] == r[k + 1];
        }
      }
    }
  }

  /** The marks of es in ranking order (a stable insertion sort). */
  function Rank(es: seq<Mark>, largest: bool): (r: seq<Mark>)
    ensures multiset(r) == multiset(es) && |r| == |es|
  {
    if es == [] then []
    else
      assert es == [es[0]] + es[1..];
      Insert(es[0], Rank(es[1..], largest), largest)
  }

  lemma {:induction false} RankRanked(es: seq<Mark>, largest: bool)
    requires DistinctIndices(es)
    ensures Ranked(Rank(es, largest), largest)
  {
    if es != [] {
      var rest := es[1..];
      RankRanked(rest, largest);
      var r := Rank(rest, largest);
      forall k | 0 <= k < |r| ensures r[k].index != es[0].index {
        assert r[k] in multiset(rest);
        var j :| 0 <= j < |rest| && rest[j] == r[k];
        assert rest[j] == es[j + 1];
      }
      InsertRanked(es[0], r, largest);
    }
  }

  /** The first n items of r, or all of them when there are fewer (`iloc[:n]`/`head(n)` for n > 0); empty for n <= 0. */
  function Take<T>(r: seq<T>, n: int): (t: seq<T>)
    ensures |t| == if n <= 0 then 0 else if n < |r| then n else |r|
    ensures t == r[..|t|]
  {
    if n <= 0 then [] else if n >= |r| then r else r[..n]
  }

  /** A cell of a marking result: its position and its value, missing for padding. */
  datatype Cell = Cell(index: nat, value: Option<int>)

  /** The missing cells of s, in series order. */
  function MissingCells(s: seq<Option<int>>): (r: seq<Cell>)
    ensures |r| + |Observed(s)| == |s|
    ensures forall k :: 0 <= k < |r| ==> r[k].index < |s| && s[r[k].index] == None && r[k].value == None
    ensures forall k, j :: 0 <= k < j < |r| ==> r[k].index < r[j].index
  {
    if s == [] then []
    else
      var init := MissingCells(s[..|s| - 1]);
      assert forall k :: 0 <= k < |init| ==> s[..|s| - 1][init[k].index] == s[init[k].index];
      if s[|s| - 1].None? then init + [Cell(|s| - 1, None)] else init
  }

  /** Ranked points as result cells. */
  function AsCells(r: seq<Mark>): seq<Cell>
  {
    seq(|r|, k requires 0 <= k < |r| => Cell(r[k].index, Some(r[k].value)))
  }

  /**
   * Every cell of s, the observed ones in ranking order followed by the missing
   * ones in series order: the order in which the highs or lows are taken.
   */
  function Ordered(s: seq<Option<int>>, largest: bool): seq<Cell>
  {
    AsCells(Rank(Observed(s), largest)) + MissingCells(s)
  }

  /**
   * `_mark`: the n highest and the n lowest cells of s. Fewer than n observed
   * cells are followed by missing cells up to n, as `nlargest`/`nsmallest` do.
   */
  function MarkExtremes(s: seq<Option<int>>, n: int): (marks: (seq<Cell>, seq<Cell>))
    ensures |marks.0| == |marks.1| <= |s|
    ensures n > 0 ==> |marks.0| <= n
  {
    if n <= 0 || Observed(s) == [] then ([], [])
    else (Take(Ordered(s, true), n), Take(Ordered(s, false), n))
  }

  /** The highs (largest) or the lows (not largest) chosen by `MarkExtremes`. */
  function Side(s: seq<Option<int>>, n: int, largest: bool): seq<Cell>
  {
    if largest then MarkExtremes(s, n).0 else MarkExtremes(s, n).1
  }

  /** The observed cells of c, read as marks, are ranked. */
  ghost predicate CellsRanked(c: seq<Cell>, largest: bool)
  {
    forall j, k :: 0 <= j < k < |c| && c[j].value.Some? && c[k].value.Some? ==>
      Before(Mark(c[j].index, c[j].value.value), Mark(c[k].index, c[k].value.value), largest)
  }

  /** The missing cells of c come in series order. */
  ghost predicate MissingInOrder(c: seq<Cell>)
  {
    forall j, k :: 0 <= j < k < |c| && c[j].value.None? && c[k].value.None? ==> c[j].index < c[k].index
  }

  /** The first n marks of a ranking of es: the n best marks of es, in ranking order. */
  lemma TopOfRanking(es: seq<Mark>, n: int, largest: bool)
    requires DistinctIndices(es) && n > 0
    ensures var top := Take(Rank(es, largest), n);
      && |top| == (if n < |es| then n else |es|)
      && (forall k :: 0 <= k < |top| ==> top[k] in es)
      && Ranked(top, largest)
      && (forall x, k :: x in es && x !in top && 0 <= k < |top| ==> Before(top[k], x, largest))
  {
    var r := Rank(es, largest);
    RankRanked(es, largest);
    var top := Take(r, n);
    var t := |top|;
    assert top == r[..t];
    forall k | 0 <= k < t ensures top[k] in es {
      assert top[k] in multiset(r);
    }
    forall x, k | x in es && x !in top && 0 <= k < t ensures Before(top[k], x, largest) {
      assert x in multiset(es);
      var j :| 0 <= j < |r| && r[j] == x;
    }
  }

  /** A member of `Observed(s)` is an observed cell of s. */
  lemma ObservedMember(s: seq<Option<int>>, m: Mark)
    requires m in Observed(s)
    ensures m.index < |s| && s[m.index] == Some(m.value)
  {
    var es := Observed(s);
    var j :| 0 <= j < |es| && es[j] == m;
  }

  /** Ranked points followed by missing cells in series order: observed first, each part in its order. */
  lemma AppendMissing(r: seq<Mark>, m: seq<Cell>, largest: bool)
    requires Ranked(r, largest)
    requires forall k :: 0 <= k < |m| ==> m[k].value == None
    requires forall k, j :: 0 <= k < j < |m| ==> m[k].index < m[j].index
    ensures var c := AsCells(r) + m;
      && (forall j :: 0 <= j < |c| ==> (c[j].value.Some? <==> j < |r|))
      && CellsRanked(c, largest)
      && MissingInOrder(c)
  {
    var a := AsCells(r);
    var c := a + m;
    forall j, k | 0 <= j < k < |c| && c[j].value.Some? && c[k].value.Some?
      ensures Before(Mark(c[j].index, c[j].value.value), Mark(c[k].index, c[k].value.value), largest)
    {
      assert Mark(c[j].index, c[j].value.value) == r[j] && Mark(c[k].index, c[k].value.value) == r[k];
    }
    forall j, k | 0 <= j < k < |c| && c[j].value.None? && c[k].value.None? ensures c[j].index < c[k].index {
      assert c[j] == m[j - |a|] && c[k] == m[k - |a|];
    }
  }

  /** Every cell in the taking order is a cell of s with its own value. */
  lemma OrderedCells(s: seq<Option<int>>, largest: bool)
    ensures |Ordered(s, largest)| == |s|
    ensures forall j :: 0 <= j < |Ordered(s, largest)| ==>
      var c := Ordered(s, largest)[j]; c.index < |s| && s[c.index] == c.value
  {
    var es := Observed(s);
    var r := Rank(es, largest);
    var a, m := AsCells(r), MissingCells(s);
    var c := Ordered(s, largest);
    assert c == a + m;
    forall j | 0 <= j < |c| ensures c[j].index < |s| && s[c[j].index] == c[j].value {
      if j < |a| {
        assert r[j] in multiset(es);
        ObservedMember(s, r[j]);
      } else {
        assert c[j] == m[j - |a|];
      }
    }
  }

  /** The taking order puts the observed cells first, ranked, then the missing ones in series order. */
  lemma OrderedRanked(s: seq<Option<int>>, largest: bool)
    ensures forall j :: 0 <= j < |Ordered(s, largest)| ==>
      (Ordered(s, largest)[j].value.Some? <==> j < |Observed(s)|)
    ensures CellsRanked(Ordered(s, largest), largest)
    ensures MissingInOrder(Ordered(s, largest))
  {
    RankRanked(Observed(s), largest);
    AppendMissing(Rank(Observed(s), largest), MissingCells(s), largest);
  }

  /** The first n cells of an order keep its shape: observed cells first, ranked, then missing ones in order. */
  lemma TakeKeepsOrder(c: seq<Cell>, n: int, obs: nat, largest: bool)
    requires forall j :: 0 <= j < |c| ==> (c[j].value.Some? <==> j < obs)
    requires CellsRanked(c, largest) && MissingInOrder(c)
    ensures var top := Take(c, n);
      && (forall j :: 0 <= j < |top| ==> (top[j].value.Some? <==> j < (if n < obs then n else obs)))
      && CellsRanked(top, largest)
      && MissingInOrder(top)
  {
    var top := Take(c, n);
    assert top == c[..|top|];
  }

  /**
   * A ranked point left out of the first n cells of its order ranks after every
   * cell taken, and all of those are observed.
   */
  lemma TakeBeatsRest(r: seq<Mark>, m: seq<Cell>, n: int, j: nat, largest: bool)
    requires Ranked(r, largest) && j < |r|
    requires Cell(r[j].index, Some(r[j].value)) !in Take(AsCells(r) + m, n)
    ensures forall k :: 0 <= k < |Take(AsCells(r) + m, n)| ==>
      var c := Take(AsCells(r) + m, n)[k]; c.value.Some? && Before(Mark(c.index, c.value.value), r[j], largest)
  {
    var c := AsCells(r) + m;
    var top := Take(c, n);
    assert top == c[..|top|];
    assert c[j] == Cell(r[j].index, Some(r[j].value));
    assert |top| <= j;
    forall k | 0 <= k < |top| ensures top[k].value.Some? && Before(Mark(top[k].index, top[k].value.value), r[j], largest) {
      assert top[k] == c[k] && c[k] == Cell(r[k].index, Some(r[k].value));
    }
  }

  /** When anything is marked, each side is the first n cells of the taking order. */
  lemma SideIsTake(s: seq<Option<int>>, n: int, largest: bool)
    requires n > 0 && Observed(s) != []
    ensures Side(s, n, largest) == Take(Ordered(s, largest), n)
  {
  }

  /** Either side of `MarkExtremes` is empty when n <= 0 or when nothing is observed. */
  lemma MarkExtremesEmpty(s: seq<Option<int>>, n: int, largest: bool)
    requires n <= 0 || forall i :: 0 <= i < |s| ==> s[i].None?
    ensures Side(s, n, largest) == []
  {
    var es := Observed(s);
    if es != [] {
      assert es[0].index < |s| && s[es[0].index].Some?;
    }
  }

  /** Past the first part, the first n items of a concatenation come from the second part, from its start. */
  lemma TakeTail<T>(a: seq<T>, b: seq<T>, n: int)
    requires n > 0
    ensures var m := if n < |a| then n else |a|;
      forall j :: m <= j < |Take(a + b, n)| ==> Take(a + b, n)[j] == b[j - m]
  {
    var top := Take(a + b, n);
    if n >= |a| {
      forall j | |a| <= j < |top| ensures j - |a| < |b| && top[j] == b[j - |a|] {
        assert top[j] == (a + b)[j];
      }
    }
  }

  /** Past the observed cells, a side continues with the leading missing cells of s. */
  lemma LeadingMissing(s: seq<Option<int>>, n: int, largest: bool)
    requires n > 0 && Observed(s) != []
    ensures var m := if n < |Observed(s)| then n else |Observed(s)|;
      forall j :: m <= j < |Side(s, n, largest)| ==> Side(s, n, largest)[j] == MissingCells(s)[j - m]
  {
    var o, miss := AsCells(Rank(Observed(s), largest)), MissingCells(s);
    assert |o| == |Observed(s)|;
    SideIsTake(s, n, largest);
    assert Side(s, n, largest) == Take(o + miss, n);
    TakeTail(o, miss, n);
  }

  /** With something observed, either side has min(n, |s|) cells: ranked observed cells, then missing cells in series order. */
  lemma MarkExtremesShape(s: seq<Option<int>>, n: int, largest: bool)
    requires n > 0 && Observed(s) != []
    ensures |Side(s, n, largest)| == if n < |s| then n else |s|
    ensures forall j :: 0 <= j < |Side(s, n, largest)| ==>
      (Side(s, n, largest)[j].value.Some? <==> j < (if n < |Observed(s)| then n else |Observed(s)|))
    ensures CellsRanked(Side(s, n, largest), largest)
    ensures MissingInOrder(Side(s, n, largest))
  {
    SideIsTake(s, n, largest);
    OrderedCells(s, largest);
    OrderedRanked(s, largest);
    TakeKeepsOrder(Ordered(s, largest), n, |Observed(s)|, largest);
  }

  /** The first n items of ranked points followed by other cells start with the first n ranked points. */
  lemma TakeHead(r: seq<Mark>, miss: seq<Cell>, n: int)
    requires n > 0
    ensures |Take(r, n)| <= |Take(AsCells(r) + miss, n)|
    ensures Take(AsCells(r) + miss, n)[..|Take(r, n)|] == AsCells(Take(r, n))
  {
    var o, top := AsCells(r), Take(r, n);
    var t := |top|;
    assert top == r[..t];
    assert Take(o + miss, n)[..t] == (o + miss)[..t];
    assert (o + miss)[..t] == o[..t];
  }

  /** The observed prefix of either side is the first n points of the ranking of the observed points. */
  lemma MarkedTop(s: seq<Option<int>>, n: int, largest: bool)
    requires n > 0 && Observed(s) != []
    ensures var top := Take(Rank(Observed(s), largest), n);
      |top| <= |Side(s, n, largest)| && Side(s, n, largest)[..|top|] == AsCells(top)
  {
    var r, miss := Rank(Observed(s), largest), MissingCells(s);
    SideIsTake(s, n, largest);
    assert Side(s, n, largest) == Take(AsCells(r) + miss, n);
    TakeHead(r, miss, n);
  }

  /**
   * Otherwise either side holds min(n, |s|) cells: the min(n, #observed) best
   * observed cells in ranking order, then the first missing cells of s in series order.
   */
  lemma MarkExtremesRanked(s: seq<Option<int>>, n: int, largest: bool)
    requires n > 0 && exists i :: 0 <= i < |s| && s[i].Some?
    ensures |Side(s, n, largest)| == if n < |s| then n else |s|
    ensures forall j :: 0 <= j < |Side(s, n, largest)| ==>
      (Side(s, n, largest)[j].value.Some? <==> j < (if n < |Observed(s)| then n else |Observed(s)|))
    ensures CellsRanked(Side(s, n, largest), largest)
    ensures MissingInOrder(Side(s, n, largest))
    ensures var m := if n < |Observed(s)| then n else |Observed(s)|;
      forall j :: m <= j < |Side(s, n, largest)| ==> Side(s, n, largest)[j] == MissingCells(s)[j - m]
  {
    var i :| 0 <= i < |s| && s[i].Some?;
    assert Mark(i, s[i].value) in Observed(s);
    MarkExtremesShape(s, n, largest);
    LeadingMissing(s, n, largest);
  }

  /** Every cell of either side is a cell of s, with its position and value, and none is taken twice. */
  lemma MarkExtremesObserved(s: seq<Option<int>>, n: int, largest: bool)
    ensures forall k :: 0 <= k < |Side(s, n, largest)| ==>
      var c := Side(s, n, largest)[k]; c.index < |s| && s[c.index] == c.value
    ensures forall j, k :: 0 <= j < k < |Side(s, n, largest)| ==>
      Side(s, n, largest)[j].index != Side(s, n, largest)[k].index
  {
    var top := Side(s, n, largest);
    if n > 0 && Observed(s) != [] {
      SideIsTake(s, n, largest);
      OrderedCells(s, largest);
      OrderedRanked(s, largest);
      var c := Ordered(s, largest);
      assert top == c[..|top|];
      forall k | 0 <= k < |top| ensures top[k].index < |s| && s[top[k].index] == top[k].value {
        assert top[k] == c[k];
      }
      forall j, k | 0 <= j < k < |top| ensures top[j].index != top[k].index {
        assert top[j] == c[j] && top[k] == c[k];
        if top[j].value.Some? && top[k].value.Some? {
          assert Before(Mark(c[j].index, c[j].value.value), Mark(c[k].index, c[k].value.value), largest);
        }
      }
    }
  }

  /** A point of es left out of the first n cells of its taking order ranks after every cell taken. */
  lemma RankBeatsRest(es: seq<Mark>, miss: seq<Cell>, n: int, x: Mark, largest: bool)
    requires DistinctIndices(es) && x in es
    requires Cell(x.index, Some(x.value)) !in Take(AsCells(Rank(es, largest)) + miss, n)
    ensures forall k :: 0 <= k < |Take(AsCells(Rank(es, largest)) + miss, n)| ==>
      var c := Take(AsCells(Rank(es, largest)) + miss, n)[k];
      c.value.Some? && Before(Mark(c.index, c.value.value), x, largest)
  {
    var r := Rank(es, largest);
    RankRanked(es, largest);
    assert x in multiset(r);
    var j :| 0 <= j < |r| && r[j] == x;
    TakeBeatsRest(r, miss, n, j, largest);
  }

  /**
   * An observed cell that is not marked ranks after every marked observed cell,
   * and then no missing cell pads the result.
   */
  lemma MarkExtremesBeatRest(s: seq<Option<int>>, n: int, largest: bool, i: nat)
    requires i < |s| && s[i].Some? && Cell(i, s[i]) !in Side(s, n, largest)
    ensures forall k :: 0 <= k < |Side(s, n, largest)| ==>
      var c := Side(s, n, largest)[k]; c.value.Some? && Before(Mark(c.index, c.value.value), Mark(i, s[i].value), largest)
  {
    var es := Observed(s);
    var x := Mark(i, s[i].value);
    assert x in es;
    if n > 0 {
      SideIsTake(s, n, largest);
      RankBeatsRest(es, MissingCells(s), n, x, largest);
    }
  }

  /** With n = 0 both sides are empty, whatever the series. */
  lemma ZeroMarks(s: seq<Option<int>>)
    ensures MarkExtremes(s, 0) == ([], [])
  {
  }

  /** The observed cells of [5, missing, missing, 3]. */
  lemma SparseObserved()
    ensures Observed([Some(5), None, None, Some(3)]) == [Mark(0, 5), Mark(3, 3)]
  {
    var s: seq<Option<int>> := [Some(5), None, None, Some(3)];
    assert s[..3][..2][..1][..0] == [];
    assert s[..3][..2][..1] == s[..1] && s[..3][..2] == s[..2] && s[..3] == s[..|s| - 1];
    assert Observed(s[..1]) == [Mark(0, 5)];
    assert Observed(s[..2]) == [Mark(0, 5)];
    assert Observed(s[..3]) == [Mark(0, 5)];
  }

  /** The missing cells of [5, missing, missing, 3]. */
  lemma SparseMissing()
    ensures MissingCells([Some(5), None, None, Some(3)]) == [Cell(1, None), Cell(2, None)]
  {
    var s: seq<Option<int>> := [Some(5), None, None, Some(3)];
    assert s[..3][..2][..1][..0] == [];
    assert s[..3][..2][..1] == s[..1] && s[..3][..2] == s[..2] && s[..3] == s[..|s| - 1];
    assert MissingCells(s[..1]) == [];
    assert MissingCells(s[..2]) == [Cell(1, None)];
    assert MissingCells(s[..3]) == [Cell(1, None), Cell(2, None)];
  }

  /** Ranking the two observed points of that series, both ways. */
  lemma SparseRanks()
    ensures Rank([Mark(0, 5), Mark(3, 3)], true) == [Mark(0, 5), Mark(3, 3)]
    ensures Rank([Mark(0, 5), Mark(3, 3)], false) == [Mark(3, 3), Mark(0, 5)]
  {
    var es := [Mark(0, 5), Mark(3, 3)];
    assert es[1..] == [Mark(3, 3)] && es[1..][1..] == [];
    assert Rank(es[1..], true) == [Mark(3, 3)];
    assert Rank(es[1..], false) == [Mark(3, 3)];
  }

  /** Two ranked points as cells. */
  lemma AsCellsPair(a: Mark, b: Mark)
    ensures AsCells([a, b]) == [Cell(a.index, Some(a.value)), Cell(b.index, Some(b.value))]
  {
    var c := AsCells([a, b]);
    assert |c| == 2 && c[0] == Cell(a.index, Some(a.value)) && c[1] == Cell(b.index, Some(b.value));
  }

  /** The taking orders of [5, missing, missing, 3]. */
  lemma SparseOrdered()
    ensures Ordered([Some(5), None, None, Some(3)], true) ==
      [Cell(0, Some(5)), Cell(3, Some(3)), Cell(1, None), Cell(2, None)]
    ensures Ordered([Some(5), None, None, Some(3)], false) ==
      [Cell(3, Some(3)), Cell(0, Some(5)), Cell(1, None), Cell(2, None)]
  {
    SparseObserved();
    SparseMissing();
    SparseRanks();
    var s: seq<Option<int>> := [Some(5), None, None, Some(3)];
    var es, m := [Mark(0, 5), Mark(3, 3)], [Cell(1, None), Cell(2, None)];
    assert Ordered(s, true) == AsCells(Rank(es, true)) + m;
    assert Ordered(s, false) == AsCells(Rank(es, false)) + m;
    AsCellsPair(Mark(0, 5), Mark(3, 3));
    AsCellsPair(Mark(3, 3), Mark(0, 5));
  }

  /** [5, missing, missing, 3] with n = 3: two observed cells, then the first missing cell. */
  lemma SparseMarks()
    ensures MarkExtremes([Some(5), None, None, Some(3)], 3) ==
      ([Cell(0, Some(5)), Cell(3, Some(3)), Cell(1, None)],
       [Cell(3, Some(3)), Cell(0, Some(5)), Cell(1, None)])
  {
    SparseObserved();
    SparseMissing();
    SparseOrdered();
    var s: seq<Option<int>> := [Some(5), None, None, Some(3)];
    var hi, lo := Ordered(s, true), Ordered(s, false);
    assert Take(hi, 3) == hi[..3] == [Cell(0, Some(5)), Cell(3, Some(3)), Cell(1, None)];
    assert Take(lo, 3) == lo[..3] == [Cell(3, Some(3)), Cell(0, Some(5)), Cell(1, None)];
    assert MarkExtremes(s, 3) == (Take(hi, 3), Take(lo, 3));
  }
}
