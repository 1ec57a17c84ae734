/**
 * Data-quality guards: speeds and volumes above the user's caps are replaced,
 * in place, by missing values before any view is computed.
 */
module Guards {
  import opened Options

  const SpeedColumn: string := "average_speed"
  const VolumeColumn: string := "traffic_volume"

  /** One cell after the guard: a value above the cap becomes missing. */
  function CapCell(x: Option<int>, cap: int): (r: Option<int>)
    ensures r == None <==> x == None || x.value > cap
    ensures r.Some? ==> r == x
  {
    if x.Some? && x.value > cap then None else x
  }

  /** A column after the guard. */
  function Capped(s: seq<Option<int>>, cap: int): (r: seq<Option<int>>)
    ensures |r| == |s|
    ensures forall i :: 0 <= i < |s| ==>
      (r[i] == None <==> s[i] == None || s[i].value > cap) && (r[i].Some? ==> r[i] == s[i])
  {
    seq(|s|, i requires 0 <= i < |s| => CapCell(s[i], cap))
  }

  /** Applying the guard twice with the same cap changes nothing more. */
  lemma CappedIdempotent(s: seq<Option<int>>, cap: int)
    ensures Capped(Capped(s, cap), cap) == Capped(s, cap)
  {
  }

  /** Two guards in a row act like one guard with the smaller cap. */
  lemma CappedTwice(s: seq<Option<int>>, c1: int, c2: int)
    ensures Capped(Capped(s, c1), c2) == Capped(s, if c1 <= c2 then c1 else c2)
  {
  }

  /** After the guard no observed value exceeds the cap. */
  lemma CappedBounded(s: seq<Option<int>>, cap: int)
    ensures forall i :: 0 <= i < |s| && Capped(s, cap)[i].Some? ==> Capped(s, cap)[i].value <= cap
  {
  }

  /** The guard on one column, overwriting the cells above the cap. */
  method CapColumn(a: array<Option<int>>, cap: int)
    modifies a
    ensures a[..] == Capped(old(a[..]), cap)
  {
    for i := 0 to a.Length
      invariant a[i..] == old(a[i..])
      invariant a[..i] == Capped(old(a[..i]), cap)
    {
      if a[i].Some? && a[i].value > cap {
        a[i] := None;
      }
      assert a[..i + 1] == a[..i] + [a[i]];
      assert old(a[..i + 1]) == old(a[..i]) + [old(a[i])];
    }
  }

  /** The numeric columns of the working table, by name, all of one length. */
  class Frame {
    var columns: map<string, array<Option<int>>>
    var rows: nat

    ghost predicate Valid()
      reads this
    {
      && (forall c :: c in columns ==> columns[c].Length == rows)
      && (forall c, d :: c in columns && d in columns && c != d ==> columns[c] != columns[d])
    }

    /** The contents of every column. */
    ghost function Table(): map<string, seq<Option<int>>>
      reads this, columns.Values
    {
      map c | c in columns :: columns[c][..]
    }

    constructor (table: map<string, seq<Option<int>>>, rows: nat)
      requires forall c :: c in table ==> |table[c]| == rows
      ensures Valid() && Table() == table && this.rows == rows
      ensures forall c :: c in columns ==> fresh(columns[c])
    {
      var cols: map<string, array<Option<int>>> := map[];
      var names := table.Keys;
      while names != {}
        invariant names <= table.Keys
        invariant cols.Keys == table.Keys - names
        invariant forall c :: c in cols ==> fresh(cols[c]) && cols[c][..] == table[c]
        invariant forall c, d :: c in cols && d in cols && c != d ==> cols[c] != cols[d]
        decreases names
      {
        var c :| c in names;
        var a := new Option<int>[rows](i requires 0 <= i < rows => table[c][i]);
        assert a[..] == table[c];
        cols := cols[c := a];
        names := names - {c};
      }
      columns := cols;
      this.rows := rows;
    }

    /** Applies the speed cap, then the volume cap, to whichever of the two columns exist. */
    method ApplyGuards(maxSpeed: int, maxVolume: int)
      requires Valid()
      modifies columns.Values
      ensures Valid()
      ensures Table().Keys == old(Table()).Keys
      ensures forall c :: c in Table() ==>
        Table()[c] == if c == SpeedColumn then Capped(old(Table())[c], maxSpeed)
                      else if c == VolumeColumn then Capped(old(Table())[c], maxVolume)
                      else old(Table())[c]
    {
      if SpeedColumn in columns {
        CapColumn(columns[SpeedColumn], maxSpeed);
      }
      if VolumeColumn in columns {
        CapColumn(columns[VolumeColumn], maxVolume);
      }
    }
  }
}
