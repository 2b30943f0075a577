/**
  The Gapminder table as both dashboards hold it after loading: one row per
  (country, year) observation, the year already converted to an integer.
  Loading the table is not modelled; every operation takes the rows as input.
 */
module Gapminder {
  import opened Wrappers

  /** One observation. Population is a head count; the other two metrics are
      measured quantities, modelled as exact reals. */
  datatype Row = Row(
    country: string,
    continent: string,
    year: int,
    population: int,
    gdpPerCapita: real,
    lifeExpectancy: real,
    isoAlpha: string)

  /** The three numeric columns the charts plot. */
  datatype Metric = Population | GdpPerCapita | LifeExpectancy

  /** The value of column `m` in row `r`. */
  function Measure(r: Row, m: Metric): real {
    match m
    case Population => r.population as real
    case GdpPerCapita => r.gdpPerCapita
    case LifeExpectancy => r.lifeExpectancy
  }

  /** The column header of each metric in the loaded table. */
  function ColumnName(m: Metric): string {
    match m
    case Population => "Population"
    case GdpPerCapita => "GDP per Capita"
    case LifeExpectancy => "Life Expectancy"
  }

  /** The metric whose column header is `name`, if there is one. */
  function MetricOfColumn(name: string): (r: Option<Metric>)
    ensures r.Some? ==> ColumnName(r.value) == name
    ensures forall m :: ColumnName(m) == name ==> r == Some(m)
  {
    if name == "Population" then Some(Population)
    else if name == "GDP per Capita" then Some(GdpPerCapita)
    else if name == "Life Expectancy" then Some(LifeExpectancy)
    else None
  }

  /** The two boolean masks the dashboards apply to the table:
      continent and year for the ranked charts, year alone for the map. */
  datatype Mask = ContinentAndYear(continent: string, year: int) | YearOnly(year: int)

  predicate Passes(mask: Mask, r: Row) {
    match mask
    case ContinentAndYear(c, y) => r.continent == c && r.year == y
    case YearOnly(y) => r.year == y
  }

  /** `df[mask]`: the rows that pass the mask, in table order
      (SelectKeepsTableOrder states the order and completeness exactly). */
  function Select(rows: seq<Row>, mask: Mask): (r: seq<Row>)
    ensures |r| <= |rows|
    ensures forall x :: x in r <==> x in rows && Passes(mask, x)
  {
    if rows == [] then []
    else
      assert rows == [rows[0]] + rows[1..];
      (if Passes(mask, rows[0]) then [rows[0]] else []) + Select(rows[1..], mask)
  }

  /** The table positions of the rows that pass the mask, in increasing order,
      counted from `base`. */
  ghost function PositionsFrom(rows: seq<Row>, mask: Mask, base: nat): seq<nat> {
    if rows == [] then []
    else (if Passes(mask, rows[0]) then [base] else []) + PositionsFrom(rows[1..], mask, base + 1)
  }

  ghost function MaskPositions(rows: seq<Row>, mask: Mask): seq<nat> {
    PositionsFrom(rows, mask, 0)
  }

  ghost predicate StrictlyIncreasing(ps: seq<nat>) {
    forall k, l :: 0 <= k < l < |ps| ==> ps[k] < ps[l]
  }

  /** `sel` is read off `rows` at the positions `ps`, shifted by `base`. */
  ghost predicate ReadAt(sel: seq<Row>, rows: seq<Row>, ps: seq<nat>, base: nat) {
    && |ps| == |sel|
    && forall k :: 0 <= k < |ps| ==> base <= ps[k] < base + |rows| && sel[k] == rows[ps[k] - base]
  }

  /** Selecting keeps table order: the k-th selected row is the row at the
      k-th passing position, the positions increase strictly, and every
      passing position of the table is among them (nothing is dropped). */
  lemma {:induction false} SelectKeepsTableOrder(rows: seq<Row>, mask: Mask)
    ensures ReadAt(Select(rows, mask), rows, MaskPositions(rows, mask), 0)
    ensures StrictlyIncreasing(MaskPositions(rows, mask))
    ensures forall i :: 0 <= i < |rows| && Passes(mask, rows[i]) ==> i in MaskPositions(rows, mask)
  {
    var ps := MaskPositions(rows, mask);
    assert ps == PositionsFrom(rows, mask, 0);
    assert ReadAt(Select(rows, mask), rows, ps, 0) by {
      PositionsPickSelected(rows, mask, 0);
    }
    assert StrictlyIncreasing(ps) by {
      PositionsIncrease(rows, mask, 0);
    }
    assert forall i :: 0 <= i < |rows| && Passes(mask, rows[i]) ==> i in ps by {
      PositionsComplete(rows, mask, 0);
    }
  }

  lemma {:induction false} PositionsPickSelected(rows: seq<Row>, mask: Mask, base: nat)
    ensures ReadAt(Select(rows, mask), rows, PositionsFrom(rows, mask, base), base)
  {
    if rows != [] {
      var tail := rows[1..];
      PositionsPickSelected(tail, mask, base + 1);
      var rest, selTail := PositionsFrom(tail, mask, base + 1), Select(tail, mask);
      var ps, sel := PositionsFrom(rows, mask, base), Select(rows, mask);
      if Passes(mask, rows[0]) {
        assert ps == [base] + rest;
        assert sel == [rows[0]] + selTail;
        forall k | 1 <= k < |ps|
          ensures base <= ps[k] < base + |rows| && sel[k] == rows[ps[k] - base]
        {
          assert ps[k] == rest[k - 1];
          assert sel[k] == selTail[k - 1];
        }
      } else {
        assert ps == rest;
        assert sel == selTail;
      }
    }
  }

  lemma {:induction false} PositionsIncrease(rows: seq<Row>, mask: Mask, base: nat)
    ensures forall k :: 0 <= k < |PositionsFrom(rows, mask, base)| ==> base <= PositionsFrom(rows, mask, base)[k]
    ensures StrictlyIncreasing(PositionsFrom(rows, mask, base))
  {
    if rows != [] {
      PositionsIncrease(rows[1..], mask, base + 1);
      var rest := PositionsFrom(rows[1..], mask, base + 1);
      var ps := PositionsFrom(rows, mask, base);
      if Passes(mask, rows[0]) {
        assert ps == [base] + rest;
        forall k, l | 0 <= k < l < |ps|
          ensures ps[k] < ps[l]
        {
          assert ps[l] == rest[l - 1];
          if k >= 1 {
            assert ps[k] == rest[k - 1];
          }
        }
      } else {
        assert ps == rest;
      }
    }
  }

  lemma {:induction false} PositionsComplete(rows: seq<Row>, mask: Mask, base: nat)
    ensures forall i :: 0 <= i < |rows| && Passes(mask, rows[i]) ==> base + i in PositionsFrom(rows, mask, base)
  {
    if rows != [] {
      var tail := rows[1..];
      PositionsComplete(tail, mask, base + 1);
      var rest := PositionsFrom(tail, mask, base + 1);
      var ps := PositionsFrom(rows, mask, base);
      assert ps == (if Passes(mask, rows[0]) then [base] else []) + rest;
      forall i | 0 <= i < |rows| && Passes(mask, rows[i])
        ensures base + i in ps
      {
        if i > 0 {
          assert tail[i - 1] == rows[i];
          assert base + 1 + (i - 1) in rest;
        }
      }
    }
  }
}
