/**
  The data behind the figures: the ranked top-15 selection shared by the
  population, GDP-per-capita and life-expectancy charts, and the year filter
  behind the choropleth map. Figure styling, colours and titles are not part
  of the model; a chart is its kind plus its categories and their values.
 */
module Charts {
  import opened Wrappers
  import opened Gapminder

  /** Every ranked chart keeps the first 15 rows of the ranking (`.head(15)`). */
  const TopN: nat := 15

  /** The two dashboards: the one whose tab content is built by a callback
      draws bar charts, the one with static tab children draws pie charts. */
  datatype Variant = CallbackTabs | StaticTabs

  datatype ChartKind = Bar | Pie | Choropleth

  /** What a figure is built from: its kind, one category per mark (a country
      name, or an ISO-3 country code on the map) and the value of each mark. */
  datatype ChartSpec = ChartSpec(kind: ChartKind, labels: seq<string>, values: seq<real>)

  function RankedKind(v: Variant): ChartKind {
    match v
    case CallbackTabs => Bar
    case StaticTabs => Pie
  }

  function Min(a: nat, b: nat): nat {
    if a <= b then a else b
  }

  predicate Descending(s: seq<Row>, m: Metric) {
    forall i, j :: 0 <= i < j < |s| ==> Measure(s[i], m) >= Measure(s[j], m)
  }

  predicate NonIncreasing(vs: seq<real>) {
    forall i, j :: 0 <= i < j < |vs| ==> vs[i] >= vs[j]
  }

  /** `t` is a possible outcome of `sort_values(by=m, ascending=False)` on `s`:
      the rows of `s`, rearranged in non-increasing order of `m`. The default
      sort is not stable, so nothing is said about the order of equal values. */
  ghost predicate IsRanking(s: seq<Row>, t: seq<Row>, m: Metric) {
    multiset(t) == multiset(s) && Descending(t, m)
  }

  function Measures(t: seq<Row>, m: Metric): (vs: seq<real>)
    ensures |vs| == |t|
    ensures forall i :: 0 <= i < |t| ==> vs[i] == Measure(t[i], m)
  {
    if t == [] then [] else [Measure(t[0], m)] + Measures(t[1..], m)
  }

  function Countries(t: seq<Row>): (cs: seq<string>)
    ensures |cs| == |t|
    ensures forall i :: 0 <= i < |t| ==> cs[i] == t[i].country
  {
    if t == [] then [] else [t[0].country] + Countries(t[1..])
  }

  function IsoCodes(t: seq<Row>): (cs: seq<string>)
    ensures |cs| == |t|
    ensures forall i :: 0 <= i < |t| ==> cs[i] == t[i].isoAlpha
  {
    if t == [] then [] else [t[0].isoAlpha] + IsoCodes(t[1..])
  }

  /** Inserts `x` into a ranking, before the first row it is not smaller than. */
  function Insert(x: Row, s: seq<Row>, m: Metric): (r: seq<Row>)
    ensures multiset(r) == multiset(s) + multiset{x}
  {
    if s == [] || Measure(x, m) >= Measure(s[0], m) then [x] + s
    else
      assert s == [s[0]] + s[1..];
      [s[0]] + Insert(x, s[1..], m)
  }

  lemma {:induction false} InsertKeepsDescending(x: Row, s: seq<Row>, m: Metric)
    requires Descending(s, m)
    ensures Descending(Insert(x, s, m), m)
  {
    if s != [] && Measure(x, m) < Measure(s[0], m) {
      var rest := Insert(x, s[1..], m);
      InsertKeepsDescending(x, s[1..], m);
      assert rest[0] == x || rest[0] == s[1];
      var r := [s[0]] + rest;
      forall i, j | 0 <= i < j < |r|
        ensures Measure(r[i], m) >= Measure(r[j], m)
      {
        assert r[j] == rest[j - 1];
        if i > 0 {
          assert r[i] == rest[i - 1];
        } else if j > 1 {
          assert Measure(rest[0], m) >= Measure(rest[j - 1], m);
        }
      }
    }
  }

  /** One way to carry out the descending sort: insertion sort. Every
      property below is proved for any ranking, not just this one. */
  function SortDescending(s: seq<Row>, m: Metric): (t: seq<Row>)
    ensures IsRanking(s, t, m)
  {
    if s == [] then []
    else
      assert s == [s[0]] + s[1..];
      var rest := SortDescending(s[1..], m);
      InsertKeepsDescending(s[0], rest, m);
      Insert(s[0], rest, m)
  }

  /** The first `n` rows of any ranking of `s` are a top-`n` selection: they
      come from `s`, they are all of `s` when `s` has at most `n` rows, they
      stay in descending order, and no row of `s` left out has a larger value
      than a row kept. */
  lemma {:induction false} RankingPrefixIsTop(s: seq<Row>, t: seq<Row>, m: Metric, n: nat)
    requires IsRanking(s, t, m)
    ensures |t[..Min(n, |t|)]| == Min(n, |s|)
    ensures multiset(t[..Min(n, |t|)]) <= multiset(s)
    ensures |s| <= n ==> multiset(t[..Min(n, |t|)]) == multiset(s)
    ensures Descending(t[..Min(n, |t|)], m)
    ensures forall a, b :: a in multiset(s) - multiset(t[..Min(n, |t|)]) && b in t[..Min(n, |t|)] ==>
      Measure(a, m) <= Measure(b, m)
  {
    var k := Min(n, |t|);
    assert t == t[..k] + t[k..];
    assert multiset(s) == multiset(t[..k]) + multiset(t[k..]);
    assert |s| == |multiset(s)| == |multiset(t)| == |t|;
    if |s| <= n {
      assert t[..k] == t;
    }
    DroppedNotLarger(t, m, k);
  }

  /** In a ranking, no row after position `k` is larger than a row before it. */
  lemma DroppedNotLarger(t: seq<Row>, m: Metric, k: nat)
    requires Descending(t, m) && k <= |t|
    ensures forall a, b :: a in multiset(t[k..]) && b in t[..k] ==> Measure(a, m) <= Measure(b, m)
  {
    forall a, b | a in multiset(t[k..]) && b in t[..k]
      ensures Measure(a, m) <= Measure(b, m)
    {
      var j :| k <= j < |t| && t[j] == a;
      var i :| 0 <= i < k && t[i] == b;
    }
  }

  lemma SubMultisetMembers(a: seq<Row>, b: seq<Row>)
    requires multiset(a) <= multiset(b)
    ensures forall x :: x in a ==> x in b
  {
    forall x | x in a
      ensures x in b
    {
      assert x in multiset(a);
    }
  }

  /** The rows a ranked chart shows:
      `df[(Continent == c) & (Year == y)].sort_values(by=m, ascending=False).head(15)`. */
  function TopRows(rows: seq<Row>, c: string, y: int, m: Metric): (top: seq<Row>)
    ensures |top| == Min(TopN, |Select(rows, ContinentAndYear(c, y))|)
    ensures forall x :: x in top ==> x in rows && x.continent == c && x.year == y
    ensures Descending(top, m)
    ensures multiset(top) <= multiset(Select(rows, ContinentAndYear(c, y)))
    ensures |Select(rows, ContinentAndYear(c, y))| <= TopN ==>
      multiset(top) == multiset(Select(rows, ContinentAndYear(c, y)))
    ensures forall a, b :: a in multiset(Select(rows, ContinentAndYear(c, y))) - multiset(top) && b in top ==>
      Measure(a, m) <= Measure(b, m)
  {
    var matches := Select(rows, ContinentAndYear(c, y));
    var ranked := SortDescending(matches, m);
    RankingPrefixIsTop(matches, ranked, m, TopN);
    var top := ranked[..Min(TopN, |ranked|)];
    SubMultisetMembers(top, matches);
    top
  }

  /** The figure data of a population, GDP-per-capita or life-expectancy
      chart for continent `c` and year `y`: one mark per selected country, in
      ranking order, sized by metric `m`. */
  function RankedChart(kind: ChartKind, rows: seq<Row>, c: string, y: int, m: Metric): (chart: ChartSpec)
    ensures chart.kind == kind
    ensures |chart.labels| == |chart.values| == Min(TopN, |Select(rows, ContinentAndYear(c, y))|)
    ensures NonIncreasing(chart.values)
    ensures forall i :: 0 <= i < |chart.labels| ==> CountryMark(rows, c, y, m, chart.labels[i], chart.values[i])
    ensures (forall r :: r in rows ==> r.continent != c || r.year != y) ==> chart.labels == [] && chart.values == []
    ensures chart.labels == Countries(TopRows(rows, c, y, m)) && chart.values == Measures(TopRows(rows, c, y, m), m)
  {
    var top := TopRows(rows, c, y, m);
    var chart := ChartSpec(kind, Countries(top), Measures(top, m));
    var matches := Select(rows, ContinentAndYear(c, y));
    MarksComeFromRows(top, rows, c, y, m);
    assert |matches| > 0 ==> matches[0] in matches;
    chart
  }

  /** Some row of `rows` for continent `c` and year `y` is country `country`
      with value `value` for metric `m`. */
  ghost predicate CountryMark(rows: seq<Row>, c: string, y: int, m: Metric, country: string, value: real) {
    exists r :: r in rows && r.continent == c && r.year == y && r.country == country && Measure(r, m) == value
  }

  lemma MarksComeFromRows(top: seq<Row>, rows: seq<Row>, c: string, y: int, m: Metric)
    requires forall x :: x in top ==> x in rows && x.continent == c && x.year == y
    ensures forall i :: 0 <= i < |top| ==> CountryMark(rows, c, y, m, Countries(top)[i], Measures(top, m)[i])
  {
    forall i | 0 <= i < |top|
      ensures CountryMark(rows, c, y, m, Countries(top)[i], Measures(top, m)[i])
    {
      assert top[i] in top;
    }
  }

  /** Taking one occurrence of `t[j]` out of `t` takes it out of its multiset. */
  lemma MultisetRemoveAt<T>(t: seq<T>, j: nat)
    requires j < |t|
    ensures multiset(t) == multiset{t[j]} + multiset(t[..j] + t[j + 1..])
  {
    calc {
      multiset(t);
      == { assert t == t[..j] + [t[j]] + t[j + 1..]; }
      multiset(t[..j]) + multiset{t[j]} + multiset(t[j + 1..]);
      ==
      multiset{t[j]} + multiset(t[..j] + t[j + 1..]);
    }
  }

  lemma MultisetCancel<T>(x: T, a: multiset<T>, b: multiset<T>)
    requires multiset{x} + a == multiset{x} + b
    ensures a == b
  {
    calc {
      a;
      == (multiset{x} + a) - multiset{x};
      == (multiset{x} + b) - multiset{x};
      == b;
    }
  }

  lemma MeasuresSplit(t: seq<Row>, j: nat, m: Metric)
    requires j < |t|
    ensures multiset(Measures(t, m)) == multiset{Measure(t[j], m)} + multiset(Measures(t[..j] + t[j + 1..], m))
  {
    var vs := Measures(t, m);
    MultisetRemoveAt(vs, j);
    MeasuresRemoveAt(t, j, m);
  }

  lemma MeasuresRemoveAt(t: seq<Row>, j: nat, m: Metric)
    requires j < |t|
    ensures Measures(t[..j] + t[j + 1..], m) == Measures(t, m)[..j] + Measures(t, m)[j + 1..]
  {
    var lhs, rhs := Measures(t[..j] + t[j + 1..], m), Measures(t, m)[..j] + Measures(t, m)[j + 1..];
    assert |lhs| == |rhs|;
    forall i | 0 <= i < |lhs|
      ensures lhs[i] == rhs[i]
    {
      if i < j {
        assert (t[..j] + t[j + 1..])[i] == t[i];
      } else {
        assert (t[..j] + t[j + 1..])[i] == t[i + 1];
      }
    }
  }

  /** Rows with the same multiplicities have values with the same multiplicities. */
  lemma {:induction false} MeasuresRespectMultiset(t1: seq<Row>, t2: seq<Row>, m: Metric)
    requires multiset(t1) == multiset(t2)
    ensures multiset(Measures(t1, m)) == multiset(Measures(t2, m))
  {
    if t1 == [] {
      assert |t2| == |multiset(t2)| == 0;
    } else {
      var j := IndexOfMember(t2, t1[0]);
      RemoveSameElement(t1, t2, 0, j);
      MeasuresRespectMultiset(t1[..0] + t1[1..], t2[..j] + t2[j + 1..], m);
      MeasuresRemoveMatching(t1, t2, j, m);
    }
  }

  /** The step of `MeasuresRespectMultiset`: if the measures agree once a
      common row is removed from both sequences, they agree. */
  lemma MeasuresRemoveMatching(t1: seq<Row>, t2: seq<Row>, j: nat, m: Metric)
    requires t1 != [] && j < |t2| && t2[j] == t1[0]
    requires multiset(Measures(t1[..0] + t1[1..], m)) == multiset(Measures(t2[..j] + t2[j + 1..], m))
    ensures multiset(Measures(t1, m)) == multiset(Measures(t2, m))
  {
    MeasuresSplit(t1, 0, m);
    MeasuresSplit(t2, j, m);
  }

  /** A position at which an element of a sequence's multiset occurs. */
  lemma IndexOfMember<T>(t: seq<T>, x: T) returns (j: nat)
    requires x in multiset(t)
    ensures j < |t| && t[j] == x
  {
    j :| j < |t| && t[j] == x;
  }

  /** Removing one occurrence of the same element from two sequences with
      the same multiplicities leaves two such sequences. */
  lemma RemoveSameElement<T>(t1: seq<T>, t2: seq<T>, i: nat, j: nat)
    requires i < |t1| && j < |t2| && t1[i] == t2[j]
    requires multiset(t1) == multiset(t2)
    ensures multiset(t1[..i] + t1[i + 1..]) == multiset(t2[..j] + t2[j + 1..])
  {
    MultisetRemoveAt(t1, i);
    MultisetRemoveAt(t2, j);
    MultisetCancel(t1[i], multiset(t1[..i] + t1[i + 1..]), multiset(t2[..j] + t2[j + 1..]));
  }

  lemma DropCommonHead<T>(a: seq<T>, b: seq<T>)
    requires a != [] && b != [] && a[0] == b[0]
    requires multiset(a) == multiset(b)
    ensures multiset(a[1..]) == multiset(b[1..])
  {
    calc {
      multiset(a[1..]);
      == { assert a == [a[0]] + a[1..]; }
      multiset(a) - multiset{a[0]};
      == { assert b == [b[0]] + b[1..]; }
      multiset(b[1..]);
    }
  }

  /** Two non-increasing sequences with the same elements start with the same value. */
  lemma HeadsAgree(a: seq<real>, b: seq<real>)
    requires NonIncreasing(a) && NonIncreasing(b)
    requires multiset(a) == multiset(b) && a != []
    ensures b != [] && a[0] == b[0]
  {
    assert a[0] in multiset(b);
    var k :| 0 <= k < |b| && b[k] == a[0];
    assert b[0] in multiset(a);
    var l :| 0 <= l < |a| && a[l] == b[0];
    assert a[0] >= a[l] && b[0] >= b[k];
  }

  /** Two non-increasing sequences of values with the same multiplicities are equal. */
  lemma {:induction false} SortedValuesUnique(a: seq<real>, b: seq<real>)
    requires NonIncreasing(a) && NonIncreasing(b)
    requires multiset(a) == multiset(b)
    ensures a == b
  {
    if a == [] {
      assert |b| == |multiset(b)| == 0;
    } else {
      HeadsAgree(a, b);
      DropCommonHead(a, b);
      SortedValuesUnique(a[1..], b[1..]);
      assert a == [a[0]] + a[1..] && b == [b[0]] + b[1..];
    }
  }

  /** Whatever order the sort leaves equal values in, the ranking's values
      come out the same. */
  lemma {:induction false} RankingValuesDetermined(s: seq<Row>, t1: seq<Row>, t2: seq<Row>, m: Metric)
    requires IsRanking(s, t1, m) && IsRanking(s, t2, m)
    ensures Measures(t1, m) == Measures(t2, m)
  {
    MeasuresRespectMultiset(t1, t2, m);
    SortedValuesUnique(Measures(t1, m), Measures(t2, m));
  }

  /** The values a ranked chart plots do not depend on how the sort orders
      equal values: any ranking of the matching rows, cut at 15, gives them. */
  lemma {:induction false} ChartValuesIgnoreTieOrder(kind: ChartKind, rows: seq<Row>, c: string, y: int, m: Metric, t: seq<Row>)
    requires IsRanking(Select(rows, ContinentAndYear(c, y)), t, m)
    ensures RankedChart(kind, rows, c, y, m).values == Measures(t[..Min(TopN, |t|)], m)
  {
    var matches := Select(rows, ContinentAndYear(c, y));
    var ranked := SortDescending(matches, m);
    assert |t| == |ranked| by {
      assert |t| == |multiset(t)| && |ranked| == |multiset(ranked)|;
    }
    var k := Min(TopN, |t|);
    assert TopRows(rows, c, y, m) == ranked[..k];
    RankingValuesDetermined(matches, t, ranked, m);
    MeasuresPrefix(t, k, m);
    MeasuresPrefix(ranked, k, m);
  }

  lemma MeasuresPrefix(t: seq<Row>, k: nat, m: Metric)
    requires k <= |t|
    ensures Measures(t[..k], m) == Measures(t, m)[..k]
  {
    assert |Measures(t[..k], m)| == k;
  }

  /** The figure data of the choropleth map for year `y`, coloured by `m`:
      `df[df.Year == y]`, one region per row, with no ranking or cut-off. */
  function ChoroplethMap(rows: seq<Row>, m: Metric, y: int): (chart: ChartSpec)
    ensures chart.kind == Choropleth
    ensures |chart.labels| == |chart.values| == |Select(rows, YearOnly(y))|
    ensures forall r :: r in rows && r.year == y ==> r.isoAlpha in chart.labels
    ensures forall i :: 0 <= i < |chart.labels| ==>
      exists r :: r in rows && r.year == y && r.isoAlpha == chart.labels[i] && Measure(r, m) == chart.values[i]
  {
    var shown := Select(rows, YearOnly(y));
    var chart := ChartSpec(Choropleth, IsoCodes(shown), Measures(shown, m));
    assert forall i :: 0 <= i < |shown| ==> shown[i] in shown;
    IsoCodesCover(shown);
    chart
  }

  lemma IsoCodesCover(t: seq<Row>)
    ensures forall r :: r in t ==> r.isoAlpha in IsoCodes(t)
  {
    forall r | r in t
      ensures r.isoAlpha in IsoCodes(t)
    {
      var i :| 0 <= i < |t| && t[i] == r;
      assert IsoCodes(t)[i] == r.isoAlpha;
    }
  }

  /** The map draws the rows of year `y` in table order: its k-th region is
      the k-th row of that year, and every row of that year is drawn. */
  lemma {:induction false} ChoroplethInTableOrder(rows: seq<Row>, m: Metric, y: int)
    ensures |ChoroplethMap(rows, m, y).labels| == |MaskPositions(rows, YearOnly(y))|
    ensures forall k :: 0 <= k < |MaskPositions(rows, YearOnly(y))| ==>
      && MaskPositions(rows, YearOnly(y))[k] < |rows|
      && ChoroplethMap(rows, m, y).labels[k] == rows[MaskPositions(rows, YearOnly(y))[k]].isoAlpha
      && ChoroplethMap(rows, m, y).values[k] == Measure(rows[MaskPositions(rows, YearOnly(y))[k]], m)
    ensures StrictlyIncreasing(MaskPositions(rows, YearOnly(y)))
    ensures forall i :: 0 <= i < |rows| && rows[i].year == y ==> i in MaskPositions(rows, YearOnly(y))
  {
    SelectKeepsTableOrder(rows, YearOnly(y));
  }
}
